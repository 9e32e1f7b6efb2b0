/** The HTTP handler of internal/handlers/handlers.go: it reads
    `name vX.Y.Z` pairs from the request body, asks the advisory client
    about them and lays the answer out as a numbered table. The regular
    expression and the table renderer are not modelled: the handler starts
    from the submatches and ends with the rows and the footer total. */
module Handlers {
  import opened GoStrings
  import Types
  import Advisor

  // ---------------------------------------------------------------------
  // The package map
  // ---------------------------------------------------------------------

  /** The map built from the submatches: every match with its two groups
      sets its name to its version, so a later match of a name wins. */
  function PackagesOf(matches: seq<seq<string>>): map<string, string>
  {
    if matches == [] then map[]
    else
      var packages := PackagesOf(matches[..|matches| - 1]);
      var m := matches[|matches| - 1];
      if |m| == 3 then packages[m[1] := m[2]] else packages
  }

  /** The loop filling `packages`. */
  method BuildPackages(matches: seq<seq<string>>) returns (packages: map<string, string>)
    ensures packages == PackagesOf(matches)
  {
    packages := map[];
    for n := 0 to |matches|
      invariant packages == PackagesOf(matches[..n])
    {
      assert matches[..n + 1][..n] == matches[..n];
      var m := matches[n];
      if |m| == 3 {
        packages := packages[m[1] := m[2]];
      }
    }
    assert matches[..|matches|] == matches;
  }

  /** The names in the map are those of the complete matches, and each name
      keeps the version of its last match. */
  lemma {:induction false} LastVersionWins(matches: seq<seq<string>>)
    ensures forall name :: name in PackagesOf(matches) <==>
      exists i :: 0 <= i < |matches| && |matches[i]| == 3 && matches[i][1] == name
    ensures forall i ::
      (0 <= i < |matches| && |matches[i]| == 3
       && (forall j :: i < j < |matches| && |matches[j]| == 3 ==> matches[j][1] != matches[i][1]))
      ==> matches[i][1] in PackagesOf(matches) && PackagesOf(matches)[matches[i][1]] == matches[i][2]
    decreases |matches|
  {
    if matches != [] {
      var init := matches[..|matches| - 1];
      LastVersionWins(init);
      forall name | name in PackagesOf(matches)
        ensures exists i :: 0 <= i < |matches| && |matches[i]| == 3 && matches[i][1] == name
      {
        if name in PackagesOf(init) {
          var i :| 0 <= i < |init| && |init[i]| == 3 && init[i][1] == name;
          assert matches[i] == init[i];
        } else {
          assert |matches[|matches| - 1]| == 3;
        }
      }
      forall name | exists i :: 0 <= i < |matches| && |matches[i]| == 3 && matches[i][1] == name
        ensures name in PackagesOf(matches)
      {
        var i :| 0 <= i < |matches| && |matches[i]| == 3 && matches[i][1] == name;
        if i < |init| {
          assert init[i] == matches[i];
        }
      }
      forall i | 0 <= i < |matches| && |matches[i]| == 3
        && (forall j :: i < j < |matches| && |matches[j]| == 3 ==> matches[j][1] != matches[i][1])
        ensures matches[i][1] in PackagesOf(matches) && PackagesOf(matches)[matches[i][1]] == matches[i][2]
      {
        if i < |init| {
          assert init[i] == matches[i];
          forall j | i < j < |init| && |init[j]| == 3 ensures init[j][1] != init[i][1] {
            assert init[j] == matches[j];
          }
        }
      }
    }
  }

  /** The text the version group matches: three dot-separated runs of digits. */
  predicate IsVersionTriple(s: string)
  {
    var parts := Split(s, ".");
    |parts| == 3 && forall i :: 0 <= i < 3 ==> parts[i] != [] && IsDigits(parts[i])
  }

  predicate IsDigits(s: string)
  {
    forall i :: 0 <= i < |s| ==> '0' <= s[i] <= '9'
  }

  /** When every complete match carries a version triple, as the second
      group of the expression guarantees, so does every stored version; in
      particular none keeps the leading `v`. */
  lemma {:induction false} StoredVersionsAreTriples(matches: seq<seq<string>>)
    requires forall i :: 0 <= i < |matches| && |matches[i]| == 3 ==> IsVersionTriple(matches[i][2])
    ensures forall name :: name in PackagesOf(matches) ==>
      IsVersionTriple(PackagesOf(matches)[name]) && PackagesOf(matches)[name][0] != 'v'
    decreases |matches|
  {
    if matches != [] {
      var init := matches[..|matches| - 1];
      forall i | 0 <= i < |init| && |init[i]| == 3 ensures IsVersionTriple(init[i][2]) {
        assert init[i] == matches[i];
      }
      StoredVersionsAreTriples(init);
      var last := matches[|matches| - 1];
      forall name | name in PackagesOf(matches)
        ensures IsVersionTriple(PackagesOf(matches)[name]) && PackagesOf(matches)[name][0] != 'v'
      {
        var version := PackagesOf(matches)[name];
        if |last| == 3 && name == last[1] {
          assert version == last[2];
        } else {
          assert version == PackagesOf(init)[name];
        }
        var head := Split(version, ".")[0];
        assert head != [] && IsDigits(head);
        assert head[0] == version[0];
      }
    }
  }

  // ---------------------------------------------------------------------
  // Titles
  // ---------------------------------------------------------------------

  /** The title column: the summary itself when it has fewer than six
      words, else its first six words and an ellipsis, separated by single
      spaces. */
  function Title(summary: string): string
  {
    var words := Fields(summary);
    if |words| < 6 then summary else Join(words[..6] + ["..."], " ")
  }

  /** The long title is the six-word format of the handler: the first six
      words, each followed by one space, then `...`. */
  lemma TitleText(summary: string)
    requires |Fields(summary)| >= 6
    ensures var w := Fields(summary);
      Title(summary) == w[0] + " " + w[1] + " " + w[2] + " " + w[3] + " " + w[4] + " " + w[5] + " ..."
  {
    var w := Fields(summary);
    SixWords(w);
    assert " " + "..." == " ...";
  }

  lemma SixWords(w: seq<string>)
    requires |w| >= 6
    ensures Join(w[..6] + ["..."], " ")
      == w[0] + " " + w[1] + " " + w[2] + " " + w[3] + " " + w[4] + " " + w[5] + " " + "..."
  {
    assert Join(w[..1], " ") == w[0];
    JoinPrefixStep(w, 1);
    JoinPrefixStep(w, 2);
    JoinPrefixStep(w, 3);
    JoinPrefixStep(w, 4);
    JoinPrefixStep(w, 5);
    JoinSnoc(w[..6], " ", "...");
  }

  lemma JoinPrefixStep(w: seq<string>, k: nat)
    requires 0 < k < |w|
    ensures Join(w[..k + 1], " ") == Join(w[..k], " ") + " " + w[k]
  {
    assert w[..k + 1] == w[..k] + [w[k]];
    JoinSnoc(w[..k], " ", w[k]);
  }

  /** A short summary is kept as it is; the words of a long title are the
      first six words of the summary and `...`, so exactly six words
      survive, even when the summary has exactly six. */
  lemma TitleRule(summary: string)
    ensures |Fields(summary)| < 6 ==> Title(summary) == summary
    ensures |Fields(summary)| >= 6 ==> Fields(Title(summary)) == Fields(summary)[..6] + ["..."]
  {
    var words := Fields(summary);
    if |words| >= 6 {
      var kept := words[..6] + ["..."];
      forall i | 0 <= i < |kept| ensures kept[i] != [] && NoSpace(kept[i]) {
        if i == 6 {
          assert kept[i] == "...";
        } else {
          assert kept[i] == words[i];
        }
      }
      FieldsOfJoin(kept);
    }
  }

  // ---------------------------------------------------------------------
  // Rows
  // ---------------------------------------------------------------------

  /** A table row: `#`, Package, Vulnerability, Severity, Affected
      Versions, Fixed Version, Title. */
  datatype Row = Row(
    number: nat,
    package: string,
    vulnerability: string,
    severity: string,
    affectedVersions: string,
    fixedVersion: string,
    title: string)

  function MakeRow(number: nat, pkg: string, v: Types.Vulnerability): Row
  {
    Row(number, pkg, v.cveId, v.severity, v.affectedVersions, v.patchedVersions, Title(v.summary))
  }

  /** The rows of one package's list, numbered from `start`, in list order. */
  function PackageRows(pkg: string, list: seq<Types.Vulnerability>, start: nat): (rows: seq<Row>)
    ensures |rows| == |list|
  {
    if list == [] then []
    else PackageRows(pkg, list[..|list| - 1], start) + [MakeRow(start + |list| - 1, pkg, list[|list| - 1])]
  }

  /** The rows of the packages taken in `order`, numbered on from 1. */
  function RowsOf(vulns: map<string, seq<Types.Vulnerability>>, order: seq<string>): seq<Row>
    requires forall i :: 0 <= i < |order| ==> order[i] in vulns
  {
    if order == [] then []
    else
      var before := RowsOf(vulns, order[..|order| - 1]);
      var pkg := order[|order| - 1];
      before + PackageRows(pkg, vulns[pkg], |before| + 1)
  }

  /** The number of findings of the packages in `order`. */
  function TotalOf(vulns: map<string, seq<Types.Vulnerability>>, order: seq<string>): nat
    requires forall i :: 0 <= i < |order| ==> order[i] in vulns
  {
    if order == [] then 0
    else TotalOf(vulns, order[..|order| - 1]) + |vulns[order[|order| - 1]]|
  }

  /** `order` lists every key of the map exactly once. */
  ghost predicate Enumerates(order: seq<string>, keys: set<string>)
  {
    (forall k :: k in keys <==> k in order)
    && (forall i, j :: 0 <= i < j < |order| ==> order[i] != order[j])
  }

  /** Row `i` of a package is its `i`-th finding, numbered `start + i`,
      with the map key in the package column. */
  lemma {:induction false} PackageRowAt(pkg: string, list: seq<Types.Vulnerability>, start: nat, i: nat)
    requires i < |list|
    ensures PackageRows(pkg, list, start)[i] == MakeRow(start + i, pkg, list[i])
    decreases |list|
  {
    if i < |list| - 1 {
      var init := list[..|list| - 1];
      PackageRowAt(pkg, init, start, i);
      assert PackageRows(pkg, list, start)[i] == PackageRows(pkg, init, start)[i];
    }
  }

  lemma PackageRowsStep(pkg: string, list: seq<Types.Vulnerability>, start: nat, j: nat)
    requires j < |list|
    ensures PackageRows(pkg, list[..j + 1], start) == PackageRows(pkg, list[..j], start) + [MakeRow(start + j, pkg, list[j])]
  {
    SliceSnoc(list, j);
    PackageRowsSnoc(pkg, list[..j], list[j], start);
  }

  lemma PackageRowsSnoc(pkg: string, init: seq<Types.Vulnerability>, v: Types.Vulnerability, start: nat)
    ensures PackageRows(pkg, init + [v], start) == PackageRows(pkg, init, start) + [MakeRow(start + |init|, pkg, v)]
  {
    var longer := init + [v];
    assert longer[..|longer| - 1] == init;
  }

  /** The inner loop of `renderTableResult`: one row per finding of `pkg`,
      `count` running on. */
  method AppendPackageRows(rows: seq<Row>, count: nat, pkg: string, list: seq<Types.Vulnerability>)
    returns (rows': seq<Row>, count': nat)
    requires count == |rows| + 1
    ensures rows' == rows + PackageRows(pkg, list, count)
    ensures count' == |rows'| + 1
  {
    rows' := rows;
    count' := count;
    for j := 0 to |list|
      invariant rows' == rows + PackageRows(pkg, list[..j], count)
      invariant count' == |rows'| + 1
    {
      var vulnerability := list[j];
      var title := Title(vulnerability.summary);
      var row := Row(count', pkg, vulnerability.cveId, vulnerability.severity,
                     vulnerability.affectedVersions, vulnerability.patchedVersions, title);
      PackageRowsStep(pkg, list, count, j);
      rows' := rows' + [row];
      count' := count' + 1;
    }
    assert list[..|list|] == list;
  }

  lemma SliceSnoc<T>(s: seq<T>, k: nat)
    requires k < |s|
    ensures s[..k + 1] == s[..k] + [s[k]]
  {
  }

  lemma RowsOfStep(vulns: map<string, seq<Types.Vulnerability>>, order: seq<string>, pkg: string)
    requires forall i :: 0 <= i < |order| ==> order[i] in vulns
    requires pkg in vulns
    ensures forall i :: 0 <= i < |order + [pkg]| ==> (order + [pkg])[i] in vulns
    ensures RowsOf(vulns, order + [pkg])
      == RowsOf(vulns, order) + PackageRows(pkg, vulns[pkg], |RowsOf(vulns, order)| + 1)
  {
    assert (order + [pkg])[..|order|] == order;
  }

  /** Partway through the visit of a map: `order` lists distinct keys
      already visited, `remaining` the rest. */
  ghost predicate Visiting(order: seq<string>, remaining: set<string>, keys: set<string>)
  {
    && remaining <= keys
    && (forall k :: k in keys <==> k in order || k in remaining)
    && (forall i :: 0 <= i < |order| ==> order[i] in keys && order[i] !in remaining)
    && (forall i, j :: 0 <= i < j < |order| ==> order[i] != order[j])
  }

  lemma VisitStep(order: seq<string>, remaining: set<string>, keys: set<string>, pkg: string)
    requires Visiting(order, remaining, keys) && pkg in remaining
    ensures Visiting(order + [pkg], remaining - {pkg}, keys)
    ensures |remaining - {pkg}| < |remaining|
  {
    var order' := order + [pkg];
    forall i, j | 0 <= i < j < |order'| ensures order'[i] != order'[j] {
      if j == |order| {
        assert order'[i] == order[i];
      } else {
        assert order'[i] == order[i] && order'[j] == order[j];
      }
    }
  }

  lemma VisitDone(order: seq<string>, keys: set<string>)
    requires Visiting(order, {}, keys)
    ensures Enumerates(order, keys)
  {
  }

  /** `renderTableResult` up to the rendering: the rows in the order the
      map is visited, and the footer total. */
  method RenderTableResult(vulns: map<string, seq<Types.Vulnerability>>)
    returns (rows: seq<Row>, total: nat, ghost order: seq<string>)
    ensures Enumerates(order, vulns.Keys)
    ensures forall i :: 0 <= i < |order| ==> order[i] in vulns
    ensures rows == RowsOf(vulns, order)
    ensures total == |rows| + 1
  {
    var count := 1;
    rows := [];
    order := [];
    var remaining := vulns.Keys;
    while remaining != {}
      invariant Rendering(vulns, order, remaining, rows)
      invariant count == |rows| + 1
      decreases |remaining|
    {
      var pkg :| pkg in remaining;
      RenderStep(vulns, order, remaining, rows, pkg);
      rows, count := AppendPackageRows(rows, count, pkg, vulns[pkg]);
      order := order + [pkg];
      remaining := remaining - {pkg};
    }
    RenderDone(vulns, order, rows);
    total := count;
  }

  /** The state of the visit in `renderTableResult`: the packages visited
      so far and the rows written for them. */
  ghost predicate Rendering(vulns: map<string, seq<Types.Vulnerability>>, order: seq<string>, remaining: set<string>, rows: seq<Row>)
  {
    && Visiting(order, remaining, vulns.Keys)
    && (forall i :: 0 <= i < |order| ==> order[i] in vulns)
    && rows == RowsOf(vulns, order)
  }

  lemma RenderStep(vulns: map<string, seq<Types.Vulnerability>>, order: seq<string>, remaining: set<string>, rows: seq<Row>, pkg: string)
    requires Rendering(vulns, order, remaining, rows) && pkg in remaining
    ensures pkg in vulns
    ensures Rendering(vulns, order + [pkg], remaining - {pkg}, rows + PackageRows(pkg, vulns[pkg], |rows| + 1))
    ensures |remaining - {pkg}| < |remaining|
  {
    VisitStep(order, remaining, vulns.Keys, pkg);
    RowsOfStep(vulns, order, pkg);
  }

  lemma RenderDone(vulns: map<string, seq<Types.Vulnerability>>, order: seq<string>, rows: seq<Row>)
    requires Rendering(vulns, order, {}, rows)
    ensures Enumerates(order, vulns.Keys)
    ensures forall i :: 0 <= i < |order| ==> order[i] in vulns
    ensures rows == RowsOf(vulns, order)
  {
    VisitDone(order, vulns.Keys);
  }

  /** Rows are numbered 1, 2, 3, ... */
  lemma {:induction false} RowsNumbered(vulns: map<string, seq<Types.Vulnerability>>, order: seq<string>)
    requires forall i :: 0 <= i < |order| ==> order[i] in vulns
    ensures |RowsOf(vulns, order)| == TotalOf(vulns, order)
    ensures forall i :: 0 <= i < |RowsOf(vulns, order)| ==> RowsOf(vulns, order)[i].number == i + 1
    decreases |order|
  {
    if order != [] {
      var init := order[..|order| - 1];
      RowsNumbered(vulns, init);
      var before := RowsOf(vulns, init);
      var pkg := order[|order| - 1];
      var added: seq<Row> := PackageRows(pkg, vulns[pkg], |before| + 1);
      forall i | 0 <= i < |before + added| ensures (before + added)[i].number == i + 1 {
        if i < |before| {
          assert (before + added)[i] == before[i];
        } else {
          PackageRowAt(pkg, vulns[pkg], |before| + 1, i - |before|);
          assert (before + added)[i] == added[i - |before|];
        }
      }
    }
  }

  lemma {:induction false} RowsPrefix(vulns: map<string, seq<Types.Vulnerability>>, order: seq<string>, k: nat)
    requires forall i :: 0 <= i < |order| ==> order[i] in vulns
    requires k <= |order|
    ensures RowsOf(vulns, order[..k]) <= RowsOf(vulns, order)
    decreases |order| - k
  {
    if k < |order| {
      RowsPrefix(vulns, order, k + 1);
      assert order[..k + 1][..k] == order[..k];
    } else {
      assert order[..k] == order;
    }
  }

  /** The rows of the package at position `k` of the visit follow its list
      in order, carry the map key in the package column and start after
      the rows of the packages visited before it. */
  lemma RowsFollowLists(vulns: map<string, seq<Types.Vulnerability>>, order: seq<string>, k: nat, j: nat)
    requires forall i :: 0 <= i < |order| ==> order[i] in vulns
    requires k < |order| && j < |vulns[order[k]]|
    ensures TotalOf(vulns, order[..k]) + j < |RowsOf(vulns, order)|
    ensures RowsOf(vulns, order)[TotalOf(vulns, order[..k]) + j]
      == MakeRow(TotalOf(vulns, order[..k]) + j + 1, order[k], vulns[order[k]][j])
  {
    var visited := order[..k];
    var pkg := order[k];
    var before := RowsOf(vulns, visited);
    var added := PackageRows(pkg, vulns[pkg], |before| + 1);
    var upto := RowsOf(vulns, order[..k + 1]);
    assert |before| == TotalOf(vulns, visited) by {
      RowsNumbered(vulns, visited);
    }
    assert upto == before + added by {
      SliceSnoc(order, k);
      RowsOfStep(vulns, visited, pkg);
    }
    var idx := TotalOf(vulns, visited) + j;
    var row := MakeRow(idx + 1, pkg, vulns[pkg][j]);
    PackageRowAt(pkg, vulns[pkg], |before| + 1, j);
    assert added[j] == row;
    assert upto[idx] == row;
    assert RowsOf(vulns, order)[idx] == row by {
      RowsPrefix(vulns, order, k + 1);
    }
  }

  /** The footer total is one more than the number of findings. */
  lemma FooterTotal(vulns: map<string, seq<Types.Vulnerability>>, order: seq<string>, rows: seq<Row>, total: nat)
    requires forall i :: 0 <= i < |order| ==> order[i] in vulns
    requires rows == RowsOf(vulns, order) && total == |rows| + 1
    ensures total == TotalOf(vulns, order) + 1
  {
    RowsNumbered(vulns, order);
  }

  // ---------------------------------------------------------------------
  // The handler
  // ---------------------------------------------------------------------

  /** `VulnerabilityHandler`: status 200 and the table of the report on the
      packages named in the body. */
  method VulnerabilityHandler(api: Advisor.Api, sv: Advisor.SemVer, matches: seq<seq<string>>)
    returns (status: nat, rows: seq<Row>, total: nat, ghost order: seq<string>)
    ensures status == 200
    ensures var report := Advisor.Report(api, sv, PackagesOf(matches));
      Enumerates(order, report.Keys)
      && (forall i :: 0 <= i < |order| ==> order[i] in report)
      && rows == RowsOf(report, order)
      && total == TotalOf(report, order) + 1
  {
    var packages := BuildPackages(matches);
    var vulnerabilities := Advisor.FetchVulnerabilitiesFromGithub(api, sv, packages);
    rows, total, order := RenderTableResult(vulnerabilities);
    FooterTotal(vulnerabilities, order, rows, total);
    status := 200;
  }
}
