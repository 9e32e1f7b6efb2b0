/** The crawl-extract-cache engine of internal/crawler/crawler.go: recovery
    of version-range text from change-history cells, search pagination, the
    cache-aside scrape of one detail page and the scrape of all links. The
    web is an oracle (`Web`), the cache a `Redis.Client`. */
module Crawler {
  import opened Common
  import opened GoStrings
  import Json
  import Redis

  /** The record scraped for one vulnerability. Go's nil slice and empty
      slice are both the empty sequence. */
  datatype Vulnerability = Vulnerability(
    name: string,
    cveId: string,
    publishedDate: string,
    lastModified: string,
    description: string,
    vulnerableVersions: seq<string>,
    nvdScore: string,
    cnaScore: string)

  /** Go's zero value of the record. */
  const Blank := Vulnerability("", "", "", "", "", [], "", "")

  // =====================================================================
  // Version ranges from one change-history cell
  // =====================================================================

  const Cpe := "*cpe"
  const VersionsWord := "versions"
  const Newline := "\n"

  /** Each piece with `sep` put back in front of it. */
  function Prefixed(parts: seq<string>, sep: string): (r: seq<string>)
    ensures |r| == |parts|
    ensures forall i :: 0 <= i < |parts| ==> r[i] == sep + parts[i]
  {
    seq(|parts|, i requires 0 <= i < |parts| => sep + parts[i])
  }

  /** The value `splitBeforeSeparator` computes: the pieces of `Split`, every
      piece after the first with the separator put back in front. */
  function SplitBefore(input: string, sep: string): seq<string>
    requires sep != []
  {
    var parts := Split(input, sep);
    [parts[0]] + Prefixed(parts[1..], sep)
  }

  /** `splitBeforeSeparator`: splits `input` just before each occurrence of
      `separator`. */
  method SplitBeforeSeparator(input: string, separator: string) returns (result: seq<string>)
    requires separator != []
    ensures result == SplitBefore(input, separator)
  {
    var parts := Split(input, separator);
    result := [];
    for i := 0 to |parts|
      invariant |result| == i
      invariant i > 0 ==> result[0] == parts[0]
      invariant forall k :: 1 <= k < i ==> result[k] == separator + parts[k]
    {
      var part := parts[i];
      if i > 0 {
        part := separator + part;
      }
      result := result + [part];
    }
    assert result == [parts[0]] + Prefixed(parts[1..], separator);
  }

  lemma SplitBeforeConcat(input: string, sep: string)
    requires sep != []
    ensures Concat(SplitBefore(input, sep)) == input
  {
    var parts := Split(input, sep);
    SplitJoin(input, sep);
    var r := SplitBefore(input, sep);
    if |parts| > 1 {
      ConcatPrefixed(parts[1..], sep);
      assert Prefixed(parts[1..], sep) == seq(|parts[1..]|, i requires 0 <= i < |parts[1..]| => sep + parts[1..][i]);
      assert r[1..] == Prefixed(parts[1..], sep);
      assert Concat(r) == parts[0] + Concat(r[1..]);
    } else {
      assert r == [parts[0]];
    }
  }

  lemma SplitBeforePieces(input: string, sep: string)
    requires sep != []
    ensures var r := SplitBefore(input, sep);
      && !Contains(r[0], sep)
      && (forall i :: 1 <= i < |r| ==> sep <= r[i] && !Contains(r[i][|sep|..], sep))
  {
    var parts := Split(input, sep);
    var r := SplitBefore(input, sep);
    SplitPiecesFree(input, sep);
    forall i | 1 <= i < |r|
      ensures sep <= r[i] && !Contains(r[i][|sep|..], sep)
    {
      assert r[i] == sep + parts[i];
      assert r[i][|sep|..] == parts[i];
    }
  }

  /** The four guarantees of `splitBeforeSeparator`: the pieces concatenate
      back to the input, the first piece holds no separator, every later
      piece starts with the separator and holds no other, and there is one
      piece more than there are occurrences of the separator. */
  lemma SplitBeforeProperties(input: string, sep: string)
    requires sep != []
    ensures var r := SplitBefore(input, sep);
      && Concat(r) == input
      && !Contains(r[0], sep)
      && (forall i :: 1 <= i < |r| ==> sep <= r[i] && !Contains(r[i][|sep|..], sep))
      && |r| == Count(input, sep) + 1
  {
    SplitBeforeConcat(input, sep);
    SplitBeforePieces(input, sep);
    SplitCount(input, sep);
  }

  /** A fragment that contributes an entry: it starts with `*cpe` and
      mentions `versions`. */
  predicate Qualifies(fragment: string) {
    Cpe <= fragment && Contains(fragment, VersionsWord)
  }

  /** The entry a qualifying fragment contributes: the part from its first
      `versions` on, trimmed, and when it is the cell's last fragment cut
      at its first newline. */
  function EntryOf(fragment: string, isLast: bool): string
    requires Contains(fragment, VersionsWord)
  {
    var arr := SplitBefore(fragment, VersionsWord);
    var str := TrimSpace(arr[1]);
    if isLast then Split(str, Newline)[0] else str
  }

  /** `EntryOf` made total: a fragment without `versions` has no entry,
      and is never asked for one. */
  function Entry(fragment: string, isLast: bool): string
  {
    if Contains(fragment, VersionsWord) then EntryOf(fragment, isLast) else []
  }

  /** The entries contributed by the first `n` fragments of a cell, where
      `entry` gives the entry of a qualifying fragment (and, for the cell,
      is `Entry`). The counting and ordering lemmas below hold for any
      `entry`. */
  function EntriesOf(fragments: seq<string>, n: nat, entry: (string, bool) -> string): seq<string>
    requires n <= |fragments|
  {
    if n == 0 then []
    else
      EntriesOf(fragments, n - 1, entry)
        + (if Qualifies(fragments[n - 1]) then [entry(fragments[n - 1], n - 1 == |fragments| - 1)] else [])
  }

  /** The version-range texts recovered from one cell. */
  function VersionRanges(text: string): seq<string>
  {
    var fragments := SplitBefore(text, Cpe);
    EntriesOf(fragments, |fragments|, Entry)
  }

  /** `extractVulnerableVersions`: appends the version ranges of
      `elementText` to the slice behind the `result` pointer (here passed
      in and returned). Entries already present are kept as they are. */
  method ExtractVulnerableVersions(elementText: string, result: seq<string>) returns (updated: seq<string>)
    ensures updated == result + VersionRanges(elementText)
  {
    var strSlice := SplitBeforeSeparator(elementText, Cpe);
    updated := result;
    for index := 0 to |strSlice|
      invariant updated == result + EntriesOf(strSlice, index, Entry)
    {
      var added := FragmentEntry(strSlice[index], index == |strSlice| - 1);
      updated := updated + added;
    }
  }

  /** One pass of the loop of `extractVulnerableVersions`: what the
      fragment `str` appends. */
  method FragmentEntry(str: string, isLast: bool) returns (added: seq<string>)
    ensures added == if Qualifies(str) then [EntryOf(str, isLast)] else []
  {
    added := [];
    if Cpe <= str {
      if Contains(str, VersionsWord) {
        var arr := SplitBeforeSeparator(str, VersionsWord);
        var entry := TrimSpace(arr[1]);
        if isLast {
          var s := Split(entry, Newline);
          entry := s[0];
        }
        added := [entry];
      }
    }
  }

  /** How many of the first `n` fragments qualify. */
  function QualifyingBefore(fragments: seq<string>, n: nat): nat
    requires n <= |fragments|
  {
    if n == 0 then 0 else QualifyingBefore(fragments, n - 1) + (if Qualifies(fragments[n - 1]) then 1 else 0)
  }

  /** One entry per qualifying fragment. */
  lemma {:induction false} EntriesCount(fragments: seq<string>, n: nat, entry: (string, bool) -> string)
    requires n <= |fragments|
    ensures |EntriesOf(fragments, n, entry)| == QualifyingBefore(fragments, n)
    decreases n
  {
    if n > 0 {
      EntriesCount(fragments, n - 1, entry);
    }
  }

  /** The entries follow fragment order: the entry of qualifying fragment
      `i` sits at the number of qualifying fragments before it. */
  lemma EntryPosition(fragments: seq<string>, i: nat, n: nat, entry: (string, bool) -> string)
    requires i < n <= |fragments| && Qualifies(fragments[i])
    ensures QualifyingBefore(fragments, i) < |EntriesOf(fragments, n, entry)|
    ensures EntriesOf(fragments, n, entry)[QualifyingBefore(fragments, i)] == entry(fragments[i], i == |fragments| - 1)
  {
    EntryAdded(fragments, i, entry);
    EntryStays(fragments, i, n, entry);
  }

  /** What the extraction has gathered after fragment `i` stays in place. */
  lemma {:induction false} EntryStays(fragments: seq<string>, i: nat, n: nat, entry: (string, bool) -> string)
    requires i < n <= |fragments| && Qualifies(fragments[i])
    requires QualifyingBefore(fragments, i) < |EntriesOf(fragments, i + 1, entry)|
    ensures QualifyingBefore(fragments, i) < |EntriesOf(fragments, n, entry)|
    ensures EntriesOf(fragments, n, entry)[QualifyingBefore(fragments, i)] == EntriesOf(fragments, i + 1, entry)[QualifyingBefore(fragments, i)]
    decreases n
  {
    if i < n - 1 {
      EntryStays(fragments, i, n - 1, entry);
      EntriesAppend(fragments, n, entry);
      PrefixIndex(EntriesOf(fragments, n - 1, entry), EntriesOf(fragments, n, entry), QualifyingBefore(fragments, i));
    }
  }

  lemma EntryAdded(fragments: seq<string>, i: nat, entry: (string, bool) -> string)
    requires i < |fragments| && Qualifies(fragments[i])
    ensures QualifyingBefore(fragments, i) < |EntriesOf(fragments, i + 1, entry)|
    ensures EntriesOf(fragments, i + 1, entry)[QualifyingBefore(fragments, i)] == entry(fragments[i], i == |fragments| - 1)
  {
    EntriesCount(fragments, i, entry);
    EntriesStep(fragments, i, entry);
    SnocLast(EntriesOf(fragments, i, entry), entry(fragments[i], i == |fragments| - 1));
  }

  /** The entries after fragment `i`, when it qualifies. */
  lemma EntriesStep(fragments: seq<string>, i: nat, entry: (string, bool) -> string)
    requires i < |fragments| && Qualifies(fragments[i])
    ensures EntriesOf(fragments, i + 1, entry) == EntriesOf(fragments, i, entry) + [entry(fragments[i], i == |fragments| - 1)]
  {
  }

  lemma PrefixIndex(a: seq<string>, b: seq<string>, q: nat)
    requires |a| <= |b| && b[..|a|] == a && q < |a|
    ensures b[q] == a[q]
  {
    assert b[..|a|][q] == b[q];
  }

  lemma SnocLast(s: seq<string>, e: string)
    ensures (s + [e])[|s|] == e
  {
  }

  /** A step of the extraction keeps the entries before it. */
  lemma EntriesAppend(fragments: seq<string>, n: nat, entry: (string, bool) -> string)
    requires 0 < n <= |fragments|
    ensures |EntriesOf(fragments, n - 1, entry)| <= |EntriesOf(fragments, n, entry)|
    ensures EntriesOf(fragments, n, entry)[..|EntriesOf(fragments, n - 1, entry)|] == EntriesOf(fragments, n - 1, entry)
  {
  }

  /** One range per qualifying fragment of the cell. */
  lemma RangeCount(text: string)
    ensures var f := SplitBefore(text, Cpe);
      |VersionRanges(text)| == QualifyingBefore(f, |f|)
  {
    var f := SplitBefore(text, Cpe);
    EntriesCount(f, |f|, Entry);
  }

  /** The ranges follow the fragments: the range of qualifying fragment `i`
      is its entry, at the number of qualifying fragments before it. */
  lemma RangePosition(text: string, i: nat)
    requires var f := SplitBefore(text, Cpe); i < |f| && Qualifies(f[i])
    ensures var f := SplitBefore(text, Cpe);
      QualifyingBefore(f, i) < |VersionRanges(text)|
      && VersionRanges(text)[QualifyingBefore(f, i)] == EntryOf(f[i], i == |f| - 1)
  {
    var f := SplitBefore(text, Cpe);
    EntryPosition(f, i, |f|, Entry);
  }

  /** The leading fragment of a cell never starts with `*cpe`, so it adds
      nothing; every later fragment starts with `*cpe` and qualifies exactly
      when it mentions `versions`. */
  lemma FragmentsQualify(text: string)
    ensures var f := SplitBefore(text, Cpe);
      && !Qualifies(f[0])
      && forall i :: 1 <= i < |f| ==> (Qualifies(f[i]) <==> Contains(f[i], VersionsWord))
  {
    SplitBeforeProperties(text, Cpe);
    var f := SplitBefore(text, Cpe);
    if Cpe <= f[0] {
      assert Contains(f[0], Cpe);
    }
  }

  /** What an entry is: with `parts` the pieces of the fragment around
      `versions`, the fragment opens with the first piece, `versions` and the
      second piece, neither piece mentions `versions`, and the entry is
      `versions` followed by the second piece with trailing space trimmed;
      the last fragment's entry is further cut at the first newline. */
  lemma EntryText(fragment: string)
    requires Contains(fragment, VersionsWord)
    ensures var parts := Split(fragment, VersionsWord);
      && |parts| >= 2
      && parts[0] + VersionsWord + parts[1] <= fragment
      && !Contains(parts[0], VersionsWord) && !Contains(parts[1], VersionsWord)
      && EntryOf(fragment, false) == VersionsWord + TrimRight(parts[1])
      && EntryOf(fragment, true) == VersionsWord + Split(TrimRight(parts[1]), Newline)[0]
  {
    EntryPieces(fragment);
    EntryValue(fragment);
  }

  lemma EntryPieces(fragment: string)
    requires Contains(fragment, VersionsWord)
    ensures var parts := Split(fragment, VersionsWord);
      && |parts| >= 2
      && parts[0] + VersionsWord + parts[1] <= fragment
      && !Contains(parts[0], VersionsWord) && !Contains(parts[1], VersionsWord)
  {
    var parts := Split(fragment, VersionsWord);
    SplitJoin(fragment, VersionsWord);
    JoinFirstTwo(parts, VersionsWord);
    SplitPiecesFree(fragment, VersionsWord);
  }

  lemma EntryValue(fragment: string)
    requires Contains(fragment, VersionsWord)
    ensures var parts := Split(fragment, VersionsWord);
      && |parts| >= 2
      && EntryOf(fragment, false) == VersionsWord + TrimRight(parts[1])
      && EntryOf(fragment, true) == VersionsWord + Split(TrimRight(parts[1]), Newline)[0]
  {
    var parts := Split(fragment, VersionsWord);
    var arr := SplitBefore(fragment, VersionsWord);
    assert arr[1] == VersionsWord + parts[1];
    var str := TrimSpace(arr[1]);
    assert str == VersionsWord + TrimRight(parts[1]) by {
      TrimSpaceAfter(VersionsWord, parts[1]);
    }
    assert Split(str, Newline)[0] == VersionsWord + Split(TrimRight(parts[1]), Newline)[0] by {
      SplitHeadExtends(VersionsWord, TrimRight(parts[1]), Newline);
    }
  }

  /** Every entry starts with `versions`, and the last fragment's entry
      holds no newline. */
  lemma EntryShape(fragment: string, isLast: bool)
    requires Contains(fragment, VersionsWord)
    ensures VersionsWord <= EntryOf(fragment, isLast)
    ensures isLast ==> '\n' !in EntryOf(fragment, isLast)
  {
    EntryText(fragment);
    if isLast {
      var str := TrimSpace(SplitBefore(fragment, VersionsWord)[1]);
      SplitPiecesFree(str, Newline);
      ContainsChar(Split(str, Newline)[0], '\n');
    }
  }

  lemma {:induction false} EntriesStartWithVersions(fragments: seq<string>, n: nat, entry: (string, bool) -> string)
    requires n <= |fragments|
    requires forall i :: 0 <= i < |fragments| && Qualifies(fragments[i]) ==>
      VersionsWord <= entry(fragments[i], i == |fragments| - 1)
    ensures forall k :: 0 <= k < |EntriesOf(fragments, n, entry)| ==> VersionsWord <= EntriesOf(fragments, n, entry)[k]
    decreases n
  {
    if n > 0 {
      EntriesStartWithVersions(fragments, n - 1, entry);
      var prev := EntriesOf(fragments, n - 1, entry);
      var extra: seq<string> := if Qualifies(fragments[n - 1]) then [entry(fragments[n - 1], n - 1 == |fragments| - 1)] else [];
      assert EntriesOf(fragments, n, entry) == prev + extra;
      forall k | 0 <= k < |prev + extra| ensures VersionsWord <= (prev + extra)[k] {
        if k < |prev| {
          assert (prev + extra)[k] == prev[k];
        }
      }
    }
  }

  /** Every recovered range starts with `versions`. */
  lemma VersionRangesStartWithVersions(text: string)
    ensures forall k :: 0 <= k < |VersionRanges(text)| ==> VersionsWord <= VersionRanges(text)[k]
  {
    var f := SplitBefore(text, Cpe);
    forall i | 0 <= i < |f| && Qualifies(f[i]) ensures VersionsWord <= Entry(f[i], i == |f| - 1) {
      EntryShape(f[i], i == |f| - 1);
    }
    EntriesStartWithVersions(f, |f|, Entry);
  }

  /** When the cell's last fragment contributes, its entry ends the result
      and holds no newline. */
  lemma LastRangeOneLine(text: string)
    ensures var f := SplitBefore(text, Cpe);
      Qualifies(f[|f| - 1]) ==>
        VersionRanges(text) != []
        && '\n' !in VersionRanges(text)[|VersionRanges(text)| - 1]
  {
    var f := SplitBefore(text, Cpe);
    if Qualifies(f[|f| - 1]) {
      EntryShape(f[|f| - 1], true);
    }
  }

  /** A cell without `versions` yields nothing. */
  lemma {:induction false} NoVersionsNoRanges(fragments: seq<string>, n: nat, entry: (string, bool) -> string)
    requires n <= |fragments|
    requires forall i :: 0 <= i < |fragments| ==> !Contains(fragments[i], VersionsWord)
    ensures EntriesOf(fragments, n, entry) == []
    decreases n
  {
    if n > 0 {
      NoVersionsNoRanges(fragments, n - 1, entry);
    }
  }

  /** A cell with two CPE lines that each end in a range, followed by a
      trailer: the two ranges come back, each with the word `versions`
      kept, and the trailer is cut off the last one. */
  lemma TwoRangeCell(x1: string, r1: string, x2: string, r2: string, t: string)
    requires '*' !in x1 && '*' !in r1 && '*' !in x2 && '*' !in r2 && '*' !in t
    requires 'v' !in x1 && 'v' !in r1 && 'v' !in x2 && 'v' !in r2 && 'v' !in t
    requires r1 != [] && !IsSpace(r1[|r1| - 1])
    requires '\n' !in r2 && t != [] && !IsSpace(t[|t| - 1])
    ensures VersionRanges(Cpe + x1 + VersionsWord + r1 + "\n" + Cpe + x2 + VersionsWord + r2 + "\n" + t)
      == [VersionsWord + r1, VersionsWord + r2]
  {
    var f1 := Cpe + x1 + VersionsWord + r1 + "\n";
    var f2 := Cpe + x2 + VersionsWord + r2 + "\n" + t;
    var text := Cpe + x1 + VersionsWord + r1 + "\n" + Cpe + x2 + VersionsWord + r2 + "\n" + t;
    var a := x1 + VersionsWord + r1 + "\n";
    var b := x2 + VersionsWord + r2 + "\n" + t;
    assert text == [] + Cpe + a + Cpe + b && f1 == Cpe + a && f2 == Cpe + b by {
      CellShape(Cpe, x1, VersionsWord, r1, "\n", x2, r2, t);
    }
    CellFragments(a, b);
    var f := SplitBefore(text, Cpe);
    assert f == [[], f1, f2];
    assert |f| == 3 && f[0] == [] && f[1] == f1 && f[2] == f2;
    assert Qualifies(f1) && Entry(f1, false) == VersionsWord + r1 by {
      MiddleEntry(x1, r1);
    }
    assert Qualifies(f2) && Entry(f2, true) == VersionsWord + r2 by {
      FinalEntry(x2, r2, t);
    }
    assert !Qualifies(f[0]) by {
      FragmentsQualify(text);
    }
    ThreeFragments(f, Entry);
  }

  lemma Regroup(a: string, b: string, c: string, d: string)
    ensures a + b + c + d == a + (b + c + d)
  {
  }

  lemma CellShape(p: string, x1: string, v: string, r1: string, n: string, x2: string, r2: string, t: string)
    ensures p + x1 + v + r1 + n + p + x2 + v + r2 + n + t
      == [] + p + (x1 + v + r1 + n) + p + (x2 + v + r2 + n + t)
    ensures p + x1 + v + r1 + n == p + (x1 + v + r1 + n)
    ensures p + x2 + v + r2 + n + t == p + (x2 + v + r2 + n + t)
  {
  }

  /** A cell of an unqualified lead and two qualifying fragments yields
      the entries of the two, in order. */
  lemma ThreeFragments(f: seq<string>, entry: (string, bool) -> string)
    requires |f| == 3 && !Qualifies(f[0]) && Qualifies(f[1]) && Qualifies(f[2])
    ensures EntriesOf(f, |f|, entry) == [entry(f[1], false), entry(f[2], true)]
  {
    assert EntriesOf(f, 1, entry) == [];
    EntriesStep(f, 1, entry);
    EntriesStep(f, 2, entry);
  }

  /** The fragments of a cell with two CPE mentions. */
  lemma CellFragments(a: string, b: string)
    requires '*' !in a && '*' !in b
    ensures SplitBefore([] + Cpe + a + Cpe + b, Cpe) == [[], Cpe + a, Cpe + b]
  {
    SplitFirst([], Cpe, a + Cpe + b);
    assert [] + Cpe + a + Cpe + b == [] + Cpe + (a + Cpe + b);
    SplitFirst(a, Cpe, b);
    ContainsNeedsFirstChar(b, Cpe);
    SplitWithoutSeparator(b, Cpe);
  }

  /** The entry of a CPE line that is not the cell's last fragment. */
  lemma MiddleEntry(x: string, r: string)
    requires '*' !in x && 'v' !in x && 'v' !in r
    requires r != [] && !IsSpace(r[|r| - 1])
    ensures Qualifies(Cpe + x + VersionsWord + r + "\n")
    ensures EntryOf(Cpe + x + VersionsWord + r + "\n", false) == VersionsWord + r
  {
    var f := Cpe + x + VersionsWord + r + "\n";
    var g := r + "\n";
    assert f == (Cpe + x) + VersionsWord + g by {
      Regroup(Cpe + x, VersionsWord, r, "\n");
    }
    SplitFirst(Cpe + x, VersionsWord, g);
    ContainsNeedsFirstChar(g, VersionsWord);
    SplitWithoutSeparator(g, VersionsWord);
    assert |Split(f, VersionsWord)| == 2;
    assert Cpe <= f;
    EntryText(f);
    TrimRightAfter(r, "\n");
    TrimRightSpace('\n');
  }

  /** The entry of a CPE line that is the cell's last fragment and is
      followed by a trailer line. */
  lemma FinalEntry(x: string, r: string, t: string)
    requires '*' !in x && 'v' !in x && 'v' !in r && 'v' !in t
    requires '\n' !in r && t != [] && !IsSpace(t[|t| - 1])
    ensures Qualifies(Cpe + x + VersionsWord + r + "\n" + t)
    ensures EntryOf(Cpe + x + VersionsWord + r + "\n" + t, true) == VersionsWord + r
  {
    var f := Cpe + x + VersionsWord + r + "\n" + t;
    var g := r + "\n" + t;
    FinalSplit(x, r, t);
    assert Cpe <= f;
    assert SplitBefore(f, VersionsWord)[1] == VersionsWord + g;
    TrimSpaceAfter(VersionsWord, g);
    TrimRightAfter(g, []);
    assert g + [] == g;
    assert VersionsWord + g == (VersionsWord + r) + Newline + t;
    SplitFirst(VersionsWord + r, Newline, t);
  }

  lemma FinalSplit(x: string, r: string, t: string)
    requires '*' !in x && 'v' !in x && 'v' !in r && 'v' !in t
    ensures Split(Cpe + x + VersionsWord + r + "\n" + t, VersionsWord) == [Cpe + x, r + "\n" + t]
  {
    var f := Cpe + x + VersionsWord + r + "\n" + t;
    var a := Cpe + x;
    var g := r + "\n" + t;
    assert f == a + VersionsWord + g by {
      Regroup(Cpe + x + VersionsWord, r, "\n", t);
    }
    assert VersionsWord[0] !in a && VersionsWord[0] !in g;
    ContainsNeedsFirstChar(g, VersionsWord);
    SplitTwo(a, VersionsWord, g);
  }

  /** The example cell `*cpe:something versions 1.0-2.0\n*cpe:other
      versions 3.0-4.0\ntrailer`, written piece by piece: it yields
      `versions 1.0-2.0` and `versions 3.0-4.0`. */
  lemma WorkedExample()
    ensures VersionRanges(Cpe + ":something " + VersionsWord + " 1.0-2.0" + "\n"
                          + Cpe + ":other " + VersionsWord + " 3.0-4.0" + "\n" + "trailer")
      == [VersionsWord + " 1.0-2.0", VersionsWord + " 3.0-4.0"]
  {
    TwoRangeCell(":something ", " 1.0-2.0", ":other ", " 3.0-4.0", "trailer");
  }

  // =====================================================================
  // Links: the search URL, pagination and the cache key
  // =====================================================================

  /** Results per search page; the offset grows by this much per page. */
  const PageSize := 20
  /** Hours a cached record is kept. */
  const CacheTtlHours := 72

  const SearchPrefix := "https://nvd.nist.gov/vuln/search/results?form_type=Basic&results_type=overview&query="
  const SearchSuffix := "&queryType=phrase&search_type=all"
  const DetailBase := "https://nvd.nist.gov/vuln/detail"

  /** `generateLink`: the search URL with its fixed parameters and the
      query interpolated as it is, without escaping. */
  function GenerateLink(query: string): (link: string)
    ensures |link| == |SearchPrefix| + |query| + |SearchSuffix|
    ensures link[..|SearchPrefix|] == SearchPrefix && link[|link| - |SearchSuffix|..] == SearchSuffix
    ensures link[|SearchPrefix|..|link| - |SearchSuffix|] == query
  {
    SearchPrefix + query + SearchSuffix
  }

  /** The URL of the search page starting at result `offset`. */
  function PageLink(query: string, offset: nat): string
  {
    GenerateLink(query) + "&startIndex=" + Itoa(offset)
  }

  /** The URL of a detail page, from the text of its anchor. */
  function DetailLink(anchor: string): string
  {
    DetailBase + "/" + anchor
  }

  /** Different queries give different search URLs. */
  lemma GenerateLinkInjective(q1: string, q2: string)
    ensures GenerateLink(q1) == GenerateLink(q2) ==> q1 == q2
  {
  }

  /** Different offsets give different page URLs. */
  lemma PageLinkInjective(query: string, o1: nat, o2: nat)
    ensures PageLink(query, o1) == PageLink(query, o2) ==> o1 == o2
  {
    if PageLink(query, o1) == PageLink(query, o2) {
      var n := |GenerateLink(query) + "&startIndex="|;
      assert Itoa(o1) == PageLink(query, o1)[n..];
      assert Itoa(o2) == PageLink(query, o2)[n..];
      ItoaRoundTrip(o1);
      ItoaRoundTrip(o2);
    }
  }

  /** The oracle standing for the network. `search` gives the anchor texts
      of the `tr th strong` cells of a result page (none when the visit
      fails), `detail` what the selectors of a detail page match (`None`
      when the visit fails), and `raw` the outcome of the plain GET of a
      detail page. */
  datatype Web = Web(
    search: string -> seq<string>,
    detail: string -> Option<DetailPage>,
    raw: string -> RawPage)

  /** The text of the last element each selector of a detail page matches,
      or `None` when none does. */
  datatype DetailPage = DetailPage(
    descriptionThird: Option<string>,   // div.col-lg-9:nth-child(1) > p:nth-child(3)
    descriptionSecond: Option<string>,  // div.col-lg-9:nth-child(1) > p:nth-child(2)
    calloutLinks: Option<string>,       // the `a` texts of div.bs-callout:nth-child(1)
    published: Option<string>,          // div.bs-callout:nth-child(1) > span:nth-child(8)
    lastModified: Option<string>,       // div.bs-callout:nth-child(1) > span:nth-child(12)
    nvdScore: Option<string>,           // #Cvss3NistCalculatorAnchor
    cnaScore: Option<string>)           // #Cvss3CnaCalculatorAnchor

  /** The plain GET of a detail page: a transport error, or a status and,
      when the body parses as HTML, the texts of its
      `td[data-testid*='vuln-change-history']` cells in document order. */
  datatype RawPage =
    | GetFailed(error: string)
    | Fetched(status: nat, statusText: string, cells: Option<seq<string>>)

  /** The detail links of one result page, in page order. */
  function LinksOnPage(anchors: seq<string>): (links: seq<string>)
    ensures |links| == |anchors|
    ensures forall i :: 0 <= i < |anchors| ==> links[i] == DetailLink(anchors[i])
  {
    if anchors == [] then [] else LinksOnPage(anchors[..|anchors| - 1]) + [DetailLink(anchors[|anchors| - 1])]
  }

  /** The anchors of search page `k`, the one starting at result `20 * k`. */
  function PageAnchors(web: Web, query: string, k: nat): seq<string>
  {
    web.search(PageLink(query, PageSize * k))
  }

  /** The links of the first `n` search pages, in page order. */
  function LinksOfPages(web: Web, query: string, n: nat): seq<string>
  {
    if n == 0 then [] else LinksOfPages(web, query, n - 1) + LinksOnPage(PageAnchors(web, query, n - 1))
  }

  /** Pages `0 .. n - 1` are non-empty and page `n` is empty. */
  ghost predicate StopsAt(web: Web, query: string, n: nat) {
    && (forall k :: 0 <= k < n ==> PageAnchors(web, query, k) != [])
    && PageAnchors(web, query, n) == []
  }

  /** Partway through the pagination: pages `0 .. pages - 1` were
      non-empty, their links gathered and their URLs requested in order. */
  ghost predicate Paged(web: Web, query: string, pages: nat, links: seq<string>, requested: seq<string>)
  {
    && (forall k :: 0 <= k < pages ==> PageAnchors(web, query, k) != [])
    && links == LinksOfPages(web, query, pages)
    && |requested| == pages
    && (forall k :: 0 <= k < pages ==> requested[k] == PageLink(query, PageSize * k))
  }

  lemma PagedStep(web: Web, query: string, pages: nat, links: seq<string>, requested: seq<string>)
    requires Paged(web, query, pages, links, requested)
    requires PageAnchors(web, query, pages) != []
    ensures Paged(web, query, pages + 1, links + LinksOnPage(PageAnchors(web, query, pages)),
                  requested + [PageLink(query, PageSize * pages)])
  {
    var requested' := requested + [PageLink(query, PageSize * pages)];
    forall k | 0 <= k < pages + 1 ensures requested'[k] == PageLink(query, PageSize * k) {
      if k < pages {
        assert requested'[k] == requested[k];
      }
    }
  }

  lemma PagedStop(web: Web, query: string, pages: nat, links: seq<string>, requested: seq<string>)
    requires Paged(web, query, pages, links, requested)
    requires PageAnchors(web, query, pages) == []
    ensures StopsAt(web, query, pages)
    ensures links == LinksOfPages(web, query, pages)
    ensures var requested' := requested + [PageLink(query, PageSize * pages)];
      && |requested'| == pages + 1
      && forall k :: 0 <= k < |requested'| ==> requested'[k] == PageLink(query, PageSize * k)
  {
    var requested' := requested + [PageLink(query, PageSize * pages)];
    forall k | 0 <= k < pages + 1 ensures requested'[k] == PageLink(query, PageSize * k) {
      if k < pages {
        assert requested'[k] == requested[k];
      }
    }
  }

  /** The pagination stops at the first empty page, whatever follows it. */
  lemma StopsAtFirstEmpty(web: Web, query: string, n: nat, m: nat)
    requires StopsAt(web, query, n) && StopsAt(web, query, m)
    ensures n == m
  {
  }

  /** Two full pages and then an empty one: forty links from the requests
      at offsets 0, 20 and 40. */
  lemma TwoFullPages(web: Web, query: string)
    requires |PageAnchors(web, query, 0)| == 20 && |PageAnchors(web, query, 1)| == 20
    requires PageAnchors(web, query, 2) == []
    ensures StopsAt(web, query, 2)
    ensures |LinksOfPages(web, query, 2)| == 40
  {
    assert LinksOfPages(web, query, 1) == LinksOnPage(PageAnchors(web, query, 0));
  }

  /** Every discovered link is a detail link. */
  lemma {:induction false} LinksAreDetailLinks(web: Web, query: string, n: nat)
    ensures forall i :: 0 <= i < |LinksOfPages(web, query, n)| ==> DetailBase + "/" <= LinksOfPages(web, query, n)[i]
  {
    if n > 0 {
      LinksAreDetailLinks(web, query, n - 1);
      var before := LinksOfPages(web, query, n - 1);
      var page := LinksOnPage(PageAnchors(web, query, n - 1));
      assert LinksOfPages(web, query, n) == before + page;
      forall i | 0 <= i < |before + page|
        ensures DetailBase + "/" <= (before + page)[i]
      {
        if i < |before| {
          assert (before + page)[i] == before[i];
        } else {
          assert (before + page)[i] == page[i - |before|];
        }
      }
    }
  }

  /** The cache key of a link: the text after its last `/`. It holds no
      `/`, ends the link, and is the whole link or preceded by `/`. */
  function CacheKey(link: string): (key: string)
    ensures '/' !in key
    ensures |key| <= |link| && key == link[|link| - |key|..]
    ensures |key| < |link| ==> link[|link| - |key| - 1] == '/'
  {
    LastPiece(link, '/');
    var parts := Split(link, "/");
    parts[|parts| - 1]
  }

  /** After a `/`, a slash-free tail is the cache key. */
  lemma CacheKeyAfterSlash(prefix: string, tail: string)
    requires '/' !in tail
    ensures CacheKey(prefix + "/" + tail) == tail
  {
    var link := prefix + "/" + tail;
    var key := CacheKey(link);
    assert link[|link| - |tail| - 1] == '/';
    assert link[|link| - |tail|..] == tail;
  }

  /** For a link built from a detail anchor without `/`, the cache key is
      the anchor text itself. */
  lemma CacheKeyOfDetailLink(anchor: string)
    requires '/' !in anchor
    ensures CacheKey(DetailLink(anchor)) == anchor
  {
    CacheKeyAfterSlash(DetailBase, anchor);
  }

  // =====================================================================
  // The cached form of a record
  // =====================================================================

  /** `json.Marshal` of a record: its members in declaration order under
      their JSON tags. */
  function Marshal(v: Vulnerability): string
  {
    "{" + Json.StringMember("name", v.name,
    "," + Json.StringMember("CVEID", v.cveId,
    "," + Json.StringMember("publishDate", v.publishedDate,
    "," + Json.StringMember("lastModified", v.lastModified,
    "," + Json.StringMember("description", v.description,
    "," + Json.ArrayMember("vulnerableVersions", v.vulnerableVersions,
    "," + Json.StringMember("NVDScore", v.nvdScore,
    "," + Json.StringMember("CNAScore", v.cnaScore, "}"))))))))
  }

  /** `json.Unmarshal` of the layout `Marshal` writes; anything else fails. */
  function Unmarshal(s: string): Option<Vulnerability>
  {
    var s0 :- Json.Expect("{", s);
    var name :- Json.ReadStringMember("name", s0);
    var s1 :- Json.Expect(",", name.1);
    var id :- Json.ReadStringMember("CVEID", s1);
    var s2 :- Json.Expect(",", id.1);
    var published :- Json.ReadStringMember("publishDate", s2);
    var s3 :- Json.Expect(",", published.1);
    var modified :- Json.ReadStringMember("lastModified", s3);
    var s4 :- Json.Expect(",", modified.1);
    var description :- Json.ReadStringMember("description", s4);
    var s5 :- Json.Expect(",", description.1);
    var versions :- Json.ReadArrayMember("vulnerableVersions", s5);
    var s6 :- Json.Expect(",", versions.1);
    var nvd :- Json.ReadStringMember("NVDScore", s6);
    var s7 :- Json.Expect(",", nvd.1);
    var cna :- Json.ReadStringMember("CNAScore", s7);
    var end :- Json.Expect("}", cna.1);
    if end == [] then
      Some(Vulnerability(name.0, id.0, published.0, modified.0, description.0, versions.0, nvd.0, cna.0))
    else None
  }

  /** A cached record decodes to the record that was stored. */
  lemma UnmarshalMarshal(v: Vulnerability)
    ensures Unmarshal(Marshal(v)) == Some(v)
  {
    var t8 := "}";
    var t7 := "," + Json.StringMember("CNAScore", v.cnaScore, t8);
    var t6 := "," + Json.StringMember("NVDScore", v.nvdScore, t7);
    var t5 := "," + Json.ArrayMember("vulnerableVersions", v.vulnerableVersions, t6);
    var t4 := "," + Json.StringMember("description", v.description, t5);
    var t3 := "," + Json.StringMember("lastModified", v.lastModified, t4);
    var t2 := "," + Json.StringMember("publishDate", v.publishedDate, t3);
    var t1 := "," + Json.StringMember("CVEID", v.cveId, t2);
    Json.ExpectPrefix("{", Json.StringMember("name", v.name, t1));
    Json.ReadStringMemberRoundTrip("name", v.name, t1);
    Json.ExpectPrefix(",", Json.StringMember("CVEID", v.cveId, t2));
    Json.ReadStringMemberRoundTrip("CVEID", v.cveId, t2);
    Json.ExpectPrefix(",", Json.StringMember("publishDate", v.publishedDate, t3));
    Json.ReadStringMemberRoundTrip("publishDate", v.publishedDate, t3);
    Json.ExpectPrefix(",", Json.StringMember("lastModified", v.lastModified, t4));
    Json.ReadStringMemberRoundTrip("lastModified", v.lastModified, t4);
    Json.ExpectPrefix(",", Json.StringMember("description", v.description, t5));
    Json.ReadStringMemberRoundTrip("description", v.description, t5);
    Json.ExpectPrefix(",", Json.ArrayMember("vulnerableVersions", v.vulnerableVersions, t6));
    Json.ReadArrayMemberRoundTrip("vulnerableVersions", v.vulnerableVersions, t6);
    Json.ExpectPrefix(",", Json.StringMember("NVDScore", v.nvdScore, t7));
    Json.ReadStringMemberRoundTrip("NVDScore", v.nvdScore, t7);
    Json.ExpectPrefix(",", Json.StringMember("CNAScore", v.cnaScore, t8));
    Json.ReadStringMemberRoundTrip("CNAScore", v.cnaScore, t8);
    Json.ExpectPrefix("}", []);
    assert "}" + [] == "}";
  }

  // =====================================================================
  // Scraping one detail page
  // =====================================================================

  /** The record the `OnHTML` callbacks leave on a visited page: for each
      field, the text of the last registered rule that matched, so the
      `p:nth-child(2)` description is kept over the `p:nth-child(3)` one;
      a field no rule matched is empty, and so are the name and the
      versions, which only the `OnScraped` callback sets. */
  function HtmlFields(p: DetailPage): Vulnerability
  {
    Vulnerability(
      name := "",
      cveId := p.calloutLinks.GetOr(""),
      publishedDate := p.published.GetOr(""),
      lastModified := p.lastModified.GetOr(""),
      description := p.descriptionSecond.GetOr(p.descriptionThird.GetOr("")),
      vulnerableVersions := [],
      nvdScore := p.nvdScore.GetOr(""),
      cnaScore := p.cnaScore.GetOr(""))
  }

  /** The versions gathered from the change-history cells that mention
      `*cpe`, in document order. */
  function CellVersions(cells: seq<string>): seq<string>
  {
    if cells == [] then []
    else
      var last := cells[|cells| - 1];
      CellVersions(cells[..|cells| - 1]) + (if Contains(last, Cpe) then VersionRanges(last) else [])
  }

  /** The message `log.Fatalf` prints for a status other than 200. */
  function StatusError(status: nat, statusText: string): string
  {
    "status code error: " + Itoa(status) + " " + statusText
  }

  /** The `OnScraped` callback: the plain GET of the page, which ends the
      process on a transport error or a status other than 200, and then,
      when the body parses, sets the name and the vulnerable versions. */
  function AfterScrape(query: string, raw: RawPage, v: Vulnerability): Run<Vulnerability>
  {
    match raw
    case GetFailed(e) => Terminated(e)
    case Fetched(status, statusText, cells) =>
      if status != 200 then Terminated(StatusError(status, statusText))
      else if cells.None? then Completed(v)
      else Completed(v.(name := query, vulnerableVersions := CellVersions(cells.value)))
  }

  /** The record a visit of the detail page produces. A failed visit runs
      no callback and leaves the zero record. */
  function ScrapedRecord(query: string, page: Option<DetailPage>, raw: RawPage): Run<Vulnerability>
  {
    match page
    case None => Completed(Blank)
    case Some(p) => AfterScrape(query, raw, HtmlFields(p))
  }

  /** What one call of `scrapeVulnerabilityDetails` returns, the cache it
      leaves and the URLs it requests. */
  datatype ScrapeStep = ScrapeStep(outcome: Run<Vulnerability>, entries: map<string, Redis.Entry>, visits: seq<string>)

  /** Cache-aside scrape of one detail link: a cached record is decoded and
      returned; otherwise the page is scraped and the record stored under
      the link's key with a 72-hour lifetime. */
  function Scrape(web: Web, query: string, link: string, entries: map<string, Redis.Entry>, reachable: bool): ScrapeStep
  {
    var key := CacheKey(link);
    match Redis.Lookup(entries, reachable, key)
    case Some(cached) => ScrapeStep(Completed(Unmarshal(cached).GetOr(Blank)), entries, [])
    case None =>
      var page := web.detail(link);
      var visits := if page.Some? then [link, link] else [link];
      match ScrapedRecord(query, page, web.raw(link))
      case Terminated(reason) => ScrapeStep(Terminated(reason), entries, visits)
      case Completed(v) =>
        ScrapeStep(Completed(v), Redis.Stored(entries, reachable, key, Redis.Entry(Marshal(v), CacheTtlHours)), visits)
  }

  /** The outcomes of a visit: a failed visit gives the zero record; a
      transport error or a status other than 200 ends the process; a body
      that does not parse leaves the name and versions empty; otherwise the
      name is the query and the versions those of the change-history
      cells. */
  lemma ScrapedRecordOutcomes(query: string, page: Option<DetailPage>, raw: RawPage)
    ensures page.None? ==> ScrapedRecord(query, page, raw) == Completed(Blank)
    ensures page.Some? ==>
      (ScrapedRecord(query, page, raw).Terminated? <==> (raw.GetFailed? || raw.status != 200))
    ensures page.Some? && raw.Fetched? && raw.status == 200 ==>
      var v := ScrapedRecord(query, page, raw).value;
      && (raw.cells.None? ==> v == HtmlFields(page.value))
      && (raw.cells.Some? ==> v == HtmlFields(page.value).(name := query, vulnerableVersions := CellVersions(raw.cells.value)))
  {
  }

  /** Every gathered version range starts with `versions`. */
  lemma {:induction false} CellVersionsStartWithVersions(cells: seq<string>)
    ensures forall i :: 0 <= i < |CellVersions(cells)| ==> VersionsWord <= CellVersions(cells)[i]
    decreases |cells|
  {
    if cells != [] {
      var last := cells[|cells| - 1];
      var before := CellVersions(cells[..|cells| - 1]);
      var extra := if Contains(last, Cpe) then VersionRanges(last) else [];
      CellVersionsStartWithVersions(cells[..|cells| - 1]);
      VersionRangesStartWithVersions(last);
      assert CellVersions(cells) == before + extra;
      forall i | 0 <= i < |before + extra|
        ensures VersionsWord <= (before + extra)[i]
      {
        if i < |before| {
          assert (before + extra)[i] == before[i];
        } else {
          assert (before + extra)[i] == extra[i - |before|];
          assert extra[i - |before|] in extra;
        }
      }
    }
  }

  /** A hit returns the decoded cached record, whatever the query, with no
      request and no write. */
  lemma CacheHit(web: Web, query: string, link: string, entries: map<string, Redis.Entry>, reachable: bool)
    requires reachable && CacheKey(link) in entries
    ensures var s := Scrape(web, query, link, entries, reachable);
      && s.outcome == Completed(Unmarshal(entries[CacheKey(link)].value).GetOr(Blank))
      && s.entries == entries
      && s.visits == []
    ensures forall other: string :: Scrape(web, other, link, entries, reachable) == Scrape(web, query, link, entries, reachable)
  {
  }

  /** A miss (an absent key or an unreachable server) scrapes the page,
      which is requested first. The record is stored under the link's key
      alone, marshalled so that it decodes back, with a 72-hour lifetime;
      no other key changes, and an abort writes nothing. */
  lemma CacheMiss(web: Web, query: string, link: string, entries: map<string, Redis.Entry>, reachable: bool)
    requires !(reachable && CacheKey(link) in entries)
    ensures var s := Scrape(web, query, link, entries, reachable);
      && s.outcome == ScrapedRecord(query, web.detail(link), web.raw(link))
      && s.visits != [] && s.visits[0] == link
      && (forall k :: k != CacheKey(link) ==> (k in s.entries <==> k in entries))
      && (forall k :: k != CacheKey(link) && k in entries ==> s.entries[k] == entries[k])
      && (s.outcome.Terminated? || !reachable ==> s.entries == entries)
      && (s.outcome.Completed? && reachable ==>
            CacheKey(link) in s.entries
            && s.entries[CacheKey(link)].ttlHours == CacheTtlHours
            && Unmarshal(s.entries[CacheKey(link)].value) == Some(s.outcome.value))
  {
    MissFrame(web, query, link, entries, reachable);
    MissStore(web, query, link, entries, reachable);
  }

  lemma MissFrame(web: Web, query: string, link: string, entries: map<string, Redis.Entry>, reachable: bool)
    requires !(reachable && CacheKey(link) in entries)
    ensures var s := Scrape(web, query, link, entries, reachable);
      && s.outcome == ScrapedRecord(query, web.detail(link), web.raw(link))
      && s.visits != [] && s.visits[0] == link
      && (forall k :: k != CacheKey(link) ==> (k in s.entries <==> k in entries))
      && (forall k :: k != CacheKey(link) && k in entries ==> s.entries[k] == entries[k])
      && (s.outcome.Terminated? || !reachable ==> s.entries == entries)
  {
  }

  lemma MissStore(web: Web, query: string, link: string, entries: map<string, Redis.Entry>, reachable: bool)
    requires !(reachable && CacheKey(link) in entries)
    ensures var s := Scrape(web, query, link, entries, reachable);
      s.outcome.Completed? && reachable ==>
        CacheKey(link) in s.entries
        && s.entries[CacheKey(link)].ttlHours == CacheTtlHours
        && Unmarshal(s.entries[CacheKey(link)].value) == Some(s.outcome.value)
  {
    var s := Scrape(web, query, link, entries, reachable);
    if s.outcome.Completed? && reachable {
      MissStored(web, query, link, entries);
      UnmarshalMarshal(s.outcome.value);
    }
  }

  lemma MissStored(web: Web, query: string, link: string, entries: map<string, Redis.Entry>)
    requires CacheKey(link) !in entries
    requires Scrape(web, query, link, entries, true).outcome.Completed?
    ensures var s := Scrape(web, query, link, entries, true);
      CacheKey(link) in s.entries && s.entries[CacheKey(link)] == Redis.Entry(Marshal(s.outcome.value), CacheTtlHours)
  {
  }

  /** Scraping a link again once it succeeded returns the same record from
      the cache, with no request and no write, whatever the web and the
      query are by then. */
  lemma ScrapeAgain(web: Web, query: string, link: string, entries: map<string, Redis.Entry>, web': Web, query': string)
    requires Scrape(web, query, link, entries, true).outcome.Completed?
    ensures var s := Scrape(web, query, link, entries, true);
      var again := Scrape(web', query', link, s.entries, true);
      again.outcome == s.outcome && again.entries == s.entries && again.visits == []
  {
    var s := Scrape(web, query, link, entries, true);
    if CacheKey(link) in entries {
      CacheHit(web, query, link, entries, true);
    } else {
      CacheMiss(web, query, link, entries, true);
    }
    CacheHit(web', query', link, s.entries, true);
  }

  // =====================================================================
  // Scraping all links, one after the other
  // =====================================================================

  /** What scraping `links` in order returns, the cache it leaves and the
      URLs it requests; the first abort ends the run. */
  datatype DetailsStep = DetailsStep(outcome: Run<seq<Vulnerability>>, entries: map<string, Redis.Entry>, visits: seq<string>)

  function ScrapeAll(web: Web, query: string, links: seq<string>, entries: map<string, Redis.Entry>, reachable: bool): DetailsStep
    decreases |links|
  {
    if links == [] then DetailsStep(Completed([]), entries, [])
    else
      var before := ScrapeAll(web, query, links[..|links| - 1], entries, reachable);
      if before.outcome.Terminated? then before
      else
        var s := Scrape(web, query, links[|links| - 1], before.entries, reachable);
        match s.outcome
        case Terminated(reason) => DetailsStep(Terminated(reason), s.entries, before.visits + s.visits)
        case Completed(v) => DetailsStep(Completed(before.outcome.value + [v]), s.entries, before.visits + s.visits)
  }

  /** Once a run has aborted, scraping more links changes nothing. */
  lemma {:induction false} AbortIsFinal(web: Web, query: string, links: seq<string>, entries: map<string, Redis.Entry>, reachable: bool, j: nat)
    requires j <= |links|
    requires ScrapeAll(web, query, links[..j], entries, reachable).outcome.Terminated?
    ensures ScrapeAll(web, query, links, entries, reachable) == ScrapeAll(web, query, links[..j], entries, reachable)
    decreases |links|
  {
    if j < |links| {
      var init := links[..|links| - 1];
      assert init[..j] == links[..j];
      AbortIsFinal(web, query, init, entries, reachable, j);
    } else {
      assert links[..j] == links;
    }
  }

  /** A run that completes gives one record per link. */
  lemma {:induction false} OneRecordPerLink(web: Web, query: string, links: seq<string>, entries: map<string, Redis.Entry>, reachable: bool)
    ensures var d := ScrapeAll(web, query, links, entries, reachable);
      d.outcome.Completed? ==> |d.outcome.value| == |links|
    decreases |links|
  {
    if links != [] {
      OneRecordPerLink(web, query, links[..|links| - 1], entries, reachable);
    }
  }

  /** The cache keys of a list of links. */
  function LinkKeys(links: seq<string>): set<string>
  {
    set l | l in links :: CacheKey(l)
  }

  /** A run writes only under the keys of its links. */
  lemma {:induction false} OnlyLinkKeysChange(web: Web, query: string, links: seq<string>, entries: map<string, Redis.Entry>, reachable: bool)
    ensures var d := ScrapeAll(web, query, links, entries, reachable);
      forall k :: k !in LinkKeys(links) ==>
        (k in d.entries <==> k in entries) && (k in entries ==> d.entries[k] == entries[k])
    decreases |links|
  {
    if links != [] {
      var init := links[..|links| - 1];
      var last := links[|links| - 1];
      OnlyLinkKeysChange(web, query, init, entries, reachable);
      var before := ScrapeAll(web, query, init, entries, reachable);
      if !before.outcome.Terminated? {
        var s := Scrape(web, query, last, before.entries, reachable);
        if reachable && CacheKey(last) in before.entries {
          CacheHit(web, query, last, before.entries, reachable);
        } else {
          CacheMiss(web, query, last, before.entries, reachable);
        }
      }
      assert LinkKeys(init) <= LinkKeys(links);
    }
  }

  /** The records scraped straight from the web, in link order, up to the
      first abort. */
  function FreshRecords(web: Web, query: string, links: seq<string>): Run<seq<Vulnerability>>
    decreases |links|
  {
    if links == [] then Completed([])
    else
      var before := FreshRecords(web, query, links[..|links| - 1]);
      if before.Terminated? then before
      else
        var last := links[|links| - 1];
        match ScrapedRecord(query, web.detail(last), web.raw(last))
        case Terminated(reason) => Terminated(reason)
        case Completed(v) => Completed(before.value + [v])
  }

  /** Every cached key of one of the links holds the fresh record of that link. */
  ghost predicate CachedFresh(web: Web, query: string, links: seq<string>, entries: map<string, Redis.Entry>)
  {
    forall l :: l in links && CacheKey(l) in entries ==>
      var r := ScrapedRecord(query, web.detail(l), web.raw(l));
      r.Completed? && Unmarshal(entries[CacheKey(l)].value) == Some(r.value)
  }

  /** Starting from a cache that holds no key of the links, and with links
      of equal key being equal, the run returns exactly the records a
      cache-less scrape of each link would, duplicates included: the cache
      changes the number of requests, never the records. */
  lemma CacheIsTransparent(web: Web, query: string, links: seq<string>, entries: map<string, Redis.Entry>, reachable: bool)
    requires forall l :: l in links ==> CacheKey(l) !in entries
    requires forall l1, l2 :: l1 in links && l2 in links && CacheKey(l1) == CacheKey(l2) ==> l1 == l2
    ensures ScrapeAll(web, query, links, entries, reachable).outcome == FreshRecords(web, query, links)
  {
    TransparentPrefix(web, query, links, |links|, entries, reachable);
    assert links[..|links|] == links;
  }

  lemma {:induction false} TransparentPrefix(web: Web, query: string, links: seq<string>, n: nat,
                                             entries: map<string, Redis.Entry>, reachable: bool)
    requires n <= |links|
    requires forall l :: l in links ==> CacheKey(l) !in entries
    requires forall l1, l2 :: l1 in links && l2 in links && CacheKey(l1) == CacheKey(l2) ==> l1 == l2
    ensures var d := ScrapeAll(web, query, links[..n], entries, reachable);
      && d.outcome == FreshRecords(web, query, links[..n])
      && (reachable ==> CachedFresh(web, query, links, d.entries))
    decreases n
  {
    var prefix := links[..n];
    if n == 0 {
      assert prefix == [];
    } else {
      assert prefix[..n - 1] == links[..n - 1];
      TransparentPrefix(web, query, links, n - 1, entries, reachable);
      var before := ScrapeAll(web, query, links[..n - 1], entries, reachable);
      var last := links[n - 1];
      assert prefix[|prefix| - 1] == last;
      if !before.outcome.Terminated? {
        ScrapeFresh(web, query, links, last, before.entries, reachable);
      }
    }
  }

  /** One scrape of a link of the run, with the cache holding only fresh
      records of the run's links, returns the fresh record and keeps the
      cache that way. */
  lemma ScrapeFresh(web: Web, query: string, links: seq<string>, last: string,
                    entries: map<string, Redis.Entry>, reachable: bool)
    requires last in links
    requires forall l1, l2 :: l1 in links && l2 in links && CacheKey(l1) == CacheKey(l2) ==> l1 == l2
    requires reachable ==> CachedFresh(web, query, links, entries)
    ensures var s := Scrape(web, query, last, entries, reachable);
      && s.outcome == ScrapedRecord(query, web.detail(last), web.raw(last))
      && (reachable ==> CachedFresh(web, query, links, s.entries))
  {
    var s := Scrape(web, query, last, entries, reachable);
    if reachable && CacheKey(last) in entries {
      CacheHit(web, query, last, entries, reachable);
    } else {
      CacheMiss(web, query, last, entries, reachable);
      if reachable {
        forall l | l in links && CacheKey(l) in s.entries
          ensures var r := ScrapedRecord(query, web.detail(l), web.raw(l));
            r.Completed? && Unmarshal(s.entries[CacheKey(l)].value) == Some(r.value)
        {
          if CacheKey(l) == CacheKey(last) {
            assert l == last;
          }
        }
      }
    }
  }

  // =====================================================================
  // The crawler object
  // =====================================================================

  /** `OnHTML` callbacks replayed on a visited page, in registration order. */
  method ApplyCallbacks(p: DetailPage) returns (vuln: Vulnerability)
    ensures vuln == HtmlFields(p)
  {
    vuln := Blank;
    if p.descriptionThird.Some? { vuln := vuln.(description := p.descriptionThird.value); }
    if p.descriptionSecond.Some? { vuln := vuln.(description := p.descriptionSecond.value); }
    if p.calloutLinks.Some? { vuln := vuln.(cveId := p.calloutLinks.value); }
    if p.published.Some? { vuln := vuln.(publishedDate := p.published.value); }
    if p.lastModified.Some? { vuln := vuln.(lastModified := p.lastModified.value); }
    if p.nvdScore.Some? { vuln := vuln.(nvdScore := p.nvdScore.value); }
    if p.cnaScore.Some? { vuln := vuln.(cnaScore := p.cnaScore.value); }
  }

  /** The `Each` over the change-history cells: every cell that mentions
      `*cpe` appends its version ranges. */
  method CollectVersions(cells: seq<string>) returns (result: seq<string>)
    ensures result == CellVersions(cells)
  {
    result := [];
    for i := 0 to |cells|
      invariant result == CellVersions(cells[..i])
    {
      assert cells[..i + 1][..i] == cells[..i];
      if Contains(cells[i], Cpe) {
        result := ExtractVulnerableVersions(cells[i], result);
      }
    }
    assert cells[..|cells|] == cells;
  }

  /** The `OnScraped` callback. */
  method OnScraped(query: string, raw: RawPage, vuln: Vulnerability) returns (r: Run<Vulnerability>)
    ensures r == AfterScrape(query, raw, vuln)
  {
    if raw.GetFailed? {
      return Terminated(raw.error);
    }
    if raw.status != 200 {
      return Terminated(StatusError(raw.status, raw.statusText));
    }
    if raw.cells.None? {
      return Completed(vuln);
    }
    var result := CollectVersions(raw.cells.value);
    r := Completed(vuln.(name := query, vulnerableVersions := result));
  }

  class Crawler {
    const redis: Redis.Client

    constructor (redis: Redis.Client)
      ensures this.redis == redis
    {
      this.redis := redis;
    }

    /** `ExtractVulnerabilityLinksPerPage`: the detail links of one result page. */
    method ExtractVulnerabilityLinksPerPage(web: Web, link: string) returns (links: seq<string>)
      ensures links == LinksOnPage(web.search(link))
    {
      var anchors := web.search(link);
      links := [];
      for i := 0 to |anchors|
        invariant links == LinksOnPage(anchors[..i])
      {
        assert anchors[..i + 1][..i] == anchors[..i];
        links := links + [DetailLink(anchors[i])];
      }
      assert anchors[..|anchors|] == anchors;
    }

    /** `ExtractVulnerabilitiesLinks`: requests pages at offsets 0, 20, 40,
        ... until one is empty, and returns the links of the pages before
        it. The loop has no bound of its own: some page must be empty. */
    method ExtractVulnerabilitiesLinks(web: Web, query: string)
      returns (links: seq<string>, ghost pages: nat, ghost requested: seq<string>)
      requires exists n: nat :: PageAnchors(web, query, n) == []
      ensures StopsAt(web, query, pages)
      ensures links == LinksOfPages(web, query, pages)
      ensures |requested| == pages + 1
      ensures forall k :: 0 <= k < |requested| ==> requested[k] == PageLink(query, PageSize * k)
    {
      ghost var bound: nat :| PageAnchors(web, query, bound) == [];
      links := [];
      pages := 0;
      requested := [];
      var baseLink := GenerateLink(query);
      var counter := 0;
      while true
        invariant counter == PageSize * pages && pages <= bound
        invariant Paged(web, query, pages, links, requested)
        decreases bound - pages
      {
        var finalLink := baseLink + "&startIndex=" + Itoa(counter);
        assert finalLink == PageLink(query, PageSize * pages);
        var vuls := ExtractVulnerabilityLinksPerPage(web, finalLink);
        if |vuls| != 0 {
          PagedStep(web, query, pages, links, requested);
          assert pages != bound;
          requested := requested + [finalLink];
          links := links + vuls;
          counter := counter + PageSize;
          pages := pages + 1;
        } else {
          PagedStop(web, query, pages, links, requested);
          requested := requested + [finalLink];
          break;
        }
      }
    }

    /** `scrapeVulnerabilityDetails`. */
    method ScrapeVulnerabilityDetails(web: Web, query: string, link: string)
      returns (vuln: Run<Vulnerability>, ghost visits: seq<string>)
      modifies redis`entries
      ensures var s := Scrape(web, query, link, old(redis.entries), redis.reachable);
        vuln == s.outcome && redis.entries == s.entries && visits == s.visits
    {
      var key := CacheKey(link);
      var val := redis.Get(key);
      if val.Some? {
        vuln := Completed(Unmarshal(val.value).GetOr(Blank));
        visits := [];
        return;
      }
      var v := Blank;
      visits := [link];
      var page := web.detail(link);
      if page.Some? {
        v := ApplyCallbacks(page.value);
        visits := visits + [link];
        var after := OnScraped(query, web.raw(link), v);
        if after.Terminated? {
          vuln := after;
          return;
        }
        v := after.value;
      }
      redis.Set(key, Marshal(v), CacheTtlHours);
      vuln := Completed(v);
    }

    /** `ExtractVulnerabilitiesDetails`, one link after the other. */
    method ExtractVulnerabilitiesDetails(web: Web, query: string, links: seq<string>)
      returns (vulns: Run<seq<Vulnerability>>, ghost visits: seq<string>)
      modifies redis`entries
      ensures var d := ScrapeAll(web, query, links, old(redis.entries), redis.reachable);
        vulns == d.outcome && redis.entries == d.entries && visits == d.visits
    {
      var records := [];
      visits := [];
      for i := 0 to |links|
        invariant ScrapeAll(web, query, links[..i], old(redis.entries), redis.reachable)
          == DetailsStep(Completed(records), redis.entries, visits)
      {
        assert links[..i + 1][..i] == links[..i];
        var r, v := ScrapeVulnerabilityDetails(web, query, links[i]);
        visits := visits + v;
        if r.Terminated? {
          vulns := Terminated(r.reason);
          AbortIsFinal(web, query, links, old(redis.entries), redis.reachable, i + 1);
          return;
        }
        records := records + [r.value];
      }
      assert links[..|links|] == links;
      vulns := Completed(records);
    }
  }
}
