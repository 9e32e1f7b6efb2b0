/** The advisory client of internal/advisor/advisor.go: for each package,
    the GitHub advisories on it whose vulnerable range holds the package's
    version. The GraphQL round trip and the semantic-versioning library are
    oracles. */
module Advisor {
  import opened Common
  import opened Types

  /** The answer of the advisory database for a package name: its nodes, or
      `None` when marshalling the query, sending it, reading the answer or
      decoding it fails. */
  type Api = string -> Option<seq<VulnerabilityNode>>

  /** What the semantic-versioning library decides: which texts parse as a
      version, which parse as a range, and whether a version lies in a range. */
  datatype SemVer = SemVer(
    isVersion: string -> bool,
    isConstraint: string -> bool,
    satisfies: (string, string) -> bool)

  /** The `(bool, error)` pair of `isVersionInRange`. */
  datatype RangeCheck = RangeCheck(inRange: bool, error: Option<string>)

  /** `isVersionInRange`: a version or range that does not parse gives
      `false` with an error; otherwise the library's answer and no error. */
  function IsVersionInRange(sv: SemVer, version: string, versionRange: string): (r: RangeCheck)
    ensures r.inRange <==> sv.isVersion(version) && sv.isConstraint(versionRange) && sv.satisfies(version, versionRange)
    ensures r.error.Some? <==> !(sv.isVersion(version) && sv.isConstraint(versionRange))
  {
    if !sv.isVersion(version) then RangeCheck(false, Some("invalid semantic version: " + version))
    else if !sv.isConstraint(versionRange) then RangeCheck(false, Some("improper constraint: " + versionRange))
    else RangeCheck(sv.satisfies(version, versionRange), None)
  }

  /** The value of the last identifier of type `CVE`, or empty. */
  function LastCveId(ids: seq<Identifier>): string
  {
    if ids == [] then ""
    else if ids[|ids| - 1].kind == "CVE" then ids[|ids| - 1].value
    else LastCveId(ids[..|ids| - 1])
  }

  /** The record made from a kept node: its fields copied, the CVE number
      from the identifiers. */
  function ToRecord(node: VulnerabilityNode): Vulnerability
  {
    Empty.(
      name := node.packageName,
      summary := node.summary,
      description := node.description,
      severity := node.severity,
      publishedDate := node.publishedAt,
      lastModified := node.updatedAt,
      affectedVersions := node.vulnerableVersionRange,
      patchedVersions := node.firstPatchedVersion,
      nvdScore := node.cvssScore,
      cveId := LastCveId(node.identifiers))
  }

  /** A node is kept when it is about the requested package and the
      version lies in its vulnerable range. */
  predicate Relevant(sv: SemVer, packageName: string, version: string, node: VulnerabilityNode)
  {
    node.packageName == packageName && IsVersionInRange(sv, version, node.vulnerableVersionRange).inRange
  }

  /** The records of the kept nodes, in node order. */
  function Kept(sv: SemVer, packageName: string, version: string, nodes: seq<VulnerabilityNode>): seq<Vulnerability>
  {
    if nodes == [] then []
    else
      var last := nodes[|nodes| - 1];
      Kept(sv, packageName, version, nodes[..|nodes| - 1])
        + (if Relevant(sv, packageName, version, last) then [ToRecord(last)] else [])
  }

  /** The list reported for one package; any failure gives none. */
  function PackageVulnerabilities(api: Api, sv: SemVer, packageName: string, version: string): seq<Vulnerability>
  {
    match api(packageName)
    case None => []
    case Some(nodes) => Kept(sv, packageName, version, nodes)
  }

  /** The whole report: one list per requested package. */
  function Report(api: Api, sv: SemVer, packages: map<string, string>): (report: map<string, seq<Vulnerability>>)
    ensures report.Keys == packages.Keys
  {
    map name | name in packages :: PackageVulnerabilities(api, sv, name, packages[name])
  }

  /** `fetchVulnerabiltyOfSpecificPackage`. */
  method FetchVulnerabilityOfSpecificPackage(api: Api, sv: SemVer, packageName: string, version: string)
    returns (result: seq<Vulnerability>)
    ensures result == PackageVulnerabilities(api, sv, packageName, version)
  {
    var response := api(packageName);
    if response.None? {
      return [];
    }
    var nodes := response.value;
    result := [];
    for n := 0 to |nodes|
      invariant result == Kept(sv, packageName, version, nodes[..n])
    {
      assert nodes[..n + 1][..n] == nodes[..n];
      var node := nodes[n];
      if node.packageName == packageName {
        var check := IsVersionInRange(sv, version, node.vulnerableVersionRange);
        if check.inRange {
          var vulnerability := Empty;
          vulnerability := vulnerability.(name := node.packageName);
          vulnerability := vulnerability.(summary := node.summary);
          vulnerability := vulnerability.(description := node.description);
          vulnerability := vulnerability.(severity := node.severity);
          vulnerability := vulnerability.(publishedDate := node.publishedAt);
          vulnerability := vulnerability.(lastModified := node.updatedAt);
          vulnerability := vulnerability.(affectedVersions := node.vulnerableVersionRange);
          vulnerability := vulnerability.(patchedVersions := node.firstPatchedVersion);
          vulnerability := vulnerability.(nvdScore := node.cvssScore);
          var ids := node.identifiers;
          for j := 0 to |ids|
            invariant vulnerability == ToRecord(node).(cveId := LastCveId(ids[..j]))
          {
            assert ids[..j + 1][..j] == ids[..j];
            if ids[j].kind == "CVE" {
              vulnerability := vulnerability.(cveId := ids[j].value);
            }
          }
          assert ids[..|ids|] == ids;
          result := result + [vulnerability];
        }
      }
    }
    assert nodes[..|nodes|] == nodes;
  }

  /** `FetchVulnerabilitiesFromGithub`, one package after the other in an
      unspecified order: one entry per requested package. */
  method FetchVulnerabilitiesFromGithub(api: Api, sv: SemVer, packages: map<string, string>)
    returns (result: map<string, seq<Vulnerability>>)
    ensures result.Keys == packages.Keys
    ensures forall name :: name in packages ==>
      result[name] == PackageVulnerabilities(api, sv, name, packages[name])
    ensures result == Report(api, sv, packages)
  {
    result := map[];
    var remaining := packages.Keys;
    while remaining != {}
      invariant remaining <= packages.Keys
      invariant result.Keys == packages.Keys - remaining
      invariant forall name :: name in result ==> result[name] == PackageVulnerabilities(api, sv, name, packages[name])
      decreases |remaining|
    {
      var name :| name in remaining;
      var list := FetchVulnerabilityOfSpecificPackage(api, sv, name, packages[name]);
      result := result[name := list];
      remaining := remaining - {name};
    }
  }

  // ---------------------------------------------------------------------
  // Properties
  // ---------------------------------------------------------------------

  /** The CVE number is that of the last `CVE` identifier, and empty when
      there is none. */
  lemma {:induction false} LastCveIdMeaning(ids: seq<Identifier>)
    ensures (forall i :: 0 <= i < |ids| ==> ids[i].kind != "CVE") ==> LastCveId(ids) == ""
    ensures forall i :: (0 <= i < |ids| && ids[i].kind == "CVE"
      && (forall j :: i < j < |ids| ==> ids[j].kind != "CVE")) ==> LastCveId(ids) == ids[i].value
    decreases |ids|
  {
    if ids != [] {
      var init := ids[..|ids| - 1];
      LastCveIdMeaning(init);
      forall i | 0 <= i < |ids| && ids[i].kind == "CVE" && (forall j :: i < j < |ids| ==> ids[j].kind != "CVE")
        ensures LastCveId(ids) == ids[i].value
      {
        if i < |ids| - 1 {
          assert init[i] == ids[i];
          forall j | i < j < |init| ensures init[j].kind != "CVE" {
            assert init[j] == ids[j];
          }
        }
      }
      if forall i :: 0 <= i < |ids| ==> ids[i].kind != "CVE" {
        forall i | 0 <= i < |init| ensures init[i].kind != "CVE" {
          assert init[i] == ids[i];
        }
      }
    }
  }

  /** The result is built node by node: the records of a concatenation are
      the records of each part, in order. */
  lemma {:induction false} KeptConcat(sv: SemVer, packageName: string, version: string, a: seq<VulnerabilityNode>, b: seq<VulnerabilityNode>)
    ensures Kept(sv, packageName, version, a + b) == Kept(sv, packageName, version, a) + Kept(sv, packageName, version, b)
    decreases |b|
  {
    if b == [] {
      assert a + b == a;
    } else {
      var b' := b[..|b| - 1];
      assert (a + b)[..|a + b| - 1] == a + b';
      KeptConcat(sv, packageName, version, a, b');
    }
  }

  /** One node contributes its record when it is relevant, and nothing otherwise. */
  lemma KeptSingle(sv: SemVer, packageName: string, version: string, node: VulnerabilityNode)
    ensures Kept(sv, packageName, version, [node])
      == if Relevant(sv, packageName, version, node) then [ToRecord(node)] else []
  {
    assert [node][..0] == [];
  }

  /** Only nodes of the requested package are reported, each with a
      version range that holds the version, and at most one per node. */
  lemma {:induction false} KeptAreRelevant(sv: SemVer, packageName: string, version: string, nodes: seq<VulnerabilityNode>)
    ensures |Kept(sv, packageName, version, nodes)| <= |nodes|
    ensures forall i :: 0 <= i < |Kept(sv, packageName, version, nodes)| ==>
      Kept(sv, packageName, version, nodes)[i].name == packageName
      && sv.satisfies(version, Kept(sv, packageName, version, nodes)[i].affectedVersions)
    decreases |nodes|
  {
    if nodes != [] {
      var init := nodes[..|nodes| - 1];
      KeptAreRelevant(sv, packageName, version, init);
      var before := Kept(sv, packageName, version, init);
      var last := nodes[|nodes| - 1];
      var extra: seq<Vulnerability> := if Relevant(sv, packageName, version, last) then [ToRecord(last)] else [];
      assert Kept(sv, packageName, version, nodes) == before + extra;
      forall i | 0 <= i < |before + extra|
        ensures (before + extra)[i].name == packageName
          && sv.satisfies(version, (before + extra)[i].affectedVersions)
      {
        if i < |before| {
          assert (before + extra)[i] == before[i];
        }
      }
    }
  }

  /** A version that does not parse drops every node. */
  lemma {:induction false} UnparsableVersionKeepsNothing(sv: SemVer, packageName: string, version: string, nodes: seq<VulnerabilityNode>)
    requires !sv.isVersion(version)
    ensures Kept(sv, packageName, version, nodes) == []
    decreases |nodes|
  {
    if nodes != [] {
      UnparsableVersionKeepsNothing(sv, packageName, version, nodes[..|nodes| - 1]);
    }
  }
}
