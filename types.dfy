/** The records of internal/types/type.go. Timestamps are kept as the text
    `time.Time.String()` renders for them. */
module Types {

  /** A vulnerability as the advisory client reports it. */
  datatype Vulnerability = Vulnerability(
    name: string,
    summary: string,
    cveId: string,
    publishedDate: string,
    lastModified: string,
    description: string,
    vulnerableVersions: seq<string>,
    nvdScore: string,
    cnaScore: string,
    affectedVersions: string,
    patchedVersions: string,
    severity: string)

  /** Go's zero value of the record. */
  const Empty := Vulnerability("", "", "", "", "", "", [], "", "", "", "", "")

  /** An advisory identifier such as a GHSA or a CVE number. */
  datatype Identifier = Identifier(kind: string, value: string)

  /** One node of the GitHub security-advisory answer, with its nested
      structs flattened. */
  datatype VulnerabilityNode = VulnerabilityNode(
    packageName: string,
    summary: string,
    description: string,
    severity: string,
    identifiers: seq<Identifier>,
    publishedAt: string,
    cvssScore: string,
    vulnerableVersionRange: string,
    firstPatchedVersion: string,
    updatedAt: string)
}
