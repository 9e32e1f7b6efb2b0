/** The gRPC service of internal/nvd/nvd.go: find the detail links for a
    query, scrape them, and answer with one message per record, or with an
    error when the search finds nothing. */
module Nvd {
  import opened Common
  import Redis
  import Crawler

  /** The `Vulnerability` message of the service's protocol. */
  datatype ProtoVulnerability = ProtoVulnerability(
    name: string,
    cveId: string,
    publishedDate: string,
    lastModified: string,
    description: string,
    vulnerableVersions: seq<string>,
    nvdScore: string,
    cnaScore: string)

  /** The error returned when the search yields no detail link. */
  const NoMatch := "there is no matching Vulnerabilities"

  /** The record a message carries. */
  function FromProto(p: ProtoVulnerability): Crawler.Vulnerability
  {
    Crawler.Vulnerability(p.name, p.cveId, p.publishedDate, p.lastModified, p.description,
                          p.vulnerableVersions, p.nvdScore, p.cnaScore)
  }

  /** The message for a record: its eight fields copied one for one, so
      the record can be read back from it. */
  function ToProto(v: Crawler.Vulnerability): (p: ProtoVulnerability)
    ensures FromProto(p) == v
  {
    ProtoVulnerability(v.name, v.cveId, v.publishedDate, v.lastModified, v.description,
                       v.vulnerableVersions, v.nvdScore, v.cnaScore)
  }

  /** The messages for a list of records, in order. */
  function Protos(records: seq<Crawler.Vulnerability>): (result: seq<ProtoVulnerability>)
    ensures |result| == |records|
    ensures forall i :: 0 <= i < |records| ==> FromProto(result[i]) == records[i]
  {
    if records == [] then []
    else Protos(records[..|records| - 1]) + [ToProto(records[|records| - 1])]
  }

  /** The answer to a request together with the cache it leaves and the
      detail pages it visits. */
  datatype Answer = Answer(
    reply: Run<Result<seq<ProtoVulnerability>>>,
    entries: map<string, Redis.Entry>,
    visits: seq<string>)

  /** `FetchVulnerabilities` once the links are known: no link is an error
      and nothing is scraped; otherwise the records are scraped and copied. */
  function Serve(web: Crawler.Web, query: string, links: seq<string>,
                 entries: map<string, Redis.Entry>, reachable: bool): Answer
  {
    if links == [] then Answer(Completed(Err(NoMatch)), entries, [])
    else
      var d := Crawler.ScrapeAll(web, query, links, entries, reachable);
      match d.outcome
      case Terminated(reason) => Answer(Terminated(reason), d.entries, d.visits)
      case Completed(records) => Answer(Completed(Ok(Protos(records))), d.entries, d.visits)
  }

  /** The loop building the response list. */
  method BuildResponse(vulnerabilities: seq<Crawler.Vulnerability>) returns (result: seq<ProtoVulnerability>)
    ensures result == Protos(vulnerabilities)
  {
    result := [];
    for i := 0 to |vulnerabilities|
      invariant result == Protos(vulnerabilities[..i])
    {
      assert vulnerabilities[..i + 1][..i] == vulnerabilities[..i];
      var vulnerability := vulnerabilities[i];
      result := result + [ProtoVulnerability(
        vulnerability.name,
        vulnerability.cveId,
        vulnerability.publishedDate,
        vulnerability.lastModified,
        vulnerability.description,
        vulnerability.vulnerableVersions,
        vulnerability.nvdScore,
        vulnerability.cnaScore)];
    }
    assert vulnerabilities[..|vulnerabilities|] == vulnerabilities;
  }

  class Server {
    const redis: Redis.Client

    constructor (redis: Redis.Client)
      ensures this.redis == redis
    {
      this.redis := redis;
    }

    /** `FetchVulnerabilities`: search, then scrape and answer. */
    method FetchVulnerabilities(web: Crawler.Web, query: string)
      returns (reply: Run<Result<seq<ProtoVulnerability>>>, ghost found: seq<string>, ghost visits: seq<string>)
      requires exists n: nat :: Crawler.PageAnchors(web, query, n) == []
      modifies redis`entries
      ensures exists pages: nat :: Crawler.StopsAt(web, query, pages) && found == Crawler.LinksOfPages(web, query, pages)
      ensures var a := Serve(web, query, found, old(redis.entries), redis.reachable);
        reply == a.reply && redis.entries == a.entries && visits == a.visits
    {
      var crawler := new Crawler.Crawler(redis);
      var links;
      ghost var pages, requested;
      links, pages, requested := crawler.ExtractVulnerabilitiesLinks(web, query);
      found := links;
      if |links| == 0 {
        reply := Completed(Err(NoMatch));
        visits := [];
        return;
      }
      var vulnerabilities;
      vulnerabilities, visits := crawler.ExtractVulnerabilitiesDetails(web, query, links);
      if vulnerabilities.Terminated? {
        reply := Terminated(vulnerabilities.reason);
        return;
      }
      var result := BuildResponse(vulnerabilities.value);
      reply := Completed(Ok(result));
    }
  }

  // ---------------------------------------------------------------------
  // Properties
  // ---------------------------------------------------------------------

  /** The request fails with the no-match error exactly when the search
      found no link; then the cache is untouched and no detail page is
      visited. */
  lemma NoMatchIffNoLinks(web: Crawler.Web, query: string, links: seq<string>,
                          entries: map<string, Redis.Entry>, reachable: bool)
    ensures var a := Serve(web, query, links, entries, reachable);
      (a.reply.Completed? && a.reply.value.Err?) <==> links == []
    ensures links == [] ==>
      (Serve(web, query, links, entries, reachable).entries == entries
       && Serve(web, query, links, entries, reachable).visits == [])
  {
  }

  /** A successful answer carries one message per link, each the copy of
      the record scraped for it. With at least one link a completed run
      never has an empty record list, so the `Failed to extract` log branch
      of the request is never taken. */
  lemma AnswerCopiesRecords(web: Crawler.Web, query: string, links: seq<string>,
                            entries: map<string, Redis.Entry>, reachable: bool)
    requires links != []
    ensures var a := Serve(web, query, links, entries, reachable);
      var d := Crawler.ScrapeAll(web, query, links, entries, reachable);
      (a.reply.Terminated? <==> d.outcome.Terminated?)
      && (d.outcome.Completed? ==>
            a.reply.value.Ok?
            && |a.reply.value.value| == |links|
            && forall i :: 0 <= i < |links| ==> FromProto(a.reply.value.value[i]) == d.outcome.value[i])
    ensures var d := Crawler.ScrapeAll(web, query, links, entries, reachable);
      d.outcome.Completed? ==> d.outcome.value != []
  {
    Crawler.OneRecordPerLink(web, query, links, entries, reachable);
  }
}
