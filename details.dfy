/** The detail page of my-crawler-ui (src/pages/Details.tsx): which of its
    four screens it shows, and what the record screen derives from the
    served record: the badge, the fallbacks, the two-slice link
    distribution and the broken-link list read back from the record's JSON
    text. `JSON.parse` is an oracle `parse` that answers None where the
    parser throws. */
module Details {
  import opened Options
  import opened Text
  import opened UiTypes
  import Store
  import Crawler

  /** One slice of the link-distribution pie. */
  datatype Slice = Slice(name: string, value: int)

  /** `linkData`: internal links first, external links second. */
  function LinkData(d: AnalysisResult): (slices: seq<Slice>)
    ensures |slices| == 2
    ensures slices[0].name == "Internal Links" && slices[0].value == d.internalLinks
    ensures slices[1].name == "External Links" && slices[1].value == d.externalLinks
  {
    [Slice("Internal Links", d.internalLinks), Slice("External Links", d.externalLinks)]
  }

  function SliceTotal(slices: seq<Slice>): int {
    if slices == [] then 0 else SliceTotal(slices[..|slices| - 1]) + slices[|slices| - 1].value
  }

  /** `brokenLinks`: empty for an empty text and for a text the parser
      rejects, else the parsed list. */
  function BrokenLinks(details: string, parse: string -> Option<seq<Crawler.BrokenLink>>): (links: seq<Crawler.BrokenLink>)
    ensures details == "" ==> links == []
    ensures parse(details).None? ==> links == []
    ensures details != "" && parse(details).Some? ==> links == parse(details).value
  {
    if details == "" then []
    else match parse(details)
      case None => []
      case Some(parsed) => parsed
  }

  /** "Yes" or "No" for the login-form flag. */
  function YesNo(b: bool): (shown: string)
    ensures b <==> shown == "Yes"
    ensures !b <==> shown == "No"
  {
    if b then "Yes" else "No"
  }

  /** What the record screen shows. `errorLine` is the error paragraph,
      present only for a non-empty error text; `noBrokenNotice` is the
      "No inaccessible links found." line shown in place of an empty list. */
  datatype DetailsPage = DetailsPage(
    url: string,
    badge: BadgeColor,
    statusText: string,
    errorLine: Option<string>,
    title: string,
    htmlVersion: string,
    loginForm: string,
    headingCounts: seq<int>,
    linkData: seq<Slice>,
    inaccessibleCount: int,
    brokenLinks: seq<Crawler.BrokenLink>,
    noBrokenNotice: bool)

  /** The record screen for a served record. */
  function RecordPage(d: AnalysisResult, parse: string -> Option<seq<Crawler.BrokenLink>>): (p: DetailsPage)
    ensures p.url == d.url && p.inaccessibleCount == d.inaccessibleLinks
    ensures p.badge == StatusColor(d.status) && p.statusText == StatusLabel(d.status)
    ensures p.errorLine.Some? <==> d.errorMessage != ""
    ensures p.errorLine.Some? ==> p.errorLine.value == d.errorMessage
    ensures p.title == OrNA(d.pageTitle) && p.htmlVersion == OrNA(d.htmlVersion)
    ensures p.loginForm == YesNo(d.hasLoginForm)
    ensures p.headingCounts == [d.h1Count, d.h2Count, d.h3Count, d.h4Count, d.h5Count, d.h6Count]
    ensures p.linkData == LinkData(d)
    ensures p.brokenLinks == BrokenLinks(d.inaccessibleLinkDetails, parse)
    ensures p.noBrokenNotice <==> p.brokenLinks == []
  {
    var links := BrokenLinks(d.inaccessibleLinkDetails, parse);
    DetailsPage(d.url, StatusColor(d.status), StatusLabel(d.status),
                if d.errorMessage != "" then Some(d.errorMessage) else None,
                OrNA(d.pageTitle), OrNA(d.htmlVersion), YesNo(d.hasLoginForm),
                [d.h1Count, d.h2Count, d.h3Count, d.h4Count, d.h5Count, d.h6Count],
                LinkData(d), d.inaccessibleLinks, links, |links| == 0)
  }

  datatype DetailsScreen =
    | LoadingDetails
    | ErrorDetails(message: string)
    | NoData
    | Record(page: DetailsPage)

  /** Which screen renders: the spinner while loading, then the error, then
      the notice for a missing record, then the record. */
  function Screen(isLoading: bool, isError: bool, message: string, data: Option<AnalysisResult>,
                  parse: string -> Option<seq<Crawler.BrokenLink>>): (s: DetailsScreen)
    ensures s.LoadingDetails? <==> isLoading
    ensures s.ErrorDetails? <==> !isLoading && isError
    ensures s.ErrorDetails? ==> s.message == message
    ensures s.NoData? <==> !isLoading && !isError && data.None?
    ensures s.Record? <==> !isLoading && !isError && data.Some?
    ensures s.Record? ==> s.page == RecordPage(data.value, parse)
  {
    if isLoading then LoadingDetails
    else if isError then ErrorDetails(message)
    else match data
      case None => NoData
      case Some(d) => Record(RecordPage(d, parse))
  }

  // ------------------------------------------------- against the back end

  /** The pie of a freshly crawled record covers every kept href of its
      page: the two slices add up to the links the crawl counted. */
  lemma PieCoversKeptHrefs(running: Store.Record, fetched: Crawler.Fetch, head: string -> Option<int>,
                           resolve: (string, string) -> Option<string>, marshal: seq<Crawler.BrokenLink> -> string,
                           createdAt: string, updatedAt: string)
    requires Crawler.Crawl(running.url, fetched, head, resolve).Crawled?
    ensures var f := Crawler.Finished(running, Crawler.Crawl(running.url, fetched, head, resolve), marshal);
            SliceTotal(LinkData(Served(f, createdAt, updatedAt))) == |Crawler.KeptHrefs(fetched.body.doc.hrefs)|
  {
    Crawler.FinishedOutcome(running, fetched, head, resolve, marshal);
    var f := Crawler.Finished(running, Crawler.Crawl(running.url, fetched, head, resolve), marshal);
    var slices := LinkData(Served(f, createdAt, updatedAt));
    assert slices[..1][..0] == [] && slices[..1][0] == slices[0];
    assert SliceTotal(slices[..1]) == slices[0].value;
    assert slices[..|slices| - 1] == slices[..1];
    assert SliceTotal(slices) == f.internalLinks + f.externalLinks;
  }

  /** When parsing reads back what the crawler wrote, the record screen of
      a crawl that found broken links lists exactly those links, and the
      heading count above the list matches its length. */
  lemma BrokenLinksRoundTrip(running: Store.Record, fetched: Crawler.Fetch, head: string -> Option<int>,
                             resolve: (string, string) -> Option<string>,
                             marshal: seq<Crawler.BrokenLink> -> string,
                             parse: string -> Option<seq<Crawler.BrokenLink>>,
                             createdAt: string, updatedAt: string)
    requires var out := Crawler.Crawl(running.url, fetched, head, resolve);
             && out.Crawled? && |out.result.brokenLinks| > 0
             && marshal(out.result.brokenLinks) != ""
             && parse(marshal(out.result.brokenLinks)) == Some(out.result.brokenLinks)
    ensures var out := Crawler.Crawl(running.url, fetched, head, resolve);
            var p := RecordPage(Served(Crawler.Finished(running, out, marshal), createdAt, updatedAt), parse);
            && p.brokenLinks == out.result.brokenLinks
            && p.inaccessibleCount == |p.brokenLinks|
            && !p.noBrokenNotice
  {
    var out := Crawler.Crawl(running.url, fetched, head, resolve);
    Crawler.FinishedOutcome(running, fetched, head, resolve, marshal);
    Crawler.DetailsOverwrittenOnlyWhenBroken(running, out, marshal);
  }

  /** A record whose earlier crawl found broken links and whose new crawl
      found none still lists the earlier links, under a heading count of
      zero: the crawler keeps the old JSON text when there is nothing new
      to write. */
  lemma StaleBrokenLinksAfterCleanCrawl(running: Store.Record, out: Crawler.CrawlOutcome,
                                        marshal: seq<Crawler.BrokenLink> -> string,
                                        parse: string -> Option<seq<Crawler.BrokenLink>>,
                                        createdAt: string, updatedAt: string)
    requires out.Crawled? && out.result.brokenLinks == [] && out.result.inaccessibleLinks == 0
    requires running.inaccessibleLinkDetails != ""
    requires parse(running.inaccessibleLinkDetails).Some? && parse(running.inaccessibleLinkDetails).value != []
    ensures var p := RecordPage(Served(Crawler.Finished(running, out, marshal), createdAt, updatedAt), parse);
            && p.inaccessibleCount == 0
            && p.brokenLinks == parse(running.inaccessibleLinkDetails).value
            && !p.noBrokenNotice
  {
    Crawler.DetailsOverwrittenOnlyWhenBroken(running, out, marshal);
  }

  /** A record just added, before any crawl has finished, shows the "none
      found" line. */
  lemma FreshRecordShowsNoBrokenLinks(id: nat, url: string, now: int, parse: string -> Option<seq<Crawler.BrokenLink>>,
                                      createdAt: string, updatedAt: string)
    ensures var p := RecordPage(Served(Store.NewRecord(id, url, now), createdAt, updatedAt), parse);
            p.brokenLinks == [] && p.noBrokenNotice && p.inaccessibleCount == 0
  {
  }
}
