/** The crawl service of services/crawler.go: fetching one page, counting its
    headings and links, checking every link with a HEAD request, and writing
    the outcome into the stored record.

    The network, the HTML parser and URL resolution are inputs: `get` answers
    the page request, `head` the HEAD request of a link (None when the request
    itself fails), `resolve` stands for url.Parse plus ResolveReference (None
    when either URL does not parse), and `marshal` for json.Marshal of the
    broken-link list. */
module Crawler {
  import opened Options
  import opened Text
  import opened Store

  datatype BrokenLink = BrokenLink(url: string, statusCode: int)

  /** What goquery finds in a parsed page. `hrefs` holds one entry per
      `a[href]` element, in document order, None where the attribute is
      absent; `firstChildData` is the data of the document's first child (the
      doctype when there is one). */
  datatype Document = Document(
    hasHtmlNode: bool,
    firstChildData: string,
    title: string,
    h1: nat, h2: nat, h3: nat, h4: nat, h5: nat, h6: nat,
    hrefs: seq<Option<string>>,
    passwordInputs: nat)

  datatype Body = Parsed(doc: Document) | Unparsable(reason: string)

  /** The answer to `http.Get(url)`: a transport error or a response with its
      numeric code, its status line and its parsed body. */
  datatype Fetch = NetworkError(reason: string) | Response(statusCode: int, status: string, body: Body)

  datatype CrawlResult = CrawlResult(
    htmlVersion: string,
    pageTitle: string,
    h1Count: int, h2Count: int, h3Count: int, h4Count: int, h5Count: int, h6Count: int,
    internalLinks: int,
    externalLinks: int,
    inaccessibleLinks: int,
    brokenLinks: seq<BrokenLink>,
    hasLoginForm: bool)

  datatype CrawlOutcome = Crawled(result: CrawlResult) | CrawlFailed(message: string)

  // ---------------------------------------------------------------- links

  /** An anchor is ignored when its href is missing, empty, a fragment or a
      `javascript:` URL. */
  predicate Skipped(href: Option<string>) {
    href.None? || href.value == "" || IsPrefix("#", href.value) || IsPrefix("javascript:", href.value)
  }

  /** absoluteURL: the resolved URL, or the href itself when a URL does not parse. */
  function AbsoluteURL(base: string, href: string, resolve: (string, string) -> Option<string>): (r: string)
    ensures resolve(base, href).None? ==> r == href
  {
    match resolve(base, href)
    case None => href
    case Some(u) => u
  }

  /** The hrefs that are not skipped, in document order. */
  function KeptHrefs(hrefs: seq<Option<string>>): seq<string>
  {
    if hrefs == [] then []
    else
      var last := hrefs[|hrefs| - 1];
      KeptHrefs(hrefs[..|hrefs| - 1]) + (if Skipped(last) then [] else [last.value])
  }

  /** The absolute URLs that get a HEAD check: one per kept href. */
  function CheckedLinks(base: string, hrefs: seq<Option<string>>, resolve: (string, string) -> Option<string>): seq<string>
  {
    if hrefs == [] then []
    else
      var last := hrefs[|hrefs| - 1];
      CheckedLinks(base, hrefs[..|hrefs| - 1], resolve)
        + (if Skipped(last) then [] else [AbsoluteURL(base, last.value, resolve)])
  }

  /** Links classified internal: those that start with the page URL. */
  function CountInternal(base: string, links: seq<string>): nat
  {
    if links == [] then 0
    else CountInternal(base, links[..|links| - 1]) + (if IsPrefix(base, links[|links| - 1]) then 1 else 0)
  }

  /** The HEAD verdict on one link: broken with code 0 when the request fails,
      broken with its code when that code is 400 or more, fine otherwise. */
  function Verdict(link: string, head: string -> Option<int>): (v: Option<BrokenLink>)
    ensures v.Some? <==> head(link).None? || head(link).value >= 400
    ensures v.Some? ==> v.value.url == link && (v.value.statusCode == 0 <==> head(link).None?)
  {
    match head(link)
    case None => Some(BrokenLink(link, 0))
    case Some(code) => if code >= 400 then Some(BrokenLink(link, code)) else None
  }

  /** The broken links among `links`, in link order. */
  function BrokenAmong(links: seq<string>, head: string -> Option<int>): seq<BrokenLink>
  {
    if links == [] then []
    else
      var v := Verdict(links[|links| - 1], head);
      BrokenAmong(links[..|links| - 1], head) + (if v.Some? then [v.value] else [])
  }

  // ----------------------------------------------------------- the page

  /** The HTML version read off the first child of the document. */
  function HtmlVersion(hasHtmlNode: bool, firstChildData: string): (v: string)
    ensures v == "" <==> !hasHtmlNode
    ensures v in {"", "HTML 4.01 or XHTML", "HTML5", "Unknown"}
  {
    if !hasHtmlNode then ""
    else if Contains(Lower(firstChildData), "html public") then "HTML 4.01 or XHTML"
    else if Contains(Lower(firstChildData), "html") then "HTML5"
    else "Unknown"
  }

  /** The text of CrawlURL's errors, as fmt.Errorf formats them. */
  function FetchErrorText(reason: string): string { "failed to fetch URL: " + reason }
  function StatusErrorText(code: int, status: string): string {
    "non-OK status code: " + IntToDecimal(code) + " " + status
  }
  function ParseErrorText(reason: string): string { "failed to parse HTML: " + reason }

  /** What CrawlURL computes for the page at `url` given the answer `fetched`. */
  function Crawl(url: string, fetched: Fetch, head: string -> Option<int>,
                 resolve: (string, string) -> Option<string>): (out: CrawlOutcome)
    ensures out.Crawled? <==> fetched.Response? && fetched.statusCode == 200 && fetched.body.Parsed?
    ensures out.Crawled? ==>
              && out.result.internalLinks >= 0 && out.result.externalLinks >= 0
              && out.result.internalLinks + out.result.externalLinks
                   == |CheckedLinks(url, fetched.body.doc.hrefs, resolve)|
              && out.result.inaccessibleLinks == |out.result.brokenLinks|
  {
    match fetched
    case NetworkError(reason) => CrawlFailed(FetchErrorText(reason))
    case Response(code, status, body) =>
      if code != 200 then CrawlFailed(StatusErrorText(code, status))
      else match body
        case Unparsable(reason) => CrawlFailed(ParseErrorText(reason))
        case Parsed(doc) =>
          var links := CheckedLinks(url, doc.hrefs, resolve);
          var internal := CountInternal(url, links);
          var broken := BrokenAmong(links, head);
          InternalAtMostLinks(url, links);
          Crawled(CrawlResult(
            HtmlVersion(doc.hasHtmlNode, doc.firstChildData), doc.title,
            doc.h1, doc.h2, doc.h3, doc.h4, doc.h5, doc.h6,
            internal, |links| - internal, |broken|, broken,
            doc.passwordInputs > 0))
  }

  /** The anchor loop of CrawlURL: skips the ignored hrefs, counts each kept
      one as internal or external and collects its absolute URL for a HEAD
      check. */
  method CountLinks(url: string, hrefs: seq<Option<string>>, resolve: (string, string) -> Option<string>)
    returns (internal: nat, external: nat, links: seq<string>)
    ensures links == CheckedLinks(url, hrefs, resolve)
    ensures internal == CountInternal(url, links)
    ensures internal + external == |links|
  {
    internal, external, links := 0, 0, [];
    for i := 0 to |hrefs|
      invariant links == CheckedLinks(url, hrefs[..i], resolve)
      invariant internal == CountInternal(url, links)
      invariant internal + external == |links|
    {
      var href := hrefs[i];
      assert hrefs[..i + 1][..i] == hrefs[..i] && hrefs[..i + 1][i] == href;
      if !Skipped(href) {
        var fullURL := AbsoluteURL(url, href.value, resolve);
        assert CheckedLinks(url, hrefs[..i + 1], resolve) == links + [fullURL];
        assert (links + [fullURL])[..|links|] == links;
        if IsPrefix(url, fullURL) {
          internal := internal + 1;
        } else {
          external := external + 1;
        }
        links := links + [fullURL];
      } else {
        assert CheckedLinks(url, hrefs[..i + 1], resolve) == links;
      }
    }
    assert hrefs[..|hrefs|] == hrefs;
  }

  /** The result loop of CrawlURL: one broken-link entry, and one more
      inaccessible link, per failed check. */
  method GatherBroken(links: seq<string>, head: string -> Option<int>)
    returns (inaccessible: nat, broken: seq<BrokenLink>)
    ensures broken == BrokenAmong(links, head)
    ensures inaccessible == |broken|
  {
    inaccessible, broken := 0, [];
    for j := 0 to |links|
      invariant broken == BrokenAmong(links[..j], head)
      invariant inaccessible == |broken|
    {
      assert links[..j + 1][..j] == links[..j];
      var verdict := Verdict(links[j], head);
      if verdict.Some? {
        inaccessible := inaccessible + 1;
        broken := broken + [verdict.value];
      }
    }
    assert links[..|links|] == links;
  }

  /** CrawlURL. The source runs the HEAD checks in goroutines and appends the
      broken links in completion order; this model gathers them in link
      order. */
  method CrawlURL(url: string, get: string -> Fetch, head: string -> Option<int>,
                  resolve: (string, string) -> Option<string>) returns (out: CrawlOutcome)
    ensures out == Crawl(url, get(url), head, resolve)
  {
    var res := get(url);
    if res.NetworkError? {
      return CrawlFailed(FetchErrorText(res.reason));
    }
    if res.statusCode != 200 {
      return CrawlFailed(StatusErrorText(res.statusCode, res.status));
    }
    if res.body.Unparsable? {
      return CrawlFailed(ParseErrorText(res.body.reason));
    }
    var doc := res.body.doc;
    var htmlVersion := HtmlVersion(doc.hasHtmlNode, doc.firstChildData);
    var internal, external, links := CountLinks(url, doc.hrefs, resolve);
    var inaccessible, broken := GatherBroken(links, head);
    out := Crawled(CrawlResult(htmlVersion, doc.title,
                               doc.h1, doc.h2, doc.h3, doc.h4, doc.h5, doc.h6,
                               internal, external, inaccessible, broken,
                               doc.passwordInputs > 0));
  }

  // --------------------------------------------------------- properties

  /** Appending a skipped href changes neither the links checked nor, with
      them, any counter. */
  lemma SkippedHrefCountsNothing(base: string, hrefs: seq<Option<string>>, href: Option<string>,
                                 resolve: (string, string) -> Option<string>)
    requires Skipped(href)
    ensures CheckedLinks(base, hrefs + [href], resolve) == CheckedLinks(base, hrefs, resolve)
    ensures KeptHrefs(hrefs + [href]) == KeptHrefs(hrefs)
  {
    assert (hrefs + [href])[..|hrefs|] == hrefs;
  }

  /** Appending a kept href adds exactly one to exactly one of the two
      counters: internal iff its absolute URL starts with the page URL. */
  lemma KeptHrefCountsOnce(base: string, hrefs: seq<Option<string>>, href: string,
                           resolve: (string, string) -> Option<string>)
    requires !Skipped(Some(href))
    ensures var before := CheckedLinks(base, hrefs, resolve);
            var after := CheckedLinks(base, hrefs + [Some(href)], resolve);
            && |after| == |before| + 1
            && CountInternal(base, after) == CountInternal(base, before)
                 + (if IsPrefix(base, AbsoluteURL(base, href, resolve)) then 1 else 0)
  {
    assert (hrefs + [Some(href)])[..|hrefs|] == hrefs;
    var after := CheckedLinks(base, hrefs + [Some(href)], resolve);
    assert after[..|after| - 1] == CheckedLinks(base, hrefs, resolve);
  }

  /** One link checked per kept href, each the absolute form of that href. */
  lemma {:induction false} CheckedLinksFollowKeptHrefs(base: string, hrefs: seq<Option<string>>,
                                                       resolve: (string, string) -> Option<string>)
    ensures var links := CheckedLinks(base, hrefs, resolve);
            var kept := KeptHrefs(hrefs);
            |links| == |kept| && forall k :: 0 <= k < |links| ==> links[k] == AbsoluteURL(base, kept[k], resolve)
  {
    if hrefs != [] {
      CheckedLinksFollowKeptHrefs(base, hrefs[..|hrefs| - 1], resolve);
    }
  }

  /** The internal count never exceeds the number of links. */
  lemma {:induction false} InternalAtMostLinks(base: string, links: seq<string>)
    ensures CountInternal(base, links) <= |links|
  {
    if links != [] {
      InternalAtMostLinks(base, links[..|links| - 1]);
    }
  }

  /** A link is recorded broken, with code c, iff it was checked and its HEAD
      request failed (c = 0) or answered c >= 400. */
  lemma {:induction false} BrokenIff(links: seq<string>, head: string -> Option<int>, b: BrokenLink)
    ensures b in BrokenAmong(links, head) <==>
              b.url in links && (if head(b.url).None? then b.statusCode == 0
                                 else head(b.url).value >= 400 && b.statusCode == head(b.url).value)
  {
    if links != [] {
      var init := links[..|links| - 1];
      BrokenIff(init, head, b);
      assert links == init + [links[|links| - 1]];
    }
  }

  /** There are never more broken links than checked links. */
  lemma {:induction false} BrokenAtMostLinks(links: seq<string>, head: string -> Option<int>)
    ensures |BrokenAmong(links, head)| <= |links|
  {
    if links != [] {
      BrokenAtMostLinks(links[..|links| - 1], head);
    }
  }

  /** A successful crawl: internal plus external equals the number of kept
      hrefs; the inaccessible count is the length of the broken-link list and
      at most that number; the login flag means a password input exists. */
  lemma CrawlCounts(url: string, fetched: Fetch, head: string -> Option<int>,
                    resolve: (string, string) -> Option<string>)
    requires Crawl(url, fetched, head, resolve).Crawled?
    ensures var r := Crawl(url, fetched, head, resolve).result;
            var doc := fetched.body.doc;
            && r.internalLinks >= 0 && r.externalLinks >= 0
            && r.internalLinks + r.externalLinks == |KeptHrefs(doc.hrefs)|
            && r.inaccessibleLinks == |r.brokenLinks| <= |KeptHrefs(doc.hrefs)|
            && (r.hasLoginForm <==> doc.passwordInputs > 0)
  {
    var doc := fetched.body.doc;
    var links := CheckedLinks(url, doc.hrefs, resolve);
    CheckedLinksFollowKeptHrefs(url, doc.hrefs, resolve);
    InternalAtMostLinks(url, links);
    BrokenAtMostLinks(links, head);
  }

  /** Only a 200 response with a parsable body gives a result; every other
      answer gives an error with its message. */
  lemma CrawlFailsUnlessOk(url: string, fetched: Fetch, head: string -> Option<int>,
                           resolve: (string, string) -> Option<string>)
    ensures Crawl(url, fetched, head, resolve).Crawled? <==>
              fetched.Response? && fetched.statusCode == 200 && fetched.body.Parsed?
    ensures fetched.Response? && fetched.statusCode != 200 ==>
              Crawl(url, fetched, head, resolve) == CrawlFailed(StatusErrorText(fetched.statusCode, fetched.status))
  {
  }

  /** The HTML version: legacy when the doctype mentions "html public" in
      any case, HTML5 when it mentions only "html", Unknown otherwise, and
      empty when the page has no html element. */
  lemma HtmlVersionCases(hasHtmlNode: bool, data: string)
    ensures var v := HtmlVersion(hasHtmlNode, data);
            && (v == "" <==> !hasHtmlNode)
            && (v == "HTML 4.01 or XHTML" <==> hasHtmlNode && Contains(Lower(data), "html public"))
            && (v == "HTML5" <==> hasHtmlNode && !Contains(Lower(data), "html public") && Contains(Lower(data), "html"))
            && (v == "Unknown" <==> hasHtmlNode && !Contains(Lower(data), "html"))
  {
    if hasHtmlNode && Contains(Lower(data), "html public") {
      PublicMentionsHtml(Lower(data));
    }
  }

  /** A string containing "html public" contains "html". */
  lemma {:induction false} PublicMentionsHtml(s: string)
    requires Contains(s, "html public")
    ensures Contains(s, "html")
    decreases |s|
  {
    if IsPrefix("html public", s) {
      assert s[..4] == s[..11][..4];
    } else {
      PublicMentionsHtml(s[1..]);
    }
  }

  // ------------------------------------------------------------ ProcessURL

  /** The record ProcessURL saves the second time, from the record it saved
      the first time. On failure only the status and the error text change;
      on success the crawl's columns are copied, the broken-link JSON only
      when there is at least one broken link, and the error text is left as
      it was. */
  function Finished(running: Record, out: CrawlOutcome, marshal: seq<BrokenLink> -> string): (f: Record)
    ensures f.id == running.id && f.url == running.url && f.createdAt == running.createdAt
    ensures f.status == "error" <==> out.CrawlFailed?
    ensures f.status == "done" <==> out.Crawled?
    ensures out.CrawlFailed? ==> f.errorMessage == out.message
  {
    match out
    case CrawlFailed(msg) => running.(status := "error", errorMessage := msg)
    case Crawled(d) =>
      running.(htmlVersion := d.htmlVersion, pageTitle := d.pageTitle,
               h1Count := d.h1Count, h2Count := d.h2Count, h3Count := d.h3Count,
               h4Count := d.h4Count, h5Count := d.h5Count, h6Count := d.h6Count,
               internalLinks := d.internalLinks, externalLinks := d.externalLinks,
               inaccessibleLinks := d.inaccessibleLinks,
               inaccessibleLinkDetails := if |d.brokenLinks| > 0 then marshal(d.brokenLinks)
                                          else running.inaccessibleLinkDetails,
               hasLoginForm := d.hasLoginForm, status := "done")
  }

  /** The field-by-field update ProcessURL makes to its local record once
      the crawl has answered. */
  method CopyOutcome(running: Record, data: CrawlOutcome, marshal: seq<BrokenLink> -> string)
    returns (rec: Record)
    ensures rec == Finished(running, data, marshal)
    ensures rec.id == running.id && rec.url == running.url
  {
    rec := running;
    if data.CrawlFailed? {
      rec := rec.(status := "error", errorMessage := data.message);
    } else {
      var d := data.result;
      rec := rec.(htmlVersion := d.htmlVersion, pageTitle := d.pageTitle,
                  h1Count := d.h1Count, h2Count := d.h2Count, h3Count := d.h3Count,
                  h4Count := d.h4Count, h5Count := d.h5Count, h6Count := d.h6Count,
                  internalLinks := d.internalLinks, externalLinks := d.externalLinks,
                  inaccessibleLinks := d.inaccessibleLinks);
      if |d.brokenLinks| > 0 {
        rec := rec.(inaccessibleLinkDetails := marshal(d.brokenLinks));
      }
      rec := rec.(hasLoginForm := d.hasLoginForm, status := "done");
    }
  }

  /** ProcessURL: loads the record, saves it as running, crawls its URL and
      saves the finished record. `saves` lists the records written, in order.
      A missing record is left alone. */
  method ProcessURL(db: Table, id: nat, get: string -> Fetch, head: string -> Option<int>,
                    resolve: (string, string) -> Option<string>, marshal: seq<BrokenLink> -> string)
    returns (ghost saves: seq<Record>)
    requires db.Valid()
    modifies db
    ensures db.Valid() && db.nextId == old(db.nextId) && db.deleted == old(db.deleted)
    ensures id !in old(db.live) ==> unchanged(db) && saves == []
    ensures id in old(db.live) ==>
      var running := old(db.live)[id].(status := "running");
      && saves == [running, Finished(running, Crawl(running.url, get(running.url), head, resolve), marshal)]
      && db.live == old(db.live)[id := saves[1]]
  {
    var found := db.First(id);
    if found.None? {
      return [];
    }
    var rec := found.value;
    rec := rec.(status := "running");
    db.Save(rec);
    saves := [rec];

    var data := CrawlURL(rec.url, get, head, resolve);
    rec := CopyOutcome(rec, data, marshal);
    db.Save(rec);
    saves := saves + [rec];
  }

  /** Once the crawl returns, ProcessURL ends in "done" or "error", never in
      "running"; an error keeps
      every crawl column of the record; a finished record carries every
      column CrawlURL computed for its page: the version, the title, the
      heading counts, the link counts and the login flag. */
  lemma FinishedOutcome(running: Record, fetched: Fetch, head: string -> Option<int>,
                        resolve: (string, string) -> Option<string>, marshal: seq<BrokenLink> -> string)
    ensures var out := Crawl(running.url, fetched, head, resolve);
            var f := Finished(running, out, marshal);
            && f.id == running.id && f.url == running.url && f.createdAt == running.createdAt
            && (f.status == "error" <==> out.CrawlFailed?)
            && (f.status == "done" <==> out.Crawled?)
            && (out.CrawlFailed? ==> f == running.(status := "error", errorMessage := out.message))
            && (out.Crawled? ==>
                  && f.errorMessage == running.errorMessage
                  && f.htmlVersion == out.result.htmlVersion && f.pageTitle == out.result.pageTitle
                  && f.h1Count == out.result.h1Count && f.h2Count == out.result.h2Count
                  && f.h3Count == out.result.h3Count && f.h4Count == out.result.h4Count
                  && f.h5Count == out.result.h5Count && f.h6Count == out.result.h6Count
                  && f.internalLinks == out.result.internalLinks
                  && f.externalLinks == out.result.externalLinks
                  && f.hasLoginForm == out.result.hasLoginForm
                  && f.internalLinks == CountInternal(running.url, CheckedLinks(running.url, fetched.body.doc.hrefs, resolve))
                  && f.internalLinks + f.externalLinks == |KeptHrefs(fetched.body.doc.hrefs)|
                  && f.inaccessibleLinks == |out.result.brokenLinks|)
  {
    var out := Crawl(running.url, fetched, head, resolve);
    if out.Crawled? {
      CrawlCounts(running.url, fetched, head, resolve);
    }
  }

  /** The broken-link JSON is overwritten iff the crawl found a broken link;
      otherwise the earlier text stays, even though the inaccessible count is
      now zero. */
  lemma DetailsOverwrittenOnlyWhenBroken(running: Record, out: CrawlOutcome, marshal: seq<BrokenLink> -> string)
    requires out.Crawled?
    ensures var f := Finished(running, out, marshal);
            && (|out.result.brokenLinks| > 0 ==> f.inaccessibleLinkDetails == marshal(out.result.brokenLinks))
            && (out.result.brokenLinks == [] ==> f.inaccessibleLinkDetails == running.inaccessibleLinkDetails)
  {
  }
}
