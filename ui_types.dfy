/** What the two pages of my-crawler-ui share: the JSON record the API
    serves (the `URLAnalysisResult` interface both pages declare) and the
    status badge and fallbacks both pages render the same way. */
module UiTypes {
  import opened Text
  import Store

  /** A record as the API serves it. Timestamps arrive as the strings Go's
      JSON encoder writes for them. */
  datatype AnalysisResult = AnalysisResult(
    id: int,
    url: string,
    status: string,
    htmlVersion: string,
    pageTitle: string,
    h1Count: int, h2Count: int, h3Count: int, h4Count: int, h5Count: int, h6Count: int,
    internalLinks: int,
    externalLinks: int,
    inaccessibleLinks: int,
    inaccessibleLinkDetails: string,
    hasLoginForm: bool,
    errorMessage: string,
    createdAt: string,
    updatedAt: string)

  /** The JSON object the back end sends for a stored record, given the text
      its two timestamps are encoded as. */
  function Served(r: Store.Record, createdAt: string, updatedAt: string): (a: AnalysisResult)
    ensures a.id == r.id && a.url == r.url && a.status == r.status
    ensures a.internalLinks == r.internalLinks && a.externalLinks == r.externalLinks
    ensures a.inaccessibleLinks == r.inaccessibleLinks && a.inaccessibleLinkDetails == r.inaccessibleLinkDetails
    ensures a.hasLoginForm == r.hasLoginForm && a.errorMessage == r.errorMessage
    ensures a.htmlVersion == r.htmlVersion && a.pageTitle == r.pageTitle
    ensures a.h1Count == r.h1Count && a.h2Count == r.h2Count && a.h3Count == r.h3Count
    ensures a.h4Count == r.h4Count && a.h5Count == r.h5Count && a.h6Count == r.h6Count
    ensures a.createdAt == createdAt && a.updatedAt == updatedAt
  {
    AnalysisResult(r.id, r.url, r.status, r.htmlVersion, r.pageTitle,
                   r.h1Count, r.h2Count, r.h3Count, r.h4Count, r.h5Count, r.h6Count,
                   r.internalLinks, r.externalLinks, r.inaccessibleLinks, r.inaccessibleLinkDetails,
                   r.hasLoginForm, r.errorMessage, createdAt, updatedAt)
  }

  datatype BadgeColor = Green | Blue | Red | Gray

  /** The status badge's colour palette. */
  function StatusColor(status: string): (c: BadgeColor)
    ensures c == Green <==> status == "done"
    ensures c == Blue <==> status == "running"
    ensures c == Red <==> status == "error"
    ensures c == Gray <==> status !in {"done", "running", "error"}
  {
    if status == "done" then Green
    else if status == "running" then Blue
    else if status == "error" then Red
    else Gray
  }

  /** The status badge's text: the status with its first character
      upper-cased, or "Unknown" for an empty status. */
  function StatusLabel(status: string): (text: string)
    ensures status == "" ==> text == "Unknown"
    ensures status != "" ==> |text| == |status| && text[0] == UpperChar(status[0]) && text[1..] == status[1..]
  {
    if status == "" then "Unknown" else [UpperChar(status[0])] + status[1..]
  }

  /** A text cell, or "N/A" when the text is empty. */
  function OrNA(s: string): (shown: string)
    ensures shown != ""
    ensures s != "" ==> shown == s
    ensures s == "" ==> shown == "N/A"
  {
    if s == "" then "N/A" else s
  }
}
