/**
 * What the crawlers read from the site, after HTML parsing: each page is the
 * handful of strings and lists the selectors extract, and each request either
 * yields such a page or fails (non-200 status, timeout, connection error).
 */
module Pages {
  import opened Wrappers
  import opened Text

  datatype Fetch<T> = Fetched(page: T) | FetchFailed

  /** One answer block (`div._contentBox.contentBox`) of a question page. */
  datatype AnswerBlock = AnswerBlock(
    badge: Option<string>,        // text of the `span.badge.expert_job` badge, if any
    profileHref: Option<string>)  // `href` of the block's profile-card link, if any

  /** A question page (`/qna/detail`), reduced to the fields the crawlers select. */
  datatype QuestionPage = QuestionPage(
    dateSpans: seq<string>,            // texts of `div.userInfo.userInfo__bullet span`
    title: Option<string>,             // text of `div.endTitleSection`
    content: Option<string>,           // text of `div.questionDetail`
    tag: Option<string>,               // text of the first `div.tagList a`
    answers: seq<AnswerBlock>,         // answer blocks in document order
    leadProfileHref: Option<string>)   // `href` of the first profile-card link under any `div._contentBox`, in document order

  /** An answerer's profile page: specialty line and display name. */
  datatype ProfilePage = ProfilePage(specialty: Option<string>, name: Option<string>)

  /** An entry `ul.basic1 > li` of a search listing: the `href` of its `dl dt > a` link. */
  datatype ListingItem = ListingItem(href: Option<string>)

  /** The pages of one search listing, page 1 first; every later page is empty. */
  type Listing = seq<Fetch<seq<ListingItem>>>

  function PageAt(listing: Listing, page: int): Fetch<seq<ListingItem>>
  {
    if 1 <= page <= |listing| then listing[page - 1] else Fetched([])
  }

  const KIN_HOST := "https://kin.naver.com"

  /** Relative links are resolved against the site's host. */
  function AbsoluteUrl(href: string): (url: string)
    ensures StartsWith(url, "http")
    ensures StartsWith(href, "http") ==> url == href
    ensures !StartsWith(href, "http") ==> url == KIN_HOST + href
  {
    if StartsWith(href, "http") then href else KIN_HOST + href
  }

  /** What resolving one question yields: a record, the out-of-range signal, or an error. */
  datatype Outcome<R> = Accepted(rec: R) | OutOfRange | Error

  /** A JSON value stored in a corpus file: the crawlers write strings and `null`. */
  datatype Value = Str(s: string) | Null

  /** A stored record: a JSON object. */
  type Item = map<string, Value>

  function OptValue(o: Option<string>): Value
  {
    if o.Some? then Str(o.value) else Null
  }
}
