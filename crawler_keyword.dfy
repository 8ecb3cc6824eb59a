/**
 * The keyword crawler (`crawler/naver_crawler_keywork.py`): one search window
 * spanning the whole month, read page by page; the first question outside the
 * window ends the walk, questions with an error are skipped, and the cap is
 * checked before every entry.
 */
module CrawlerKeyword {
  import opened Wrappers
  import opened Text
  import opened Calendar
  import opened DateParse
  import opened Pages
  import opened DateField

  const MAX_POSTS_PER_MONTH := 333
  const QUESTION_LABEL := "질문"

  /** The site: the listing of a search window (start, end, directory id) and the question pages. */
  datatype Site = Site(
    listing: (Date, Date, string) -> Listing,
    question: string -> Fetch<QuestionPage>)

  /** One harvested question: title, content, department tag and date text, all present. */
  datatype Record = Record(title: string, content: string, department: string, date: string)

  /** The keys of the dictionary a record is returned as. */
  function ToItem(r: Record): (item: Item)
    ensures item.Keys == {"title", "content", "department", "date"}
    ensures forall k :: k in item ==> item[k].Str?
  {
    map["title" := Str(r.title), "content" := Str(r.content),
        "department" := Str(r.department), "date" := Str(r.date)]
  }

  /** The title loses a leading "질문" (only at the front, once) and is then stripped. */
  function TitleOf(title: Option<string>): Option<string>
  {
    if title.Some? && title.value != "" && StartsWith(title.value, QUESTION_LABEL)
    then Some(Strip(title.value[|QUESTION_LABEL|..]))
    else title
  }

  /**
   * A title "질문<blanks><text>" keeps exactly its trimmed text; a title not
   * starting with the label is left as it is, even when the label occurs later.
   */
  lemma TitleLabelDropped(sp: string, t: string, other: string)
    requires forall i :: 0 <= i < |sp| ==> IsSpace(sp[i])
    requires Trimmed(t)
    requires !StartsWith(other, QUESTION_LABEL)
    ensures TitleOf(Some(QUESTION_LABEL + sp + t)) == Some(t)
    ensures TitleOf(Some(other)) == Some(other)
    ensures TitleOf(None) == None
  {
    var s := QUESTION_LABEL + sp + t;
    assert s[..|QUESTION_LABEL|] == QUESTION_LABEL;
    assert s[|QUESTION_LABEL|..] == sp + t;
    StripLeadingSpace(sp, t);
  }

  /** A field `all()` accepts: present and non-empty. */
  predicate Filled(f: Option<string>)
  {
    f.Some? && f.value != ""
  }

  /**
   * `get_detail_content`: the record of a question page, `OutOfRange` when
   * its date text is not a date of the window, or `Error` when the page, the
   * date span, the title, the content or the department tag is missing or empty.
   */
  function Resolve(site: Site, url: string, start: Date, end: Date): Outcome<Record>
  {
    match site.question(url)
    case FetchFailed => Error
    case Fetched(q) =>
      match SelectDateSpan(q.dateSpans)
      case None => Error
      case Some(raw) =>
        var date := StripDatePrefixes(raw);
        if !IsValidDate(date, start, end) then OutOfRange
        else
          var title := TitleOf(q.title);
          if Filled(title) && Filled(q.content) && Filled(q.tag)
          then Accepted(Record(title.value, q.content.value, q.tag.value, date))
          else Error
  }

  /**
   * An accepted record has every field non-empty, its title is the page's
   * title without the leading label, its content is the page's content, its
   * department is the page's tag, and its date text parses to a date within
   * the window.
   */
  lemma ResolveAccepted(site: Site, url: string, start: Date, end: Date)
    requires Resolve(site, url, start, end).Accepted?
    ensures var rec := Resolve(site, url, start, end).rec;
      && rec.title != "" && rec.content != "" && rec.department != ""
      && site.question(url).Fetched? && site.question(url).page.tag == Some(rec.department)
      && TitleOf(site.question(url).page.title) == Some(rec.title)
      && site.question(url).page.content == Some(rec.content)
      && DateOf(rec.date).Some? && Le(start, DateOf(rec.date).value) && Le(DateOf(rec.date).value, end)
      && '전' !in rec.date
  {
  }

  /** A relative date text is out of range, whatever the window. */
  lemma RelativeDateOutOfRange(site: Site, url: string, start: Date, end: Date)
    requires site.question(url).Fetched?
    requires var span := SelectDateSpan(site.question(url).page.dateSpans);
      span.Some? && '전' in span.value
    ensures Resolve(site, url, start, end) == OutOfRange
  {
    var raw := SelectDateSpan(site.question(url).page.dateSpans).value;
    assert '전' !in BUMPED_PREFIX;
    LabelsKeep(raw, '전');
  }

  // ---------------------------------------------------------------------------
  // The walk

  /** The outcome of one listing entry, `None` for an entry without a link. */
  function EntryOutcome(site: Site, item: ListingItem, start: Date, end: Date): Option<Outcome<Record>>
  {
    if item.href.Some? && item.href.value != ""
    then Some(Resolve(site, AbsoluteUrl(item.href.value), start, end))
    else None
  }

  /**
   * The entries of one page from `results` on: the cap is checked before each
   * entry; the second component says the walk was cut off by an out-of-range
   * question.
   */
  function ItemsFrom(site: Site, results: seq<Record>, items: seq<ListingItem>, start: Date, end: Date)
    : (seq<Record>, bool)
    decreases |items|
  {
    if items == [] || |results| >= MAX_POSTS_PER_MONTH then (results, false)
    else match EntryOutcome(site, items[0], start, end)
      case None => ItemsFrom(site, results, items[1..], start, end)
      case Some(OutOfRange) => (results, true)
      case Some(Error) => ItemsFrom(site, results, items[1..], start, end)
      case Some(Accepted(r)) => ItemsFrom(site, results + [r], items[1..], start, end)
  }

  /** The listing from page `page` on: stop at the cap, a failed request, an empty page or a cut-off. */
  function PagesFrom(site: Site, results: seq<Record>, listing: Listing, start: Date, end: Date, page: int)
    : seq<Record>
    requires 1 <= page
    decreases |listing| + 1 - page
  {
    if |results| >= MAX_POSTS_PER_MONTH then results
    else match PageAt(listing, page)
      case FetchFailed => results
      case Fetched(items) =>
        if items == [] then results
        else
          var (rs, cut) := ItemsFrom(site, results, items, start, end);
          if cut then rs else PagesFrom(site, rs, listing, start, end, page + 1)
  }

  /** `crawl_month(year, month, dir_id)`: the whole month is one window. */
  function CrawlMonthSpec(site: Site, year: int, month: int, dirId: string): seq<Record>
    requires 1 <= year <= 9999 && 1 <= month <= 12
  {
    var start := MonthStart(year, month);
    var end := MonthEnd(year, month);
    PagesFrom(site, [], site.listing(start, end, dirId), start, end, 1)
  }

  method CrawlMonth(site: Site, year: int, month: int, dirId: string) returns (results: seq<Record>)
    requires 1 <= year <= 9999 && 1 <= month <= 12
    ensures results == CrawlMonthSpec(site, year, month, dirId)
  {
    var start := MonthStart(year, month);
    var end := MonthEnd(year, month);
    var listing := site.listing(start, end, dirId);
    results := [];
    var page := 1;
    while |results| < MAX_POSTS_PER_MONTH
      invariant 1 <= page
      invariant PagesFrom(site, results, listing, start, end, page) == CrawlMonthSpec(site, year, month, dirId)
      decreases |listing| + 1 - page
    {
      var fetched := PageAt(listing, page);
      if fetched.FetchFailed? || fetched.page == [] {
        break;
      }
      var items := fetched.page;
      ghost var pageStart := results;
      var i := 0;
      while i < |items|
        invariant 0 <= i <= |items|
        invariant ItemsFrom(site, results, items[i..], start, end) == ItemsFrom(site, pageStart, items, start, end)
      {
        if |results| >= MAX_POSTS_PER_MONTH {
          break;
        }
        assert items[i..][1..] == items[i + 1..];
        var href := items[i].href;
        if href.Some? && href.value != "" {
          var result := Resolve(site, AbsoluteUrl(href.value), start, end);
          if result.OutOfRange? {
            return;
          } else if result.Accepted? {
            results := results + [result.rec];
          }
        }
        i := i + 1;
      }
      assert ItemsFrom(site, pageStart, items, start, end) == (results, false);
      page := page + 1;
    }
  }

  // ---------------------------------------------------------------------------
  // The walk against a reference definition

  /** The outcomes of the linked entries of a page, in order. */
  function PageOutcomes(site: Site, items: seq<ListingItem>, start: Date, end: Date): seq<Outcome<Record>>
    decreases |items|
  {
    if items == [] then []
    else
      var rest := PageOutcomes(site, items[1..], start, end);
      match EntryOutcome(site, items[0], start, end)
      case None => rest
      case Some(o) => [o] + rest
  }

  /** The outcomes of every linked entry from page `page` up to the first failed or empty page. */
  function Outcomes(site: Site, listing: Listing, start: Date, end: Date, page: int): seq<Outcome<Record>>
    requires 1 <= page
    decreases |listing| + 1 - page
  {
    match PageAt(listing, page)
    case FetchFailed => []
    case Fetched(items) =>
      if items == [] then []
      else PageOutcomes(site, items, start, end) + Outcomes(site, listing, start, end, page + 1)
  }

  /** The records of the accepted outcomes before the first out-of-range one. */
  function Harvest(os: seq<Outcome<Record>>): seq<Record>
    decreases |os|
  {
    if os == [] then []
    else match os[0]
      case OutOfRange => []
      case Error => Harvest(os[1..])
      case Accepted(r) => [r] + Harvest(os[1..])
  }

  /** The first `n` elements, or all of them. */
  function Take<T>(s: seq<T>, n: nat): (r: seq<T>)
    ensures |r| <= n && (|s| <= n ==> r == s) && (|s| > n ==> r == s[..n])
  {
    if |s| <= n then s else s[..n]
  }

  lemma {:induction false} HarvestAppend(a: seq<Outcome<Record>>, b: seq<Outcome<Record>>)
    ensures Harvest(a + b) == Harvest(a) + (if OutOfRange in a then [] else Harvest(b))
    decreases |a|
  {
    if a == [] {
      assert a + b == b;
    } else {
      assert (a + b)[0] == a[0];
      assert (a + b)[1..] == a[1..] + b;
      HarvestAppend(a[1..], b);
      assert OutOfRange in a <==> a[0] == OutOfRange || OutOfRange in a[1..];
    }
  }

  /** Everything after an out-of-range outcome is ignored. */
  lemma HarvestStopsAtCut(os: seq<Outcome<Record>>, k: int)
    requires 0 <= k < |os| && os[k] == OutOfRange
    ensures Harvest(os) == Harvest(os[..k])
  {
    assert os == os[..k] + os[k..];
    HarvestAppend(os[..k], os[k..]);
    assert Harvest(os[k..]) == [];
    if OutOfRange in os[..k] {
      var j :| 0 <= j < k && os[..k][j] == OutOfRange;
      assert os[..k] == os[..k][..j] + os[..k][j..];
      HarvestAppend(os[..k][..j], os[..k][j..]);
    }
  }

  lemma TakeAppend<T>(a: seq<T>, b: seq<T>, n: nat)
    ensures Take(Take(a, n) + b, n) == Take(a + b, n)
  {
    if |a| > n {
      assert (a[..n] + b)[..n] == a[..n];
      assert (a + b)[..n] == a[..n];
    }
  }

  /** One page's walk, read off the outcomes of its linked entries. */
  function Walk(results: seq<Record>, os: seq<Outcome<Record>>): (seq<Record>, bool)
    decreases |os|
  {
    if os == [] || |results| >= MAX_POSTS_PER_MONTH then (results, false)
    else match os[0]
      case OutOfRange => (results, true)
      case Error => Walk(results, os[1..])
      case Accepted(r) => Walk(results + [r], os[1..])
  }

  lemma {:induction false} ItemsWalk(site: Site, results: seq<Record>, items: seq<ListingItem>, start: Date, end: Date)
    ensures ItemsFrom(site, results, items, start, end) == Walk(results, PageOutcomes(site, items, start, end))
    decreases |items|
  {
    if items != [] && |results| < MAX_POSTS_PER_MONTH {
      var e := EntryOutcome(site, items[0], start, end);
      var rest := PageOutcomes(site, items[1..], start, end);
      if e.None? {
        ItemsWalk(site, results, items[1..], start, end);
      } else {
        var os := [e.value] + rest;
        assert PageOutcomes(site, items, start, end) == os;
        assert os[1..] == rest;
        ItemsWalk(site, results, items[1..], start, end);
        if e.value.Accepted? {
          ItemsWalk(site, results + [e.value.rec], items[1..], start, end);
        }
      }
    }
  }

  /** One page's walk is the reference harvest of its outcomes, cut at the cap. */
  lemma {:induction false} WalkHarvest(results: seq<Record>, os: seq<Outcome<Record>>)
    requires |results| <= MAX_POSTS_PER_MONTH
    ensures var (rs, cut) := Walk(results, os);
      && rs == Take(results + Harvest(os), MAX_POSTS_PER_MONTH)
      && (cut ==> OutOfRange in os)
      && (!cut && |rs| < MAX_POSTS_PER_MONTH ==> OutOfRange !in os)
    decreases |os|
  {
    if os == [] {
      assert results + [] == results;
    } else if |results| >= MAX_POSTS_PER_MONTH {
      assert (results + Harvest(os))[..MAX_POSTS_PER_MONTH] == results;
    } else {
      match os[0]
      case OutOfRange =>
        assert results + [] == results;
      case Error =>
        WalkHarvest(results, os[1..]);
        assert OutOfRange in os <==> OutOfRange in os[1..] by { assert os == [os[0]] + os[1..]; }
      case Accepted(r) =>
        WalkHarvest(results + [r], os[1..]);
        assert results + [r] + Harvest(os[1..]) == results + Harvest(os);
        assert OutOfRange in os <==> OutOfRange in os[1..] by { assert os == [os[0]] + os[1..]; }
    }
  }

  /** One page's entries are the reference harvest of their outcomes, cut at the cap. */
  lemma ItemsHarvest(site: Site, results: seq<Record>, items: seq<ListingItem>, start: Date, end: Date)
    requires |results| <= MAX_POSTS_PER_MONTH
    ensures var (rs, cut) := ItemsFrom(site, results, items, start, end);
      var os := PageOutcomes(site, items, start, end);
      && rs == Take(results + Harvest(os), MAX_POSTS_PER_MONTH)
      && (cut ==> OutOfRange in os)
      && (!cut && |rs| < MAX_POSTS_PER_MONTH ==> OutOfRange !in os)
  {
    ItemsWalk(site, results, items, start, end);
    WalkHarvest(results, PageOutcomes(site, items, start, end));
  }

  lemma {:induction false} PagesHarvest(site: Site, results: seq<Record>, listing: Listing, start: Date, end: Date, page: int)
    requires 1 <= page
    requires |results| <= MAX_POSTS_PER_MONTH
    ensures PagesFrom(site, results, listing, start, end, page)
         == Take(results + Harvest(Outcomes(site, listing, start, end, page)), MAX_POSTS_PER_MONTH)
    decreases |listing| + 1 - page
  {
    var os := Outcomes(site, listing, start, end, page);
    if |results| >= MAX_POSTS_PER_MONTH {
      assert (results + Harvest(os))[..MAX_POSTS_PER_MONTH] == results;
    } else {
      match PageAt(listing, page)
      case FetchFailed =>
        assert results + [] == results;
      case Fetched(items) =>
        if items == [] {
          assert results + [] == results;
        } else {
          var po := PageOutcomes(site, items, start, end);
          var more := Outcomes(site, listing, start, end, page + 1);
          assert os == po + more;
          HarvestAppend(po, more);
          ItemsHarvest(site, results, items, start, end);
          var (rs, cut) := ItemsFrom(site, results, items, start, end);
          if !cut {
            PagesHarvest(site, rs, listing, start, end, page + 1);
            if OutOfRange in po {
              assert rs + Harvest(Outcomes(site, listing, start, end, page + 1)) == rs + Harvest(more);
            } else if |rs| < MAX_POSTS_PER_MONTH {
              assert results + Harvest(os) == results + Harvest(po) + Harvest(more);
            } else {
              TakeAppend(results + Harvest(po), Harvest(more), MAX_POSTS_PER_MONTH);
              assert results + Harvest(os) == (results + Harvest(po)) + Harvest(more);
            }
          }
        }
    }
  }

  /**
   * The month's records are the first `MAX_POSTS_PER_MONTH` accepted records
   * among the linked entries, in listing order, up to the first out-of-range
   * question: errors are skipped, the first out-of-range question ends
   * everything, and the cap is never exceeded.
   */
  lemma CrawlMonthReference(site: Site, year: int, month: int, dirId: string)
    requires 1 <= year <= 9999 && 1 <= month <= 12
    ensures var start := MonthStart(year, month);
      var end := MonthEnd(year, month);
      CrawlMonthSpec(site, year, month, dirId)
        == Take(Harvest(Outcomes(site, site.listing(start, end, dirId), start, end, 1)), MAX_POSTS_PER_MONTH)
  {
    var start := MonthStart(year, month);
    var end := MonthEnd(year, month);
    PagesHarvest(site, [], site.listing(start, end, dirId), start, end, 1);
    assert [] + Harvest(Outcomes(site, site.listing(start, end, dirId), start, end, 1))
        == Harvest(Outcomes(site, site.listing(start, end, dirId), start, end, 1));
  }

  /** The records harvested from outcomes are exactly the accepted ones, each in the order met. */
  lemma {:induction false} HarvestAccepted(os: seq<Outcome<Record>>, i: int)
    requires 0 <= i < |Harvest(os)|
    ensures Accepted(Harvest(os)[i]) in os
    decreases |os|
  {
    match os[0]
    case OutOfRange =>
    case Error =>
      HarvestAccepted(os[1..], i);
    case Accepted(r) =>
      if i > 0 {
        HarvestAccepted(os[1..], i - 1);
      }
  }

  /** What every accepted record satisfies within the window `start`..`end`. */
  predicate Sound(r: Record, start: Date, end: Date)
  {
    r.title != "" && r.content != "" && r.department != "" && '전' !in r.date
    && IsValidDate(r.date, start, end)
  }

  lemma ResolveSound(site: Site, url: string, start: Date, end: Date)
    requires Resolve(site, url, start, end).Accepted?
    ensures Sound(Resolve(site, url, start, end).rec, start, end)
  {
  }

  lemma {:induction false} PageOutcomesSound(site: Site, items: seq<ListingItem>, start: Date, end: Date)
    ensures forall o :: o in PageOutcomes(site, items, start, end) && o.Accepted? ==> Sound(o.rec, start, end)
    decreases |items|
  {
    if items != [] {
      PageOutcomesSound(site, items[1..], start, end);
      if items[0].href.Some? && items[0].href.value != "" {
        var url := AbsoluteUrl(items[0].href.value);
        if Resolve(site, url, start, end).Accepted? {
          ResolveSound(site, url, start, end);
        }
      }
    }
  }

  lemma {:induction false} OutcomesSound(site: Site, listing: Listing, start: Date, end: Date, page: int)
    requires 1 <= page
    ensures forall o :: o in Outcomes(site, listing, start, end, page) && o.Accepted? ==> Sound(o.rec, start, end)
    decreases |listing| + 1 - page
  {
    match PageAt(listing, page)
    case FetchFailed =>
    case Fetched(items) =>
      if items != [] {
        PageOutcomesSound(site, items, start, end);
        OutcomesSound(site, listing, start, end, page + 1);
      }
  }

  /**
   * Every record of a month's crawl has a title, content and department, its
   * date text is not relative and is a date of that month; and there are
   * never more than `MAX_POSTS_PER_MONTH` of them.
   */
  lemma CrawlMonthRecords(site: Site, year: int, month: int, dirId: string)
    requires 1 <= year <= 9999 && 1 <= month <= 12
    ensures var rs := CrawlMonthSpec(site, year, month, dirId);
      |rs| <= MAX_POSTS_PER_MONTH
      && forall i :: 0 <= i < |rs| ==> Sound(rs[i], MonthStart(year, month), MonthEnd(year, month))
  {
    var start := MonthStart(year, month);
    var end := MonthEnd(year, month);
    var os := Outcomes(site, site.listing(start, end, dirId), start, end, 1);
    CrawlMonthReference(site, year, month, dirId);
    OutcomesSound(site, site.listing(start, end, dirId), start, end, 1);
    var rs := CrawlMonthSpec(site, year, month, dirId);
    forall i | 0 <= i < |rs|
      ensures Sound(rs[i], start, end)
    {
      assert rs[i] == Harvest(os)[i];
      HarvestAccepted(os, i);
      assert Accepted(rs[i]) in os;
    }
  }

  /**
   * An out-of-range question as the first linked entry of the first page
   * leaves the month empty, whatever follows it.
   */
  lemma FirstOutOfRangeEmpties(site: Site, year: int, month: int, dirId: string)
    requires 1 <= year <= 9999 && 1 <= month <= 12
    requires var start := MonthStart(year, month);
      var end := MonthEnd(year, month);
      var os := Outcomes(site, site.listing(start, end, dirId), start, end, 1);
      os != [] && os[0] == OutOfRange
    ensures CrawlMonthSpec(site, year, month, dirId) == []
  {
    CrawlMonthReference(site, year, month, dirId);
  }
}
