/**
 * The date-windowed crawler (`crawler/naver_crawler_v2.py`): a month is split
 * into one-day search windows; each window's listing is read page by page,
 * every linked question is resolved into a record, and every record is both
 * returned and appended to the department's file of the training corpus.
 */
module CrawlerV2 {
  import opened Wrappers
  import opened Text
  import opened Calendar
  import opened DateParse
  import opened Pages
  import opened Storage
  import opened DateField

  const MAX_POSTS_PER_MONTH := 7000
  const MAX_PAGE := 100

  /** What the profile helpers return when the page or the field is missing. */
  const ERROR := "ERROR"
  const SPECIALIST := "전문의"
  const DENTIST := "치과의사"
  const DENTISTRY := "치과"
  const QUESTION_LABEL := "질문"
  const UNSORTED_FILE := "미분류_train.json"
  const TRAIN_SUFFIX := "_train.json"

  /**
   * The site as the crawler sees it: the listing of a search window
   * (start day, end day), the question page behind a URL, and the profile
   * page behind a URL.
   */
  datatype Site = Site(
    listing: (Date, Date) -> Listing,
    question: string -> Fetch<QuestionPage>,
    profile: string -> Fetch<ProfilePage>)

  /** One harvested question: the `data` dictionary of the crawler. */
  datatype Record = Record(
    title: Option<string>,
    content: Option<string>,
    department: string,
    date: string,
    questionUrl: string,
    answerUrl: string,
    doctor: string)

  /** The JSON object a record is written as. */
  function ToItem(r: Record): (item: Item)
    ensures item.Keys == {"title", "content", "department", "date", "question_url", "answer_url", "doctor"}
    ensures item["department"] == Str(r.department) && item["date"] == Str(r.date)
    ensures item["title"] == OptValue(r.title) && item["content"] == OptValue(r.content)
  {
    map["title" := OptValue(r.title), "content" := OptValue(r.content),
        "department" := Str(r.department), "date" := Str(r.date),
        "question_url" := Str(r.questionUrl), "answer_url" := Str(r.answerUrl),
        "doctor" := Str(r.doctor)]
  }

  // ---------------------------------------------------------------------------
  // Profile pages

  /**
   * The department named by a profile's specialty line: any dentist is filed
   * under dentistry; otherwise every "specialist" word is removed and the
   * rest stripped.
   */
  function NormalizeSpecialty(raw: string): (dept: string)
    ensures Contains(raw, DENTIST) ==> dept == DENTISTRY
    ensures Trimmed(dept)
  {
    if Contains(raw, DENTIST) then DENTISTRY else Strip(Replace(raw, SPECIALIST, ""))
  }

  /**
   * `extract_department`: "ERROR" for a failed request or a missing
   * specialty line; any other result is that line, normalised.
   */
  function ExtractDepartment(profile: Fetch<ProfilePage>): (dept: string)
    ensures profile.FetchFailed? || profile.page.specialty.None? ==> dept == ERROR
    ensures dept != ERROR ==>
      profile.Fetched? && profile.page.specialty.Some? && dept == NormalizeSpecialty(profile.page.specialty.value)
  {
    if profile.FetchFailed? || profile.page.specialty.None? then ERROR
    else NormalizeSpecialty(profile.page.specialty.value)
  }

  /** `extract_doctor_name`: "ERROR" for a failed request or a missing name; otherwise the name. */
  function ExtractDoctorName(profile: Fetch<ProfilePage>): (name: string)
    ensures profile.FetchFailed? || profile.page.name.None? ==> name == ERROR
    ensures name != ERROR ==> profile.Fetched? && profile.page.name == Some(name)
  {
    if profile.FetchFailed? || profile.page.name.None? then ERROR
    else profile.page.name.value
  }

  /**
   * A specialty line "<name><blanks>전문의" yields the name, and so does the
   * bare name, when the name is trimmed and holds neither '전' nor '사'.
   */
  lemma SpecialistSuffixDropped(name: string, sp: string)
    requires Trimmed(name) && '전' !in name && '사' !in name
    requires forall i :: 0 <= i < |sp| ==> IsSpace(sp[i])
    ensures NormalizeSpecialty(name + sp + SPECIALIST) == name
    ensures NormalizeSpecialty(name) == name
  {
    var a := name + sp;
    var s := a + SPECIALIST;
    assert '사' !in s by {
      forall i | 0 <= i < |s| ensures s[i] != '사' {
        if i < |name| { assert s[i] == name[i]; }
        else if i < |a| { assert IsSpace(a[i]); }
        else { assert s[i] == SPECIALIST[i - |a|]; }
      }
    }
    if Contains(s, DENTIST) {
      ContainsChars(s, DENTIST, 3);
      assert false;
    }
    assert '전' !in a by {
      forall i | 0 <= i < |a| ensures a[i] != '전' {
        if i < |name| { assert a[i] == name[i]; } else { assert IsSpace(a[i]); }
      }
    }
    ReplaceAfterPlain(a, SPECIALIST, SPECIALIST, "");
    assert StartsWith(SPECIALIST, SPECIALIST);
    assert SPECIALIST[|SPECIALIST|..] == [];
    assert Replace(SPECIALIST, SPECIALIST, "") == "";
    assert Replace(s, SPECIALIST, "") == a;
    StripTrailingSpace(name, sp);
    if Contains(name, DENTIST) {
      ContainsChars(name, DENTIST, 3);
      assert false;
    }
    ReplaceAbsent(name, SPECIALIST, "");
    StripTrimmed(name);
  }

  /** A line without the dentist word's first character never names a dentist. */
  lemma NoDentist(s: string)
    requires DENTIST[0] !in s
    ensures !Contains(s, DENTIST)
  {
    if Contains(s, DENTIST) {
      ContainsChars(s, DENTIST, 0);
    }
  }

  /** The specialty line that is the specialist word alone names the empty department. */
  lemma SpecialistAlone()
    ensures NormalizeSpecialty(SPECIALIST) == ""
  {
    NoDentist(SPECIALIST);
    assert StartsWith(SPECIALIST, SPECIALIST);
    assert SPECIALIST[|SPECIALIST|..] == [];
    assert Replace(SPECIALIST, SPECIALIST, "") == "";
  }

  lemma SpecialistJoined()
    ensures Replace("전전문의문의", SPECIALIST, "") == SPECIALIST
  {
    var s := "전전문의문의";
    assert !StartsWith(s, SPECIALIST) by {
      assert s[..3][1] == s[1] == '전' != SPECIALIST[1];
    }
    var t := s[1..];
    assert t[..3] == SPECIALIST && t[3..] == "문의";
    ReplaceAbsent("문의", SPECIALIST, "");
    assert Replace(t, SPECIALIST, "") == "문의";
  }

  /**
   * The specialist word is removed in one pass only: a line in which removing
   * it brings two halves together still names a "specialist" department, and
   * normalising that again gives the empty department.
   */
  lemma SpecialistRemovedOnce()
    ensures NormalizeSpecialty("전전문의문의") == SPECIALIST
    ensures NormalizeSpecialty(SPECIALIST) == ""
  {
    NoDentist("전전문의문의");
    SpecialistJoined();
    StripTrimmed(SPECIALIST);
    SpecialistAlone();
  }

  // ---------------------------------------------------------------------------
  // The corpus files

  /** The file a department's records are appended to; the empty department is "unsorted". */
  function FileFor(dept: string): (name: string)
    ensures EndsWith(name, TRAIN_SUFFIX)
  {
    if dept == "" then UNSORTED_FILE else dept + TRAIN_SUFFIX
  }

  lemma {:induction false} SuffixCancels(x: string, y: string, suffix: string)
    requires x + suffix == y + suffix
    ensures x == y
  {
    assert |x| == |y|;
    assert x == (x + suffix)[..|x|];
    assert y == (y + suffix)[..|y|];
  }

  /**
   * Two departments share a file exactly when they are equal or are the
   * empty department and "미분류" itself.
   */
  lemma FileForShared(a: string, b: string)
    ensures FileFor(a) == FileFor(b) <==>
      a == b || (a == "" && b == "미분류") || (a == "미분류" && b == "")
  {
    assert UNSORTED_FILE == "미분류" + TRAIN_SUFFIX;
    var fa := if a == "" then "미분류" else a;
    var fb := if b == "" then "미분류" else b;
    assert FileFor(a) == fa + TRAIN_SUFFIX;
    assert FileFor(b) == fb + TRAIN_SUFFIX;
    if FileFor(a) == FileFor(b) {
      SuffixCancels(fa, fb, TRAIN_SUFFIX);
    }
  }

  /**
   * `save_to_file`: the department's file, read back (a missing file is an
   * empty list), gets the record appended; a file that does not decode makes
   * the save fail and nothing is written.
   */
  function Save(files: map<string, Doc>, dept: string, item: Item): (r: Option<map<string, Doc>>)
    ensures r.None? <==> FileFor(dept) in files && files[FileFor(dept)].Undecodable?
    ensures r.Some? ==> r.value.Keys == files.Keys + {FileFor(dept)}
    ensures r.Some? ==> r.value[FileFor(dept)] == Items(Loaded(files, FileFor(dept)) + [item])
    ensures r.Some? ==> forall name :: name in files && name != FileFor(dept) ==> r.value[name] == files[name]
  {
    var name := FileFor(dept);
    if name in files && files[name].Undecodable? then None
    else Some(files[name := Items(Loaded(files, name) + [item])])
  }

  /** The records each file holds after a successful save: one more in the department's file. */
  lemma SaveAppends(files: map<string, Doc>, dept: string, item: Item, name: string)
    requires Save(files, dept, item).Some?
    ensures Loaded(Save(files, dept, item).value, name)
         == Loaded(files, name) + if FileFor(dept) == name then [item] else []
  {
  }

  method SaveToFile(fs: Directory, item: Item, dept: string) returns (ok: bool)
    modifies fs
    ensures ok == Save(old(fs.files), dept, item).Some?
    ensures fs.files == if ok then Save(old(fs.files), dept, item).value else old(fs.files)
  {
    var name := if dept == "" then UNSORTED_FILE else dept + TRAIN_SUFFIX;
    var existing: seq<Item> := [];
    if name in fs.files {
      match fs.files[name]
      case Undecodable => return false;
      case Items(xs) => existing := xs;
    }
    existing := existing + [item];
    fs.files := fs.files[name := Items(existing)];
    ok := true;
  }

  // ---------------------------------------------------------------------------
  // One question page

  /** An answer block from a specialist whose card carries a profile link. */
  predicate IsExpert(b: AnswerBlock)
  {
    b.badge == Some(SPECIALIST) && b.profileHref.Some?
  }

  /** The first expert answer block, if any. */
  function FirstExpert(answers: seq<AnswerBlock>): (r: Option<nat>)
    ensures r.Some? ==> r.value < |answers| && IsExpert(answers[r.value])
    ensures r.Some? ==> forall j :: 0 <= j < r.value ==> !IsExpert(answers[j])
    ensures r.None? ==> forall j :: 0 <= j < |answers| ==> !IsExpert(answers[j])
  {
    if answers == [] then None
    else if IsExpert(answers[0]) then Some(0)
    else match FirstExpert(answers[1..])
      case None => None
      case Some(i) => Some(i + 1)
  }

  /** The scan over the answer blocks that stops at the first expert. */
  method FindExpertProfile(answers: seq<AnswerBlock>) returns (found: bool, profileUrl: Option<string>)
    ensures found <==> FirstExpert(answers).Some?
    ensures found ==> profileUrl.Some? && profileUrl == answers[FirstExpert(answers).value].profileHref
  {
    found := false;
    profileUrl := None;
    var i := 0;
    while i < |answers|
      invariant 0 <= i <= |answers|
      invariant forall j :: 0 <= j < i ==> !IsExpert(answers[j])
    {
      if answers[i].badge == Some(SPECIALIST) && answers[i].profileHref.Some? {
        profileUrl := answers[i].profileHref;
        found := true;
        break;
      }
      i := i + 1;
    }
  }

  /** The title text with every "질문" word removed and stripped. */
  function TitleText(t: string): string
  {
    Strip(Replace(t, QUESTION_LABEL, ""))
  }

  /**
   * `get_detail_content` without the save: the record a question page
   * yields, `OutOfRange` when its date text is not a date in the window, or
   * `Error`. The expert block found by the loop only decides whether the page
   * is kept: the department and doctor come from the profile of the first
   * profile-card link under any `_contentBox` on the page, which belongs to a
   * later block when the first block has no profile card.
   */
  function Resolve(site: Site, url: string, start: Date, end: Date): Outcome<Record>
  {
    match site.question(url)
    case FetchFailed => Error
    case Fetched(q) =>
      match SelectDateSpan(q.dateSpans)
      case None => Error
      case Some(raw) =>
        var date := StripDatePrefixes(raw);
        if !IsValidDate(date, start, end) then OutOfRange
        else
          var title := if q.title.Some? then Some(TitleText(q.title.value)) else None;
          match FirstExpert(q.answers)
          case None => Error
          case Some(i) =>
            if q.answers[i].profileHref.value == "" || q.leadProfileHref.None? then Error
            else
              var profileUrl := AbsoluteUrl(q.leadProfileHref.value);
              var dept := ExtractDepartment(site.profile(profileUrl));
              var doctor := ExtractDoctorName(site.profile(profileUrl));
              if dept == ERROR || doctor == ERROR then Error
              else Accepted(Record(title, q.content, dept, date, url, profileUrl, doctor))
  }

  /** `get_detail_content`: resolve, then save; a failed save is an error. */
  function DetailStep(site: Site, files: map<string, Doc>, url: string, start: Date, end: Date)
    : (Outcome<Record>, map<string, Doc>)
  {
    var o := Resolve(site, url, start, end);
    if !o.Accepted? then (o, files)
    else match Save(files, o.rec.department, ToItem(o.rec))
      case None => (Error, files)
      case Some(saved) => (o, saved)
  }

  method GetDetailContent(site: Site, fs: Directory, url: string, start: Date, end: Date)
    returns (r: Outcome<Record>)
    modifies fs
    ensures (r, fs.files) == DetailStep(site, old(fs.files), url, start, end)
  {
    var fetched := site.question(url);
    if fetched.FetchFailed? {
      return Error;
    }
    var q := fetched.page;
    var span := SelectDateSpan(q.dateSpans);
    if span.None? {
      return Error;
    }
    var date := StripDatePrefixes(span.value);
    if !IsValidDate(date, start, end) {
      return OutOfRange;
    }
    var title := if q.title.Some? then Some(TitleText(q.title.value)) else None;
    var found, expertUrl := FindExpertProfile(q.answers);
    if !found || expertUrl.value == "" {
      return Error;
    }
    if q.leadProfileHref.None? {
      return Error;
    }
    var profileUrl := AbsoluteUrl(q.leadProfileHref.value);
    var dept := ExtractDepartment(site.profile(profileUrl));
    if dept == ERROR {
      return Error;
    }
    var doctor := ExtractDoctorName(site.profile(profileUrl));
    if doctor == ERROR {
      return Error;
    }
    var rec := Record(title, q.content, dept, date, url, profileUrl, doctor);
    var saved := SaveToFile(fs, ToItem(rec), dept);
    if !saved {
      return Error;
    }
    r := Accepted(rec);
  }

  /**
   * What an accepted record guarantees: its date text parses to a date in
   * the window and is not relative, the page had an expert answer with a
   * profile link, the answer URL is the absolute form of the page's first
   * profile-card link under a `_contentBox`, whichever block holds it, and
   * the profile fetched from that URL supplies the department (its specialty
   * line, normalised) and the doctor (its name), neither being "ERROR".
   */
  lemma ResolveAccepted(site: Site, url: string, start: Date, end: Date)
    requires Resolve(site, url, start, end).Accepted?
    ensures var rec := Resolve(site, url, start, end).rec;
      && DateOf(rec.date).Some? && Le(start, DateOf(rec.date).value) && Le(DateOf(rec.date).value, end)
      && '전' !in rec.date
      && rec.department != ERROR && rec.doctor != ERROR
      && rec.questionUrl == url
      && site.question(url).Fetched?
      && FirstExpert(site.question(url).page.answers).Some?
      && site.question(url).page.leadProfileHref.Some?
      && rec.answerUrl == AbsoluteUrl(site.question(url).page.leadProfileHref.value)
      && StartsWith(rec.answerUrl, "http")
      && site.profile(rec.answerUrl).Fetched?
      && site.profile(rec.answerUrl).page.specialty.Some?
      && rec.department == NormalizeSpecialty(site.profile(rec.answerUrl).page.specialty.value)
      && site.profile(rec.answerUrl).page.name == Some(rec.doctor)
  {
  }

  /**
   * A relative date text ("3시간 전", with or without a label) is never
   * accepted: the page counts as out of range.
   */
  lemma RelativeDateOutOfRange(site: Site, url: string, start: Date, end: Date)
    requires site.question(url).Fetched?
    requires var span := SelectDateSpan(site.question(url).page.dateSpans);
      span.Some? && '전' in span.value
    ensures Resolve(site, url, start, end) == OutOfRange
  {
    var raw := SelectDateSpan(site.question(url).page.dateSpans).value;
    assert '전' !in BUMPED_PREFIX;
    LabelsKeep(raw, '전');
  }

  /**
   * Once the page is fetched and the date span found, the page is out of
   * range exactly when the date text, labels removed, is not a date of the
   * window; every later failure is an error instead.
   */
  lemma OutOfRangeIffDateRejected(site: Site, url: string, start: Date, end: Date)
    requires site.question(url).Fetched?
    requires SelectDateSpan(site.question(url).page.dateSpans).Some?
    ensures var raw := SelectDateSpan(site.question(url).page.dateSpans).value;
      Resolve(site, url, start, end) == OutOfRange <==> !IsValidDate(StripDatePrefixes(raw), start, end)
  {
  }

  /** A printed date "YYYY.MM.DD." is trimmed and holds no label character. */
  lemma PrintedDateUnlabelled(d: Date)
    requires Valid(d)
    ensures var t := Render(d) + "."; Trimmed(t) && '끌' !in t && '작' !in t
  {
    var t := Render(d) + ".";
    RenderShape(d);
    forall i | 0 <= i < |t| ensures t[i] != '끌' && t[i] != '작' {
      if i < |Render(d)| { assert t[i] == Render(d)[i]; }
    }
    assert t[0] == Render(d)[0];
  }

  /** A printed date "YYYY.MM.DD." after either label, or bare, is what remains once labels are removed. */
  lemma LabelledPrintedDate(d: Date, lbl: string, sp: string)
    requires Valid(d)
    requires lbl == "" || lbl == WRITTEN_PREFIX || lbl == BUMPED_PREFIX
    requires forall i :: 0 <= i < |sp| ==> IsSpace(sp[i])
    requires lbl == "" ==> sp == ""
    ensures StripDatePrefixes(lbl + sp + Render(d) + ".") == Render(d) + "."
  {
    var t := Render(d) + ".";
    PrintedDateUnlabelled(d);
    assert lbl + sp + Render(d) + "." == lbl + sp + t;
    if lbl == "" {
      assert lbl + sp + t == t;
      UnlabelledKept(t);
    } else if lbl == WRITTEN_PREFIX {
      WrittenLabelRemoved(sp, t);
    } else {
      BumpedLabelRemoved(sp, t);
    }
  }

  /**
   * A printed date "YYYY.MM.DD." after either label (or none) decides
   * out-of-range exactly by the window: the page is out of range if and only
   * if the date lies outside it.
   */
  lemma LabelledDateDecides(site: Site, url: string, start: Date, end: Date, d: Date, lbl: string, sp: string)
    requires Valid(d)
    requires lbl == "" || lbl == WRITTEN_PREFIX || lbl == BUMPED_PREFIX
    requires forall i :: 0 <= i < |sp| ==> IsSpace(sp[i])
    requires lbl == "" ==> sp == ""
    requires site.question(url).Fetched?
    requires SelectDateSpan(site.question(url).page.dateSpans) == Some(lbl + sp + Render(d) + ".")
    ensures Resolve(site, url, start, end) == OutOfRange <==> !(Le(start, d) && Le(d, end))
  {
    LabelledPrintedDate(d, lbl, sp);
    OutOfRangeIffDateRejected(site, url, start, end);
    PrintedDateValid(d, start, end);
  }

  // ---------------------------------------------------------------------------
  // The month walk

  /**
   * What handling one question URL does for a one-day window: the outcome
   * and the corpus files afterwards. The walk below is stated for any such
   * step; `StepOf` is the one the crawler takes.
   */
  type Step = (map<string, Doc>, string, Date) -> (Outcome<Record>, map<string, Doc>)

  function StepOf(site: Site): Step
  {
    (files: map<string, Doc>, url: string, day: Date) => DetailStep(site, files, url, day, day)
  }

  /** The crawl's state: the records gathered so far and the corpus files. */
  datatype Crawl = Crawl(results: seq<Record>, files: map<string, Doc>)

  /** One listing entry: an entry with a non-empty link is resolved and saved within the day's window. */
  function Visit(step: Step, st: Crawl, item: ListingItem, day: Date): Crawl
  {
    if item.href.Some? && item.href.value != "" then
      var r := step(st.files, AbsoluteUrl(item.href.value), day);
      Crawl(if r.0.Accepted? then st.results + [r.0.rec] else st.results, r.1)
    else st
  }

  /** The entries of one listing page, in order; none of them stops the others. */
  function ItemsFrom(step: Step, st: Crawl, items: seq<ListingItem>, day: Date): Crawl
    decreases |items|
  {
    if items == [] then st else ItemsFrom(step, Visit(step, st, items[0], day), items[1..], day)
  }

  /**
   * The listing of one day from page `page` on: stop at the cap, after
   * `MAX_PAGE` pages, at a failed request or at an empty page.
   */
  function PagesFrom(step: Step, st: Crawl, listing: Listing, day: Date, page: int): Crawl
    decreases MAX_PAGE + 1 - page
  {
    if |st.results| >= MAX_POSTS_PER_MONTH || page > MAX_PAGE then st
    else match PageAt(listing, page)
      case FetchFailed => st
      case Fetched(items) =>
        if items == [] then st
        else PagesFrom(step, ItemsFrom(step, st, items, day), listing, day, page + 1)
  }

  /** Day `d` of the month: its one-day window's listing from the first page. */
  function DayFrom(listings: (Date, Date) -> Listing, step: Step, st: Crawl, year: int, month: int, d: int): Crawl
  {
    var day := Date(year, month, d);
    PagesFrom(step, st, listings(day, day), day, 1)
  }

  /**
   * The days `d`, `d + 1`, …, `last` of the month, each its own one-day
   * window; stop at the cap.
   */
  function DaysFrom(listings: (Date, Date) -> Listing, step: Step, st: Crawl, year: int, month: int, d: int, last: int): Crawl
    decreases last + 1 - d
  {
    if d > last || |st.results| >= MAX_POSTS_PER_MONTH then st
    else DaysFrom(listings, step, DayFrom(listings, step, st, year, month, d), year, month, d + 1, last)
  }

  /** `crawl_month(year, month)`: the records returned and the corpus left behind. */
  function CrawlMonthSpec(site: Site, files: map<string, Doc>, year: int, month: int): Crawl
    requires 1 <= month <= 12
  {
    DaysFrom(site.listing, StepOf(site), Crawl([], files), year, month, 1, DaysInMonth(year, month))
  }

  /** The crawl as a walk over a sequence of one-day windows, stopping at the cap. */
  function WindowsFrom(listings: (Date, Date) -> Listing, step: Step, st: Crawl, days: seq<Date>): Crawl
    decreases |days|
  {
    if days == [] || |st.results| >= MAX_POSTS_PER_MONTH then st
    else WindowsFrom(listings, step, PagesFrom(step, st, listings(days[0], days[0]), days[0], 1), days[1..])
  }

  /** The days from `d` on are the windows of `MonthDays` from position `d - 1` on. */
  lemma {:induction false} DaysFromWindows(listings: (Date, Date) -> Listing, step: Step, st: Crawl, year: int, month: int, d: int)
    requires 1 <= year <= 9999 && 1 <= month <= 12 && 1 <= d <= DaysInMonth(year, month) + 1
    ensures DaysFrom(listings, step, st, year, month, d, DaysInMonth(year, month))
         == WindowsFrom(listings, step, st, MonthDays(year, month)[d - 1..])
    decreases DaysInMonth(year, month) + 1 - d
  {
    var last := DaysInMonth(year, month);
    var days := MonthDays(year, month)[d - 1..];
    if d <= last && |st.results| < MAX_POSTS_PER_MONTH {
      assert days[0] == Date(year, month, d);
      assert days[1..] == MonthDays(year, month)[d..];
      DaysFromWindows(listings, step, DayFrom(listings, step, st, year, month, d), year, month, d + 1);
    } else if d > last {
      assert days == [];
    }
  }

  /**
   * `crawl_month` walks exactly the one-day windows of `Calendar.MonthDays`,
   * the split of the month whose coverage `Calendar.MonthDaysPartition` proves.
   */
  lemma CrawlMonthOverMonthDays(site: Site, files: map<string, Doc>, year: int, month: int)
    requires 1 <= year <= 9999 && 1 <= month <= 12
    ensures CrawlMonthSpec(site, files, year, month)
         == WindowsFrom(site.listing, StepOf(site), Crawl([], files), MonthDays(year, month))
  {
    DaysFromWindows(site.listing, StepOf(site), Crawl([], files), year, month, 1);
    assert MonthDays(year, month)[0..] == MonthDays(year, month);
  }

  /** The loop over one listing page's entries inside `crawl_month`. */
  method CrawlItems(site: Site, fs: Directory, items: seq<ListingItem>, day: Date, results0: seq<Record>)
    returns (results: seq<Record>)
    modifies fs
    ensures Crawl(results, fs.files) == ItemsFrom(StepOf(site), Crawl(results0, old(fs.files)), items, day)
  {
    results := results0;
    var i := 0;
    while i < |items|
      invariant 0 <= i <= |items|
      invariant ItemsFrom(StepOf(site), Crawl(results, fs.files), items[i..], day)
             == ItemsFrom(StepOf(site), Crawl(results0, old(fs.files)), items, day)
    {
      var href := items[i].href;
      if href.Some? && href.value != "" {
        var url := AbsoluteUrl(href.value);
        var result := GetDetailContent(site, fs, url, day, day);
        if result.Accepted? {
          results := results + [result.rec];
        }
      }
      assert items[i..][1..] == items[i + 1..];
      i := i + 1;
    }
    assert items[|items|..] == [];
  }

  /** The loop over one day's listing pages inside `crawl_month`. */
  method CrawlDay(site: Site, fs: Directory, day: Date, results0: seq<Record>) returns (results: seq<Record>)
    modifies fs
    ensures Crawl(results, fs.files) == PagesFrom(StepOf(site), Crawl(results0, old(fs.files)), site.listing(day, day), day, 1)
  {
    var listing := site.listing(day, day);
    results := results0;
    var page := 1;
    while |results| < MAX_POSTS_PER_MONTH && page <= MAX_PAGE
      invariant 1 <= page <= MAX_PAGE + 1
      invariant PagesFrom(StepOf(site), Crawl(results, fs.files), listing, day, page)
             == PagesFrom(StepOf(site), Crawl(results0, old(fs.files)), listing, day, 1)
      decreases MAX_PAGE + 1 - page
    {
      var fetched := PageAt(listing, page);
      if fetched.FetchFailed? || fetched.page == [] {
        break;
      }
      results := CrawlItems(site, fs, fetched.page, day, results);
      page := page + 1;
    }
  }

  method CrawlMonth(site: Site, fs: Directory, year: int, month: int) returns (results: seq<Record>)
    requires 1 <= year <= 9999 && 1 <= month <= 12
    modifies fs
    ensures Crawl(results, fs.files) == CrawlMonthSpec(site, old(fs.files), year, month)
  {
    var start := MonthStart(year, month);
    var end := MonthEnd(year, month);
    ghost var last := DaysInMonth(year, month);
    results := [];
    var current := start;
    ghost var k := 1;
    while Le(current, end)
      invariant 1 <= k <= last + 1
      invariant k <= last ==> current == Date(year, month, k)
      invariant k == last + 1 ==> !Le(current, end)
      invariant DaysFrom(site.listing, StepOf(site), Crawl(results, fs.files), year, month, k, last)
             == CrawlMonthSpec(site, old(fs.files), year, month)
      decreases last + 1 - k
    {
      if |results| >= MAX_POSTS_PER_MONTH {
        break;
      }
      var currentEnd := MinDate(current, end);
      assert currentEnd == current;
      results := CrawlDay(site, fs, current, results);
      current := NextDay(currentEnd);
      k := k + 1;
    }
  }

  // ---------------------------------------------------------------------------
  // Properties of the month walk

  /** A record's date text, parsed. */
  function RecordDate(r: Record): Option<Date>
  {
    DateOf(r.date)
  }

  /**
   * Every record a step accepts is stamped with the day it was asked for.
   * The lemmas below hold for any stamp; the crawler's is `RecordDate`.
   */
  ghost predicate KeepsDay(step: Step, stamp: Record -> Option<Date>)
  {
    forall files, url, day :: step(files, url, day).0.Accepted? ==>
      stamp(step(files, url, day).0.rec) == Some(day)
  }

  /** A record accepted for a one-day window carries that day's date. */
  lemma StepOfKeepsDay(site: Site)
    ensures KeepsDay(StepOf(site), RecordDate)
  {
    forall files, url, day | StepOf(site)(files, url, day).0.Accepted?
      ensures RecordDate(StepOf(site)(files, url, day).0.rec) == Some(day)
    {
      ResolveAccepted(site, url, day, day);
      var rec := Resolve(site, url, day, day).rec;
      LeAntisymmetric(DateOf(rec.date).value, day);
    }
  }

  /** `after` extends `before` with records all stamped `day`. */
  ghost predicate AppendedOn(before: seq<Record>, after: seq<Record>, stamp: Record -> Option<Date>, day: Date)
  {
    |before| <= |after| && after[..|before|] == before
    && forall i :: |before| <= i < |after| ==> stamp(after[i]) == Some(day)
  }

  lemma AppendedOnTrans(a: seq<Record>, b: seq<Record>, c: seq<Record>, stamp: Record -> Option<Date>, day: Date)
    requires AppendedOn(a, b, stamp, day) && AppendedOn(b, c, stamp, day)
    ensures AppendedOn(a, c, stamp, day)
  {
    assert c[..|a|] == c[..|b|][..|a|];
    forall i | |a| <= i < |b| ensures stamp(c[i]) == Some(day) {
      assert c[i] == c[..|b|][i];
    }
  }

  lemma VisitDated(step: Step, stamp: Record -> Option<Date>, st: Crawl, item: ListingItem, day: Date)
    requires KeepsDay(step, stamp)
    ensures AppendedOn(st.results, Visit(step, st, item, day).results, stamp, day)
    ensures |Visit(step, st, item, day).results| <= |st.results| + 1
  {
    var rs := Visit(step, st, item, day).results;
    assert rs[..|st.results|] == st.results;
  }

  lemma {:induction false} ItemsDated(step: Step, stamp: Record -> Option<Date>, st: Crawl, items: seq<ListingItem>, day: Date)
    requires KeepsDay(step, stamp)
    ensures AppendedOn(st.results, ItemsFrom(step, st, items, day).results, stamp, day)
    decreases |items|
  {
    if items != [] {
      var st1 := Visit(step, st, items[0], day);
      VisitDated(step, stamp, st, items[0], day);
      ItemsDated(step, stamp, st1, items[1..], day);
      AppendedOnTrans(st.results, st1.results, ItemsFrom(step, st1, items[1..], day).results, stamp, day);
    } else {
      assert st.results[..|st.results|] == st.results;
    }
  }

  lemma {:induction false} PagesDated(step: Step, stamp: Record -> Option<Date>, st: Crawl, listing: Listing, day: Date, page: int)
    requires KeepsDay(step, stamp)
    ensures AppendedOn(st.results, PagesFrom(step, st, listing, day, page).results, stamp, day)
    decreases MAX_PAGE + 1 - page
  {
    assert st.results[..|st.results|] == st.results;
    if |st.results| < MAX_POSTS_PER_MONTH && page <= MAX_PAGE {
      var p := PageAt(listing, page);
      if p.Fetched? && p.page != [] {
        var st1 := ItemsFrom(step, st, p.page, day);
        ItemsDated(step, stamp, st, p.page, day);
        PagesDated(step, stamp, st1, listing, day, page + 1);
        AppendedOnTrans(st.results, st1.results, PagesFrom(step, st1, listing, day, page + 1).results, stamp, day);
      }
    }
  }

  /** Every date is a date of month `month` of `year`, on a day in `lo..hi`. */
  predicate DatedIn(ds: seq<Option<Date>>, year: int, month: int, lo: int, hi: int)
  {
    forall i :: 0 <= i < |ds| ==>
      ds[i].Some? && ds[i].value.year == year && ds[i].value.month == month
      && lo <= ds[i].value.day <= hi
  }

  /** The dates never go back in time. */
  predicate Chronological(ds: seq<Option<Date>>)
  {
    forall i, j :: 0 <= i < j < |ds| && ds[i].Some? && ds[j].Some? ==> Le(ds[i].value, ds[j].value)
  }

  /** The stamp of each record, in order. */
  function Stamps(rs: seq<Record>, stamp: Record -> Option<Date>): (ds: seq<Option<Date>>)
    ensures |ds| == |rs| && forall i :: 0 <= i < |rs| ==> ds[i] == stamp(rs[i])
  {
    seq(|rs|, i requires 0 <= i < |rs| => stamp(rs[i]))
  }

  /**
   * The records are stamped with dates of month `month` of `year`, on days up
   * to `hi`, in calendar order: the last one on a day up to `hi`, and those
   * before it ordered up to the last one's day.
   */
  predicate OrderedUpTo(rs: seq<Record>, stamp: Record -> Option<Date>, year: int, month: int, hi: int)
    decreases |rs|
  {
    rs == [] ||
    (var last := stamp(rs[|rs| - 1]);
     last.Some? && last.value.year == year && last.value.month == month && 1 <= last.value.day <= hi
     && OrderedUpTo(rs[..|rs| - 1], stamp, year, month, last.value.day))
  }

  lemma OrderedWiden(rs: seq<Record>, stamp: Record -> Option<Date>, year: int, month: int, hi: int, hi2: int)
    requires hi <= hi2 && OrderedUpTo(rs, stamp, year, month, hi)
    ensures OrderedUpTo(rs, stamp, year, month, hi2)
  {
  }

  /** `OrderedUpTo` says what `DatedIn` and `Chronological` say together of the stamps. */
  lemma {:induction false} OrderedMeans(rs: seq<Record>, stamp: Record -> Option<Date>, year: int, month: int, hi: int)
    requires OrderedUpTo(rs, stamp, year, month, hi)
    ensures DatedIn(Stamps(rs, stamp), year, month, 1, hi) && Chronological(Stamps(rs, stamp))
    decreases |rs|
  {
    if rs != [] {
      var n := |rs| - 1;
      var p := rs[..n];
      var last := stamp(rs[n]).value;
      OrderedMeans(p, stamp, year, month, last.day);
      var ds, dp := Stamps(rs, stamp), Stamps(p, stamp);
      forall i | 0 <= i < n
        ensures ds[i] == dp[i]
      {
        assert rs[i] == p[i];
      }
      forall i, j | 0 <= i < j < |ds| && ds[i].Some? && ds[j].Some?
        ensures Le(ds[i].value, ds[j].value)
      {
        if j < n {
          assert ds[i] == dp[i] && ds[j] == dp[j];
        } else {
          assert ds[i] == dp[i];
        }
      }
    }
  }

  /** Records of day `d` after records ordered up to the day before keep the order. */
  lemma {:induction false} DayBlockOrdered(before: seq<Record>, after: seq<Record>, stamp: Record -> Option<Date>, year: int, month: int, d: int)
    requires 1 <= d
    requires AppendedOn(before, after, stamp, Date(year, month, d))
    requires OrderedUpTo(before, stamp, year, month, d - 1)
    ensures OrderedUpTo(after, stamp, year, month, d)
    decreases |after|
  {
    if |after| == |before| {
      assert after == after[..|before|];
      OrderedWiden(before, stamp, year, month, d - 1, d);
    } else {
      var p := after[..|after| - 1];
      assert p[..|before|] == after[..|before|];
      assert AppendedOn(before, p, stamp, Date(year, month, d)) by {
        forall i | |before| <= i < |p| ensures stamp(p[i]) == Some(Date(year, month, d)) {
          assert p[i] == after[i];
        }
      }
      DayBlockOrdered(before, p, stamp, year, month, d);
    }
  }

  /**
   * What each day keeps, the rest of the month keeps: `keep` holds after
   * day `d - 1`, holds after day `e` when it held after day `e - 1`, and
   * what holds after an earlier day holds after the last one.
   */
  lemma {:induction false} DaysKeep(listings: (Date, Date) -> Listing, step: Step, st: Crawl, year: int, month: int,
                                   d: int, last: int, keep: (Crawl, int) -> bool)
    requires 1 <= d <= last + 1
    requires keep(st, d - 1)
    requires forall c: Crawl, e: int :: d <= e <= last && keep(c, e - 1) ==>
      keep(DayFrom(listings, step, c, year, month, e), e)
    requires forall c: Crawl, e: int :: d - 1 <= e <= last && keep(c, e) ==> keep(c, last)
    ensures keep(DaysFrom(listings, step, st, year, month, d, last), last)
    decreases last + 1 - d
  {
    if d <= last && |st.results| < MAX_POSTS_PER_MONTH {
      var next := DayFrom(listings, step, st, year, month, d);
      assert keep(next, d);
      assert DaysFrom(listings, step, st, year, month, d, last) == DaysFrom(listings, step, next, year, month, d + 1, last);
      DaysKeep(listings, step, next, year, month, d + 1, last, keep);
    } else {
      assert DaysFrom(listings, step, st, year, month, d, last) == st;
      assert keep(st, last);
    }
  }

  /** One day's listing keeps the records dated and ordered. */
  lemma DayOrdered(listings: (Date, Date) -> Listing, step: Step, stamp: Record -> Option<Date>, st: Crawl, year: int, month: int, d: int)
    requires KeepsDay(step, stamp) && 1 <= d
    requires OrderedUpTo(st.results, stamp, year, month, d - 1)
    ensures OrderedUpTo(DayFrom(listings, step, st, year, month, d).results, stamp, year, month, d)
  {
    var day := Date(year, month, d);
    PagesDated(step, stamp, st, listings(day, day), day, 1);
    DayBlockOrdered(st.results, DayFrom(listings, step, st, year, month, d).results, stamp, year, month, d);
  }

  lemma DaysOrdered(listings: (Date, Date) -> Listing, step: Step, stamp: Record -> Option<Date>,
                    st: Crawl, year: int, month: int, last: int)
    requires KeepsDay(step, stamp) && 0 <= last
    requires st.results == []
    ensures OrderedUpTo(DaysFrom(listings, step, st, year, month, 1, last).results, stamp, year, month, last)
  {
    var keep := (c: Crawl, hi: int) => OrderedUpTo(c.results, stamp, year, month, hi);
    forall c: Crawl, e: int | 1 <= e <= last && keep(c, e - 1)
      ensures keep(DayFrom(listings, step, c, year, month, e), e)
    {
      DayOrdered(listings, step, stamp, c, year, month, e);
    }
    forall c: Crawl, e: int | 0 <= e <= last && keep(c, e)
      ensures keep(c, last)
    {
      OrderedWiden(c.results, stamp, year, month, e, last);
    }
    DaysKeep(listings, step, st, year, month, 1, last, keep);
  }

  /**
   * The records a month's crawl returns all have date texts that parse to
   * dates within that month, and they come in calendar order of those dates.
   */
  lemma CrawlMonthChronological(site: Site, files: map<string, Doc>, year: int, month: int)
    requires 1 <= month <= 12
    ensures var ds := Stamps(CrawlMonthSpec(site, files, year, month).results, RecordDate);
      DatedIn(ds, year, month, 1, DaysInMonth(year, month)) && Chronological(ds)
  {
    StepOfKeepsDay(site);
    DaysOrdered(site.listing, StepOf(site), RecordDate, Crawl([], files), year, month, DaysInMonth(year, month));
    OrderedMeans(CrawlMonthSpec(site, files, year, month).results, RecordDate, year, month, DaysInMonth(year, month));
  }

  /** Every fetched page of the listing holds at most `n` entries. */
  predicate PagesAtMost(listing: Listing, n: nat)
  {
    forall i :: 0 <= i < |listing| && listing[i].Fetched? ==> |listing[i].page| <= n
  }

  lemma {:induction false} ItemsCapped(step: Step, st: Crawl, items: seq<ListingItem>, day: Date)
    ensures |ItemsFrom(step, st, items, day).results| <= |st.results| + |items|
    decreases |items|
  {
    if items != [] {
      ItemsCapped(step, Visit(step, st, items[0], day), items[1..], day);
    }
  }

  lemma {:induction false} PagesCapped(step: Step, st: Crawl, listing: Listing, day: Date, page: int, n: nat)
    requires PagesAtMost(listing, n)
    requires |st.results| <= MAX_POSTS_PER_MONTH - 1 + n
    ensures |PagesFrom(step, st, listing, day, page).results| <= MAX_POSTS_PER_MONTH - 1 + n
    decreases MAX_PAGE + 1 - page
  {
    if |st.results| < MAX_POSTS_PER_MONTH && page <= MAX_PAGE {
      var p := PageAt(listing, page);
      if p.Fetched? && p.page != [] {
        assert |p.page| <= n;
        ItemsCapped(step, st, p.page, day);
        PagesCapped(step, ItemsFrom(step, st, p.page, day), listing, day, page + 1, n);
      }
    }
  }

  /**
   * The cap is checked before each day and each listing page, not per entry:
   * with listing pages of at most `n` entries, a month yields fewer than
   * `MAX_POSTS_PER_MONTH + n` records (and none when every page is empty).
   */
  lemma CrawlMonthCapped(site: Site, files: map<string, Doc>, year: int, month: int, n: nat)
    requires 1 <= month <= 12
    requires forall a, b :: PagesAtMost(site.listing(a, b), n)
    ensures |CrawlMonthSpec(site, files, year, month).results| < MAX_POSTS_PER_MONTH + n
  {
    var listings, step, last := site.listing, StepOf(site), DaysInMonth(year, month);
    var keep := (c: Crawl, e: int) => |c.results| <= MAX_POSTS_PER_MONTH - 1 + n;
    forall c: Crawl, e: int | 1 <= e <= last && keep(c, e - 1)
      ensures keep(DayFrom(listings, step, c, year, month, e), e)
    {
      var day := Date(year, month, e);
      PagesCapped(step, c, listings(day, day), day, 1, n);
    }
    DaysKeep(listings, step, Crawl([], files), year, month, 1, last, keep);
  }

  /** An out-of-range question writes nothing: only an accepted record is saved. */
  lemma StepOfOutOfRangeWritesNothing(site: Site, files: map<string, Doc>, url: string, day: Date)
    requires StepOf(site)(files, url, day).0.OutOfRange?
    ensures StepOf(site)(files, url, day).1 == files
  {
  }

  /**
   * Unlike the keyword crawler, an out-of-range question does not end the
   * walk: it is skipped, and the entries after it are visited as if it were
   * not there.
   */
  lemma SkipsOutOfRange(step: Step, st: Crawl, x: ListingItem, rest: seq<ListingItem>, day: Date)
    requires x.href.Some? && x.href.value != ""
    requires step(st.files, AbsoluteUrl(x.href.value), day) == (OutOfRange, st.files)
    ensures ItemsFrom(step, st, [x] + rest, day) == ItemsFrom(step, st, rest, day)
  {
    assert ([x] + rest)[1..] == rest;
  }

  /**
   * A day whose only listing page holds an out-of-range question followed by
   * an accepted one yields the second question's record, where the keyword
   * walk stops at the first question and yields nothing.
   */
  lemma OutOfRangeThenAccepted(step: Step, st: Crawl, x: ListingItem, y: ListingItem, day: Date, rec: Record)
    requires |st.results| < MAX_POSTS_PER_MONTH
    requires x.href.Some? && x.href.value != "" && y.href.Some? && y.href.value != ""
    requires step(st.files, AbsoluteUrl(x.href.value), day) == (OutOfRange, st.files)
    requires step(st.files, AbsoluteUrl(y.href.value), day).0 == Accepted(rec)
    ensures PagesFrom(step, st, [Fetched([x, y])], day, 1).results == st.results + [rec]
  {
    SkipsOutOfRange(step, st, x, [y], day);
    assert [x] + [y] == [x, y];
    var after := ItemsFrom(step, st, [x, y], day);
    assert after == Visit(step, st, y, day) by {
      assert [y][1..] == [];
    }
    assert PageAt([Fetched([x, y])], 2) == Fetched([]);
  }

  /** A day's listing is read no further than page `MAX_PAGE`. */
  lemma {:induction false} PagesReadAtMostMaxPage(step: Step, st: Crawl, listing: Listing, day: Date, page: int)
    requires 1 <= page
    ensures var cut := if |listing| <= MAX_PAGE then listing else listing[..MAX_PAGE];
      PagesFrom(step, st, listing, day, page) == PagesFrom(step, st, cut, day, page)
    decreases MAX_PAGE + 1 - page
  {
    var cut := if |listing| <= MAX_PAGE then listing else listing[..MAX_PAGE];
    if |st.results| < MAX_POSTS_PER_MONTH && page <= MAX_PAGE {
      assert PageAt(listing, page) == PageAt(cut, page);
      var p := PageAt(listing, page);
      if p.Fetched? && p.page != [] {
        PagesReadAtMostMaxPage(step, ItemsFrom(step, st, p.page, day), listing, day, page + 1);
      }
    }
  }

  /** The items of the records among `rs` whose department is filed under `name`, in order. */
  function Filed(rs: seq<Record>, name: string): seq<Item>
  {
    if rs == [] then []
    else
      var last := rs[|rs| - 1];
      Filed(rs[..|rs| - 1], name) + (if FileFor(last.department) == name then [ToItem(last)] else [])
  }

  /** A step saves each record it accepts with `Save`, and writes nothing otherwise. */
  ghost predicate SavesAccepted(step: Step)
  {
    forall files, url, day :: var r := step(files, url, day);
      if r.0.Accepted? then Save(files, r.0.rec.department, ToItem(r.0.rec)) == Some(r.1) else r.1 == files
  }

  lemma StepOfSavesAccepted(site: Site)
    ensures SavesAccepted(StepOf(site))
  {
  }

  /** Each file holds what it held at the start followed by the records filed under it. */
  ghost predicate StoreMatches(files0: map<string, Doc>, st: Crawl)
  {
    forall name :: Loaded(st.files, name) == Loaded(files0, name) + Filed(st.results, name)
  }

  /** The step of `SaveStore` for a single file. */
  lemma FiledSnoc(rs: seq<Record>, rec: Record, name: string)
    ensures Filed(rs + [rec], name) == Filed(rs, name) + if FileFor(rec.department) == name then [ToItem(rec)] else []
  {
    var rs1 := rs + [rec];
    assert rs1[..|rs1| - 1] == rs;
  }

  lemma SaveStoreAt(files0: map<string, Doc>, st: Crawl, rec: Record, saved: map<string, Doc>, name: string)
    requires Loaded(st.files, name) == Loaded(files0, name) + Filed(st.results, name)
    requires Save(st.files, rec.department, ToItem(rec)) == Some(saved)
    ensures Loaded(saved, name) == Loaded(files0, name) + Filed(st.results + [rec], name)
  {
    var extra := if FileFor(rec.department) == name then [ToItem(rec)] else [];
    FiledSnoc(st.results, rec, name);
    SaveAppends(st.files, rec.department, ToItem(rec), name);
    AppendAssoc(Loaded(files0, name), Filed(st.results, name), extra);
  }

  lemma AppendAssoc<T>(a: seq<T>, b: seq<T>, c: seq<T>)
    ensures (a + b) + c == a + (b + c)
  {
  }

  /** A successful save of a record keeps the files in step with the records. */
  lemma SaveStore(files0: map<string, Doc>, st: Crawl, rec: Record, saved: map<string, Doc>)
    requires StoreMatches(files0, st)
    requires Save(st.files, rec.department, ToItem(rec)) == Some(saved)
    ensures StoreMatches(files0, Crawl(st.results + [rec], saved))
  {
    forall name
      ensures Loaded(saved, name) == Loaded(files0, name) + Filed(st.results + [rec], name)
    {
      SaveStoreAt(files0, st, rec, saved, name);
    }
  }

  lemma VisitStore(files0: map<string, Doc>, step: Step, st: Crawl, item: ListingItem, day: Date)
    requires SavesAccepted(step)
    requires StoreMatches(files0, st)
    ensures StoreMatches(files0, Visit(step, st, item, day))
  {
    if item.href.Some? && item.href.value != "" {
      var r := step(st.files, AbsoluteUrl(item.href.value), day);
      if r.0.Accepted? {
        SaveStore(files0, st, r.0.rec, r.1);
      }
    }
  }

  lemma {:induction false} ItemsStore(files0: map<string, Doc>, step: Step, st: Crawl, items: seq<ListingItem>, day: Date)
    requires SavesAccepted(step)
    requires StoreMatches(files0, st)
    ensures StoreMatches(files0, ItemsFrom(step, st, items, day))
    decreases |items|
  {
    if items != [] {
      VisitStore(files0, step, st, items[0], day);
      ItemsStore(files0, step, Visit(step, st, items[0], day), items[1..], day);
    }
  }

  lemma {:induction false} PagesStore(files0: map<string, Doc>, step: Step, st: Crawl, listing: Listing, day: Date, page: int)
    requires SavesAccepted(step)
    requires StoreMatches(files0, st)
    ensures StoreMatches(files0, PagesFrom(step, st, listing, day, page))
    decreases MAX_PAGE + 1 - page
  {
    if |st.results| < MAX_POSTS_PER_MONTH && page <= MAX_PAGE {
      var p := PageAt(listing, page);
      if p.Fetched? && p.page != [] {
        ItemsStore(files0, step, st, p.page, day);
        PagesStore(files0, step, ItemsFrom(step, st, p.page, day), listing, day, page + 1);
      }
    }
  }

  /**
   * After a month's crawl each corpus file holds exactly its former records
   * followed by the returned records filed under it, in the order returned:
   * every returned record was saved once, and nothing else was written.
   */
  lemma CrawlMonthStore(site: Site, files: map<string, Doc>, year: int, month: int)
    requires 1 <= month <= 12
    ensures var c := CrawlMonthSpec(site, files, year, month);
      forall name :: Loaded(c.files, name) == Loaded(files, name) + Filed(c.results, name)
  {
    assert forall name :: Loaded(files, name) + Filed([], name) == Loaded(files, name);
    var listings, step, last := site.listing, StepOf(site), DaysInMonth(year, month);
    StepOfSavesAccepted(site);
    var keep := (c: Crawl, e: int) => StoreMatches(files, c);
    forall c: Crawl, e: int | 1 <= e <= last && keep(c, e - 1)
      ensures keep(DayFrom(listings, step, c, year, month, e), e)
    {
      var day := Date(year, month, e);
      PagesStore(files, step, c, listings(day, day), day, 1);
    }
    DaysKeep(listings, step, Crawl([], files), year, month, 1, last, keep);
  }
}
