/**
 * The docId crawler (`crawler/naver_crawler.py`): one question page fetched by
 * its document number, kept only when its department tag is one of the target
 * departments, with the dental sub-fields folded into "치과".
 */
module CrawlerDocId {
  import opened Wrappers
  import opened Text
  import opened Pages
  import opened DateField

  /**
   * The departments kept. Two adjacent literals without a comma between them
   * make the single element "류마티스내과이비인후과", and the last dental
   * label is spelled "치아 유지, 관리".
   */
  const TARGET_DEPARTMENTS: set<string> := {
    "심장내과", "내분비내과", "소화기내과", "혈액종양내과", "감염내과", "신장내과", "호흡기내과",
    "류마티스내과" + "이비인후과", "외과", "대장, 항문 외과", "흉부외과", "정형외과", "신경외과",
    "신경과", "정신건강의학과", "성형외과", "피부과", "안과", "비뇨의학과", "산부인과",
    "소아청소년과", "가정의학과", "영상의학과", "마취통증의학과", "재활의학과",
    "응급의학과",
    "충치, 치아질환", "잇몸질환", "치아교정", "의치, 임플란트", "치아 유지, 관리"
  }

  /** The dental sub-fields; here the last one is spelled "치아 유지 , 관리". */
  const DENTAL_SUBFIELDS: set<string> := {
    "충치, 치아질환", "잇몸질환", "치아교정", "의치, 임플란트", "치아 유지 , 관리"
  }

  const DENTISTRY := "치과"

  /** One harvested question; the date is `null` when the page has fewer than three info spans. */
  datatype Record = Record(title: string, content: string, department: string, date: Option<string>)

  /** The keys of the dictionary a record is returned as. */
  function ToItem(r: Record): (item: Item)
    ensures item.Keys == {"title", "content", "department", "date"}
    ensures item["date"] == OptValue(r.date)
  {
    map["title" := Str(r.title), "content" := Str(r.content),
        "department" := Str(r.department), "date" := OptValue(r.date)]
  }

  /** A dental sub-field is stored as "치과", any other label as itself. */
  function Department(tag: string): string
  {
    if tag in DENTAL_SUBFIELDS then DENTISTRY else tag
  }

  /** The date: the third info span without its first three characters, stripped; none when that span is missing or empty. */
  function DateText(spans: seq<string>): Option<string>
  {
    if |spans| >= 3 && spans[2] != "" then Some(Strip(SliceFrom(spans[2], 3))) else None
  }

  /** A field `not x` accepts: present and non-empty. */
  predicate Filled(f: Option<string>)
  {
    f.Some? && f.value != ""
  }

  /**
   * `crawl_doc(doc_id)`: `None` for a failed request, a tag outside the
   * target departments (or no tag), a missing title or missing content;
   * otherwise the record.
   */
  function CrawlDoc(fetch: int -> Fetch<QuestionPage>, docId: int): Option<Record>
  {
    match fetch(docId)
    case FetchFailed => None
    case Fetched(q) =>
      if q.tag.None? || q.tag.value !in TARGET_DEPARTMENTS then None
      else if !Filled(q.title) then None
      else if !Filled(q.content) then None
      else Some(Record(q.title.value, q.content.value, Department(q.tag.value), DateText(q.dateSpans)))
  }

  /**
   * A document is kept exactly when it was fetched, its tag is a target
   * department, and it has a title and content; the record then carries
   * them, with the tag folded by `Department`.
   */
  lemma CrawlDocIff(fetch: int -> Fetch<QuestionPage>, docId: int)
    ensures CrawlDoc(fetch, docId).Some? <==>
      fetch(docId).Fetched? && fetch(docId).page.tag.Some? && fetch(docId).page.tag.value in TARGET_DEPARTMENTS
      && Filled(fetch(docId).page.title) && Filled(fetch(docId).page.content)
    ensures CrawlDoc(fetch, docId).Some? ==>
      var q := fetch(docId).page;
      var r := CrawlDoc(fetch, docId).value;
      && r.title == q.title.value && r.content == q.content.value && r.title != "" && r.content != ""
      && r.department == Department(q.tag.value)
      && r.date == DateText(q.dateSpans)
  {
  }

  /**
   * Only four labels are folded into "치과": "치아 유지, 관리" is a target
   * but not a sub-field, and "치아 유지 , 관리" is a sub-field but never a
   * target.
   */
  lemma DentalFolding()
    ensures TARGET_DEPARTMENTS * DENTAL_SUBFIELDS == {"충치, 치아질환", "잇몸질환", "치아교정", "의치, 임플란트"}
    ensures Department("치아 유지, 관리") == "치아 유지, 관리"
    ensures "치아 유지 , 관리" !in TARGET_DEPARTMENTS
  {
    assert "치아 유지, 관리" != "치아 유지 , 관리" by { assert "치아 유지, 관리"[5] != "치아 유지 , 관리"[5]; }
  }

  /**
   * Rheumatology and ENT questions are dropped: only their concatenation is a
   * target. Nor is "치과" itself a target.
   */
  lemma ConcatenatedTarget(fetch: int -> Fetch<QuestionPage>, docId: int)
    requires fetch(docId).Fetched?
    requires var tag := fetch(docId).page.tag;
      tag == Some("류마티스내과") || tag == Some("이비인후과") || tag == Some(DENTISTRY)
    ensures CrawlDoc(fetch, docId) == None
    ensures "류마티스내과이비인후과" in TARGET_DEPARTMENTS
  {
    assert "류마티스내과" + "이비인후과" == "류마티스내과이비인후과";
  }

  /** Every kept record's department is a target that is not a sub-field, or "치과". */
  lemma KeptDepartment(fetch: int -> Fetch<QuestionPage>, docId: int)
    requires CrawlDoc(fetch, docId).Some?
    ensures var d := CrawlDoc(fetch, docId).value.department;
      d == DENTISTRY || (d in TARGET_DEPARTMENTS && d !in DENTAL_SUBFIELDS)
  {
  }

  /**
   * The three characters dropped are the "작성일" label: after it, the date
   * text is what follows, blanks removed. A "끌올작성일" label keeps "성일".
   */
  lemma DateTextAfterLabel(spans: seq<string>, sp: string, t: string)
    requires |spans| >= 3
    requires forall i :: 0 <= i < |sp| ==> IsSpace(sp[i])
    requires Trimmed(t)
    ensures spans[2] == WRITTEN_PREFIX + sp + t ==> DateText(spans) == Some(t)
    ensures spans[2] == BUMPED_PREFIX + sp + t ==> DateText(spans) == Some(Strip("성일" + sp + t))
  {
    if spans[2] == WRITTEN_PREFIX + sp + t {
      assert SliceFrom(spans[2], 3) == sp + t;
      StripLeadingSpace(sp, t);
    }
    if spans[2] == BUMPED_PREFIX + sp + t {
      assert SliceFrom(spans[2], 3) == "성일" + sp + t;
    }
  }
}
