/**
 * The single-threaded docId crawler (`crawler/naver_crawler_single.py`): a
 * loop over an inclusive range of document numbers that appends, in order,
 * the record of every document that survives its filters.
 */
module CrawlerSingle {
  import opened Wrappers
  import opened Text
  import opened Pages

  const START_DOC_ID := 461390338
  const END_DOC_ID := 461390438

  /** The departments kept; this script's list has its own members and spelling. */
  const TARGET_DEPARTMENTS: set<string> := {
    "내과", "이비인후과", "외과", "대장, 항문 외과", "흉부외과", "정형외과", "신경외과",
    "신경과", "정신건강의학과", "성형외과", "피부과", "안과", "비뇨의학과", "산부인과",
    "소아청소년과", "암센터", "가정의학과", "영상의학과", "마취통증의학과", "재활의학과",
    "응급의학과", "종합병원", "요양병원", "핵의학과", "충치, 치아질환", "잇몸질환", "치아교정",
    "의치, 임플란트", "치아 유지 , 관리"
  }

  const DENTAL_SUBFIELDS: set<string> := {
    "충치, 치아질환", "잇몸질환", "치아교정", "의치, 임플란트", "치아 유지 , 관리"
  }

  const DENTISTRY := "치과"

  /** One harvested question; here the date is always text. */
  datatype Record = Record(title: string, content: string, department: string, date: string)

  /** The record is stored as the keyword crawler stores its own: the same four string keys. */
  function ToItem(r: Record): (item: Item)
    ensures item.Keys == {"title", "content", "department", "date"}
    ensures forall k :: k in item ==> item[k].Str?
  {
    map["title" := Str(r.title), "content" := Str(r.content),
        "department" := Str(r.department), "date" := Str(r.date)]
  }

  /**
   * What the loop body does with one document: `None` when it `continue`s
   * (failed request, tag not a target, no title, no content) and when it
   * raises (fewer than three info spans: slicing `None`) and the handler
   * skips it; otherwise the record it appends.
   */
  function Visit(fetch: int -> Fetch<QuestionPage>, docId: int): Option<Record>
  {
    match fetch(docId)
    case FetchFailed => None
    case Fetched(q) =>
      if q.tag.None? || q.tag.value !in TARGET_DEPARTMENTS then None
      else
        var department := if q.tag.value in DENTAL_SUBFIELDS then DENTISTRY else q.tag.value;
        if q.title.None? || q.title.value == "" then None
        else if |q.dateSpans| < 3 then None
        else
          var date := Strip(SliceFrom(q.dateSpans[2], 3));
          if q.content.None? || q.content.value == "" then None
          else Some(Record(q.title.value, q.content.value, department, date))
  }

  /** The loop body as a function of the docId. */
  function VisitOf(fetch: int -> Fetch<QuestionPage>): int -> Option<Record>
  {
    (docId: int) => Visit(fetch, docId)
  }

  /** The records the body yields for the documents `first`..`last`, in increasing docId order. */
  function Harvested(visit: int -> Option<Record>, first: int, last: int): seq<Record>
    decreases last - first
  {
    if last < first then []
    else
      var before := Harvested(visit, first, last - 1);
      match visit(last)
      case None => before
      case Some(r) => before + [r]
  }

  /** The loop over `range(first, last + 1)`, accumulating `output_data`. */
  method Crawl(fetch: int -> Fetch<QuestionPage>, first: int, last: int) returns (output: seq<Record>)
    ensures output == Harvested(VisitOf(fetch), first, last)
  {
    output := [];
    if last < first {
      return;
    }
    var docId := first;
    while docId <= last
      invariant first <= docId <= last + 1
      invariant output == Harvested(VisitOf(fetch), first, docId - 1)
    {
      assert VisitOf(fetch)(docId) == Visit(fetch, docId);
      var fetched := fetch(docId);
      if fetched.FetchFailed? {
        docId := docId + 1;
        continue;
      }
      var q := fetched.page;
      if q.tag.None? || q.tag.value !in TARGET_DEPARTMENTS {
        docId := docId + 1;
        continue;
      }
      var department;
      if q.tag.value in DENTAL_SUBFIELDS {
        department := DENTISTRY;
      } else {
        department := q.tag.value;
      }
      if q.title.None? || q.title.value == "" {
        docId := docId + 1;
        continue;
      }
      if |q.dateSpans| < 3 {
        docId := docId + 1;
        continue;
      }
      var date := Strip(SliceFrom(q.dateSpans[2], 3));
      if q.content.None? || q.content.value == "" {
        docId := docId + 1;
        continue;
      }
      output := output + [Record(q.title.value, q.content.value, department, date)];
      docId := docId + 1;
    }
  }

  /** The script's own run: the documents 461390338 to 461390438. */
  method CrawlScript(fetch: int -> Fetch<QuestionPage>) returns (output: seq<Record>)
    ensures output == Harvested(VisitOf(fetch), START_DOC_ID, END_DOC_ID)
    ensures |output| <= END_DOC_ID - START_DOC_ID + 1
  {
    output := Crawl(fetch, START_DOC_ID, END_DOC_ID);
    HarvestedBound(VisitOf(fetch), START_DOC_ID, END_DOC_ID);
  }

  /** The docIds in `first`..`last` whose document is kept, increasing. */
  function KeptIds(visit: int -> Option<Record>, first: int, last: int): seq<int>
    decreases last - first
  {
    if last < first then []
    else KeptIds(visit, first, last - 1) + (if visit(last).Some? then [last] else [])
  }

  /** At most one record per document. */
  lemma {:induction false} HarvestedBound(visit: int -> Option<Record>, first: int, last: int)
    ensures |Harvested(visit, first, last)| <= if last < first then 0 else last - first + 1
    decreases last - first
  {
    if last >= first {
      HarvestedBound(visit, first, last - 1);
    }
  }

  /**
   * The output is the kept documents' records in docId order: the kept ids
   * increase, lie in the range, are exactly the documents the body keeps,
   * and the i-th record is the i-th kept document's.
   */
  lemma {:induction false} HarvestedIds(visit: int -> Option<Record>, first: int, last: int)
    ensures var ids := KeptIds(visit, first, last);
      var out := Harvested(visit, first, last);
      && |ids| == |out|
      && (forall i, j :: 0 <= i < j < |ids| ==> ids[i] < ids[j])
      && (forall d :: first <= d <= last ==> (d in ids <==> visit(d).Some?))
      && (forall i :: 0 <= i < |ids| ==> first <= ids[i] <= last && visit(ids[i]) == Some(out[i]))
    decreases last - first
  {
    if last >= first {
      HarvestedIds(visit, first, last - 1);
      var ids := KeptIds(visit, first, last - 1);
      forall d | first <= d <= last - 1
        ensures d in KeptIds(visit, first, last) <==> d in ids
      {
      }
    }
  }

  /**
   * A document is kept exactly when it was fetched, its tag is a target
   * department, it has a title, at least three info spans and content; the
   * record then carries the title, the content, the tag (a dental sub-field
   * folded into "치과") and the third span without its label, stripped.
   */
  lemma VisitIff(fetch: int -> Fetch<QuestionPage>, docId: int)
    ensures Visit(fetch, docId).Some? <==>
      && fetch(docId).Fetched?
      && var q := fetch(docId).page;
      && q.tag.Some? && q.tag.value in TARGET_DEPARTMENTS
      && q.title.Some? && q.title.value != "" && |q.dateSpans| >= 3
      && q.content.Some? && q.content.value != ""
    ensures Visit(fetch, docId).Some? ==>
      var r := Visit(fetch, docId).value;
      var q := fetch(docId).page;
      && r.title == q.title.value && r.content == q.content.value
      && r.department == (if q.tag.value in DENTAL_SUBFIELDS then DENTISTRY else q.tag.value)
      && r.date == Strip(SliceFrom(q.dateSpans[2], 3))
      && (r.department == DENTISTRY || (r.department in TARGET_DEPARTMENTS && r.department !in DENTAL_SUBFIELDS))
  {
  }

  /** A page tagged "치과" itself is dropped, although its sub-fields are kept as "치과". */
  lemma DentistryTagDropped(fetch: int -> Fetch<QuestionPage>, docId: int)
    requires fetch(docId).Fetched? && fetch(docId).page.tag == Some(DENTISTRY)
    ensures Visit(fetch, docId).None?
  {
    VisitIff(fetch, docId);
    DentalAllTargets();
  }

  /** All five dental sub-fields are targets here, so each is kept as "치과". */
  lemma DentalAllTargets()
    ensures DENTAL_SUBFIELDS <= TARGET_DEPARTMENTS
    ensures DENTISTRY !in TARGET_DEPARTMENTS
  {
  }
}
