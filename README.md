# Naver Q&A crawlers and corpus clean-up, modelled in Dafny

This project models the data-collection side of a medical-specialty
prediction system. The crawlers read doctors' answers to health questions
from Naver Knowledge-iN (지식인). Each question page becomes a record of title,
content, department and date; the v2 crawler adds the question URL, the
answering doctor's profile URL and the doctor's name. The records are filed
into a corpus of JSON files, one per department. Three small scripts then
clean that corpus.

Four crawlers are modelled:

- **v2** (`CrawlerV2`, `crawler/naver_crawler_v2.py`) splits a month into
  one-day search windows and reads each window's listing page by page, up to
  `MAX_PAGE = 100` pages. Every linked question is resolved. The answer's
  profile page gives the department and the doctor. Each record is appended
  to its department's `_train.json` file. Questions out of range or in error
  are skipped. The cap of 7000 records is checked only between pages and days.
  The walk over days, pages and entries is defined for any detail step: a
  function from the corpus, a question URL and the day to an outcome and the
  new corpus. `get_detail_content` is the step the crawler uses. The ordering,
  cap and storage properties are proved for every step that has the property
  they need, and then for that one.
- **keyword** (`CrawlerKeyword`, `crawler/naver_crawler_keywork.py`) uses one
  search window spanning the whole month. The first question outside the
  window ends the walk. The cap of 333 is checked before every entry. The
  department is the page's tag.
- **docId** (`CrawlerDocId`, `crawler/naver_crawler.py`) fetches one page by
  its document number. A page is kept only when its tag is a target
  department, and the dental sub-fields are folded into "치과".
- **single** (`CrawlerSingle`, `crawler/naver_crawler_single.py`) loops over a
  range of document numbers and accumulates the records in order.

The three clean-up scripts are `RemoveLineBreaking`, `MoveByDoctor` and
`ModifyDepartment`.

The shared layers:

- `Text` holds the Python string operations the scripts use: `replace`,
  `strip`, `rstrip(c)`, `startswith`, `in` and `s[n:]`.
- `Calendar` holds dates, `calendar.monthrange` and the one-day windows of a
  month.
- `DateParse` models `datetime.strptime` with `%Y.%m.%d`, and both kinds of
  `is_valid_date`.
- `DateField` picks the date span and removes the "끌올작성일" and "작성일"
  labels. The v2 and keyword crawlers share this code.
- `Pages` holds the parsed pages and fetch results.
- `Storage` is the corpus directory: a `Directory` object whose `files` map
  from name to content is overwritten by the state-changing methods.

A network request is a `Fetch` value: either the parsed page, or
`FetchFailed`, which covers a non-200 status, a timeout and a connection
error. The site is a parameter made of functions from URL to fetch result.

Where the code and its comments or names disagree, the model follows the
code:

- In v2, the answer URL, department and doctor come from the first
  profile-card link, in document order, under any `div._contentBox` of the
  page. That link belongs to a later block when the first block has no
  profile card. The expert block found by the loop only decides whether the
  page is kept (`CrawlerV2.ResolveAccepted`).
- A relative date ("3시간 전") or an unparsable date makes a question
  `OUT_OF_RANGE`, not an error. The keyword crawler therefore stops at such a
  question (`CrawlerKeyword.RelativeDateOutOfRange`,
  `CrawlerKeyword.FirstOutOfRangeEmpties`).
- The v2 title loses every "질문", wherever it occurs. The keyword title loses
  only a leading one (`CrawlerKeyword.TitleLabelDropped`).
- The v2 department normalisation is not idempotent
  (`CrawlerV2.SpecialistRemovedOnce`).
- The docId crawler's target set holds "류마티스내과이비인후과" as one element,
  because of a missing comma. It spells "치아 유지, 관리" differently from the
  dental set. Only four labels are folded, and "치과" itself is never a target
  (`CrawlerDocId.DentalFolding`, `CrawlerDocId.ConcatenatedTarget`).
- `is_valid_date` is defined but never called in both docId crawlers. The
  single crawler drops a page with fewer than three info spans through the
  exception that slicing `None` raises.
- `modify_department.py` sets "치과", while its comment and final message
  say "산부인과".

## Model

| member | source | states |
|---|---|---|
| Calendar.DaysInMonth | crawler/naver_crawler_v2.py:183 | `monthrange`'s day count lies in 28..31; February has 29 days exactly in leap years; 31 days exactly for months 1, 3, 5, 7, 8, 10 and 12 |
| Calendar.MonthLengths | crawler/naver_crawler_v2.py:183 | `monthrange`'s exact day count: February has 29 days in leap years and 28 otherwise; months 1, 3, 5, 7, 8, 10 and 12 have 31; months 4, 6, 9 and 11 have 30 |
| Calendar.YearLength | crawler/naver_crawler_v2.py:182-183 | the twelve month lengths add up to 365 days, or 366 in a leap year |
| Calendar.MinDate | crawler/naver_crawler_v2.py:195 | the window end is no later than either date and is one of them |
| Calendar.NextDay | crawler/naver_crawler_v2.py:238 | adding one day gives a strictly later date, which is valid while the year stays within 9999 |
| Calendar.NextDayAdjacent | crawler/naver_crawler_v2.py:238 | no valid date lies strictly between a day and the next day |
| Calendar.MonthDaysPartition | crawler/naver_crawler_v2.py:182-195 | the one-day windows start on the 1st, end on the last day, each follows the previous by one day, increase strictly, and cover every date of the month |
| DateParse.ParseRender | crawler/naver_crawler_v2.py:25 | `strptime(..., "%Y.%m.%d")` of a zero-padded printed date gives that date back (round trip) |
| DateParse.IsValidDate | crawler/naver_crawler_v2.py:21-29 | a text with "전" is never valid; a valid text parses, after strip and rstrip("."), to a date within the inclusive window |
| DateParse.PrintedDateValid | crawler/naver_crawler_v2.py:21-29 | a date printed as "YYYY.MM.DD." is valid exactly when it lies in the window |
| DateParse.OneDayWindow | crawler/naver_crawler_v2.py:26 | in a one-day window, a valid text parses to that very day |
| DateParse.ValidIn2024Iff | crawler/naver_crawler.py:29-36 | the docId check (also in crawler/naver_crawler_single.py:26-33) accepts exactly texts without "전" that parse as `%Y.%m.%d.` after strip to a date of 2024 |
| DateParse.LegacyAcceptedByWindowed | crawler/naver_crawler.py:33 | every text the docId check accepts, the windowed check accepts over 2024 |
| DateParse.WindowedAcceptsUndotted | crawler/naver_crawler.py:33 | a 2024 date without the final dot passes the windowed check but not the docId check, so the two checks differ |
| Pages.AbsoluteUrl | crawler/naver_crawler_v2.py:224 | a link starting with "http" is kept; any other link gets the site host prepended |
| DateField.SelectDateSpan | crawler/naver_crawler_v2.py:97-106 | a date span exists exactly with 3 or 4 info spans: span 1 of 3, span 2 of 4 |
| DateField.LabelsRemoved | crawler/naver_crawler_v2.py:108-112 | a date text is recovered unchanged when bare, after "작성일" or after "끌올작성일", with any blanks in between |
| DateField.LabelsKeep | crawler/naver_crawler_v2.py:108-112 | removing the labels never removes any other non-blank character |
| CrawlerV2.ToItem | crawler/naver_crawler_v2.py:162-170 | a record is stored as an object with exactly the seven keys, title and content possibly `null` |
| CrawlerV2.ExtractDepartment | crawler/naver_crawler_v2.py:31-48 | a failed request or a missing specialty line gives "ERROR"; any other result is the specialty line, normalised |
| CrawlerV2.ExtractDoctorName | crawler/naver_crawler_v2.py:50-64 | a failed request or a missing name gives "ERROR"; any other result is the profile's name |
| CrawlerV2.NormalizeSpecialty | crawler/naver_crawler_v2.py:41-45 | a specialty line naming a dentist gives "치과"; every result has no surrounding blanks |
| CrawlerV2.SpecialistSuffixDropped | crawler/naver_crawler_v2.py:44 | "<name> 전문의" and the bare name both give the name |
| CrawlerV2.SpecialistAlone | crawler/naver_crawler_v2.py:44 | the line "전문의" alone gives the empty department |
| CrawlerV2.SpecialistRemovedOnce | crawler/naver_crawler_v2.py:44 | removal is a single pass: "전전문의문의" gives "전문의", which in turn gives "" (not idempotent) |
| CrawlerV2.FileFor | crawler/naver_crawler_v2.py:71-74 | every department is filed in a name ending in "_train.json" |
| CrawlerV2.FileForShared | crawler/naver_crawler_v2.py:71-74 | two departments share a file exactly when they are equal or are "" and "미분류" |
| CrawlerV2.Save | crawler/naver_crawler_v2.py:70-85 | the save fails exactly when the file exists and does not decode; otherwise the file holds its old records (none if missing) plus the new one, and every other file is unchanged |
| CrawlerV2.SaveAppends | crawler/naver_crawler_v2.py:76-82 | after a save, every file's records are its old records, plus the item in the department's file only |
| CrawlerV2.SaveToFile | crawler/naver_crawler_v2.py:70-85 | the directory becomes `Save`'s result, or stays unchanged when that fails |
| CrawlerV2.FirstExpert | crawler/naver_crawler_v2.py:127-134 | the index found is that of the first block with the specialist badge and a profile link; none exists when no block qualifies |
| CrawlerV2.FindExpertProfile | crawler/naver_crawler_v2.py:124-134 | the loop with `break` finds an expert exactly when one exists, with the first expert's link |
| CrawlerV2.GetDetailContent | crawler/naver_crawler_v2.py:88-178 | the outcome and the directory are those of resolving the page and then saving the record; a failed save turns the outcome into an error |
| CrawlerV2.ResolveAccepted | crawler/naver_crawler_v2.py:114-170 | an accepted record's date parses to a date in the window; department and doctor are not "ERROR"; an expert block exists; the answer URL is the absolute form of the page's first profile-card link under a `_contentBox`, whichever block holds it; the profile at that URL was fetched, and its specialty line, normalised, is the department and its name is the doctor |
| CrawlerV2.RelativeDateOutOfRange | crawler/naver_crawler_v2.py:114-115 | a relative date span makes the question out of range |
| CrawlerV2.OutOfRangeIffDateRejected | crawler/naver_crawler_v2.py:114-115 | once a date span is found, a page is out of range exactly when the unlabelled date text is invalid |
| CrawlerV2.LabelledDateDecides | crawler/naver_crawler_v2.py:108-115 | a printed date with either label or none is out of range exactly when it lies outside the window |
| CrawlerV2.CrawlItems | crawler/naver_crawler_v2.py:218-226 | the entry loop appends, in listing order, the accepted record of every linked entry and leaves the directory as the successive detail steps do |
| CrawlerV2.CrawlDay | crawler/naver_crawler_v2.py:198-232 | the page loop over one day's window reads pages from 1 while under the cap and at most page 100, stopping at an empty page, as the page-by-page specification does |
| CrawlerV2.CrawlMonth | crawler/naver_crawler_v2.py:181-242 | the day loop, with the cap checked before each day, returns the records and leaves the directory exactly as the day-by-day, page-by-page specification does |
| CrawlerV2.CrawlMonthOverMonthDays | crawler/naver_crawler_v2.py:181-238 | the day loop walks exactly the one-day windows of `Calendar.MonthDays`, in order, stopping at the cap |
| CrawlerV2.StepOfOutOfRangeWritesNothing | crawler/naver_crawler_v2.py:114-172 | an out-of-range question leaves the corpus unchanged |
| CrawlerV2.SkipsOutOfRange | crawler/naver_crawler_v2.py:218-226 | an out-of-range entry is skipped and the entries after it are visited as if it were absent; nothing ends the walk, unlike the keyword crawler |
| CrawlerV2.OutOfRangeThenAccepted | crawler/naver_crawler_v2.py:211-229 | a day whose page lists an out-of-range question and then an accepted one yields the second question's record |
| CrawlerV2.StepOfKeepsDay | crawler/naver_crawler_v2.py:114-115 | in a one-day window, every record the detail step accepts is dated on that very day |
| CrawlerV2.CrawlMonthChronological | crawler/naver_crawler_v2.py:189-238 | every returned record is dated within the month, and the records come in calendar order |
| CrawlerV2.CrawlMonthCapped | crawler/naver_crawler_v2.py:192-201 | with listing pages of at most n entries, a month yields fewer than 7000 + n records, because the cap is checked only between pages |
| CrawlerV2.PagesReadAtMostMaxPage | crawler/naver_crawler_v2.py:201 | a day's walk never depends on listing pages beyond page 100 |
| CrawlerV2.CrawlMonthStore | crawler/naver_crawler_v2.py:172 | afterwards each file holds its former records followed by the returned records filed under it, in order |
| CrawlerKeyword.ToItem | crawler/naver_crawler_keywork.py:75-80 | a record is stored with exactly the four keys, all strings |
| CrawlerKeyword.TitleLabelDropped | crawler/naver_crawler_keywork.py:61-64 | a leading "질문" and the blanks after it are removed; a title not starting with it is kept as it is |
| CrawlerKeyword.ResolveAccepted | crawler/naver_crawler_keywork.py:33-80 | an accepted record has non-empty title, content and department; the title is the page's title without a leading "질문"; the content is the page's content; the department is the page's tag; the date is a non-relative date in the window |
| CrawlerKeyword.RelativeDateOutOfRange | crawler/naver_crawler_keywork.py:58-59 | a relative date span makes the question out of range |
| CrawlerKeyword.CrawlMonth | crawler/naver_crawler_keywork.py:86-137 | the page loop, the entry loop and the early return give exactly the specification's records |
| CrawlerKeyword.CrawlMonthReference | crawler/naver_crawler_keywork.py:94-137 | the result is the first 333 accepted records, in listing order, among the linked entries before the first out-of-range question; errors are skipped |
| CrawlerKeyword.HarvestStopsAtCut | crawler/naver_crawler_keywork.py:127-128 | nothing after an out-of-range outcome contributes a record |
| CrawlerKeyword.CrawlMonthRecords | crawler/naver_crawler_keywork.py:86-137 | at most 333 records; each has a title, content and department, and a non-relative date inside the month |
| CrawlerKeyword.FirstOutOfRangeEmpties | crawler/naver_crawler_keywork.py:127-128 | when the first linked entry is out of range, the month yields nothing |
| CrawlerDocId.ToItem | crawler/naver_crawler.py:75-80 | a record is stored with exactly the four keys, the date possibly `null` |
| CrawlerDocId.CrawlDocIff | crawler/naver_crawler.py:39-80 | a document is kept exactly when it was fetched, its tag is a target, and it has a title and content; the record carries them, the folded tag and the date text |
| CrawlerDocId.DentalFolding | crawler/naver_crawler.py:14-26 | exactly four labels are both targets and dental sub-fields; "치아 유지, 관리" is kept as itself; "치아 유지 , 관리" is not a target |
| CrawlerDocId.ConcatenatedTarget | crawler/naver_crawler.py:16 | pages tagged "류마티스내과", "이비인후과" or "치과" are dropped, while "류마티스내과이비인후과" is a target |
| CrawlerDocId.KeptDepartment | crawler/naver_crawler.py:50-54 | a kept record's department is "치과", or a target that is not a dental sub-field |
| CrawlerDocId.DateTextAfterLabel | crawler/naver_crawler.py:61-63 | dropping three characters removes a "작성일" label; after "끌올작성일", "성일" is left in the date text |
| CrawlerSingle.ToItem | crawler/naver_crawler_single.py:82-87 | a record is appended with exactly the four keys, all strings |
| CrawlerSingle.Crawl | crawler/naver_crawler_single.py:37-97 | the `for` loop with its `continue`s and exception handler accumulates exactly the records of the kept documents, in increasing docId order |
| CrawlerSingle.CrawlScript | crawler/naver_crawler_single.py:10-11 | the script's run covers docIds 461390338..461390438 and yields at most one record per document |
| CrawlerSingle.HarvestedBound | crawler/naver_crawler_single.py:37 | a range of n documents yields at most n records |
| CrawlerSingle.HarvestedIds | crawler/naver_crawler_single.py:37-87 | the kept docIds increase, lie in the range, are exactly the documents the body keeps, and the i-th record is the i-th kept document's |
| CrawlerSingle.VisitIff | crawler/naver_crawler_single.py:41-87 | a document is kept exactly when it was fetched, its tag is a target, and it has a title, at least three info spans and content; the record carries the title, the content, the tag (a dental sub-field folded into "치과") and the third span's text after its three-character label, stripped |
| CrawlerSingle.DentistryTagDropped | crawler/naver_crawler_single.py:52-54 | a page tagged "치과" itself is dropped, because "치과" is not a target |
| CrawlerSingle.DentalAllTargets | crawler/naver_crawler_single.py:16-23 | all five dental sub-fields are targets here; "치과" is not |
| RemoveLineBreaking.CleanRecord | data_cleaning/remove_line_breaking.py:24-34 | one iteration cleans a record's title and content and reports a change exactly when the cleaned record differs from the old one |
| RemoveLineBreaking.CleanItems | data_cleaning/remove_line_breaking.py:23-34 | each record is cleaned in place; `modified` is true exactly when some record changed |
| RemoveLineBreaking.CleanChars | data_cleaning/remove_line_breaking.py:26 | `replace("\n", " ")` keeps the length, turns each line break into a space, leaves none, and changes the text exactly when it held one |
| RemoveLineBreaking.CleanItemFields | data_cleaning/remove_line_breaking.py:24-34 | keys and every other field are kept; title and content, where present, are cleaned |
| RemoveLineBreaking.CleanItemChanges | data_cleaning/remove_line_breaking.py:25-34 | a record changes exactly when its title or content holds a line break |
| RemoveLineBreaking.ChangedIff | data_cleaning/remove_line_breaking.py:23-34 | `modified` is set exactly when some record holds a line break; otherwise the records are unchanged |
| RemoveLineBreaking.CleanAllIdempotent | data_cleaning/remove_line_breaking.py:24-34 | a second pass changes nothing and reports no modification |
| RemoveLineBreaking.CleanOneFile | data_cleaning/remove_line_breaking.py:9-42 | one file's pass: a name not ending in ".json" or undecodable content is skipped; otherwise the file is rewritten exactly when some record changed, with the cleaned records |
| RemoveLineBreaking.CleanDirectory | data_cleaning/remove_line_breaking.py:8-42 | after the pass over the listed names every file holds its cleaned contents, and the rewritten names are reported in listing order |
| RemoveLineBreaking.CleanDirectoryRewrites | data_cleaning/remove_line_breaking.py:8-42 | a file is rewritten exactly when it is a decodable ".json" file with a record whose title or content holds a line break |
| RemoveLineBreaking.SecondPassNoop | data_cleaning/remove_line_breaking.py:8-42 | running the script again over its own output rewrites no file |
| MoveByDoctor.Moved | data_cleaning/document_move_by_doctor.py:29 | every moved record was answered by the doctor |
| MoveByDoctor.Remaining | data_cleaning/document_move_by_doctor.py:30 | no remaining record was answered by the doctor |
| MoveByDoctor.Partition | data_cleaning/document_move_by_doctor.py:29-30 | together the two lists hold exactly the source's records, as a multiset and by count |
| MoveByDoctor.PartitionAppend | data_cleaning/document_move_by_doctor.py:29-30 | both lists keep source order |
| MoveByDoctor.PartitionMembers | data_cleaning/document_move_by_doctor.py:29-30 | a record of the doctor is moved; any other record stays, including one without a "doctor" key |
| MoveByDoctor.MoveByDoctorAsWritten | data_cleaning/document_move_by_doctor.py:24-48 | the script as written: source rewritten first, then the target read and extended |
| MoveByDoctor.AsWrittenLosesMoved | data_cleaning/document_move_by_doctor.py:33-41 | with an undecodable target, the source loses the doctor's records and the target does not receive them |
| MoveByDoctor.AsWrittenLosesRecord | data_cleaning/document_move_by_doctor.py:33-41 | concrete case: one record of the doctor and an undecodable target leave no record in either file |
| MoveByDoctor.MoveByDoctor | data_cleaning/document_move_by_doctor.py:24-48 | the corrected order (read the target, then write both files) performs `Move` |
| MoveByDoctor.MoveHeld | data_cleaning/document_move_by_doctor.py:29-41 | a completed corrected move keeps every record held by the source and target files together |
| MoveByDoctor.MoveConserves | data_cleaning/document_move_by_doctor.py:29-48 | the corrected move changes nothing, or: the source holds the others in order; the target holds its old records (none if missing) then the doctor's; both files together hold the same records; no other file changes |
| MoveByDoctor.AsWrittenAgrees | data_cleaning/document_move_by_doctor.py:37-41 | when the target decodes or is missing, the script as written and the corrected move coincide |
| ModifyDepartment.SetDepartment | data_cleaning/modify_department.py:14-15 | the loop relabels every record in place, in order |
| ModifyDepartment.ModifyDepartment | data_cleaning/modify_department.py:5-19 | a missing or undecodable input stops the script; otherwise the output file receives the relabelled records |
| ModifyDepartment.RelabelFields | data_cleaning/modify_department.py:14-15 | every record's department becomes "치과"; every other field is kept and no other key is added |
| ModifyDepartment.RelabelIdempotent | data_cleaning/modify_department.py:14-15 | relabelling twice is relabelling once |
| ModifyDepartment.InputKept | data_cleaning/modify_department.py:6-19 | the input file is never rewritten; only the output file changes |

## Left out

- HTTP requests, status codes, timeouts, retries and `time.sleep` pacing are not modelled. Every request is a `Fetch` value. In the keyword crawler a listing answered with a non-200 status is still parsed, so it counts as a fetched page with whatever entries it holds.
- HTML parsing with BeautifulSoup selectors is not modelled. A page is the strings and lists the selectors extract, already stripped where `get_text(strip=True)` strips them.
- `print` output is left out, including the misleading final message of `modify_department.py`.
- The thread pool of crawler/naver_crawler.py:97-122 and the `safe_crawl` wrapper (lines 89-94) are concurrency and exception plumbing around `crawl_doc`. `CrawlDoc` is total, so the wrapper adds nothing.
- The `__main__` blocks are not modelled: v2 (crawler/naver_crawler_v2.py:244-263, including its floating-point percentage), keyword (crawler/naver_crawler_keywork.py:139-152) and docId. The final JSON dump of crawler/naver_crawler_single.py:99-103 is left out too. So is the commented-out code of the keyword crawler.
- JSON encoding and decoding are not modelled. A file is a list of string-keyed objects whose values are strings or `null`, or content that does not decode. A top-level value that is not a list, or nested values, are outside the model.
- Text encoding is not modelled. `remove_line_breaking.py` catches only `json.JSONDecodeError`, so a file that is not valid UTF-8 raises `UnicodeDecodeError` and stops the script. The model treats every `Undecodable` file as one that fails JSON decoding and skips it.
- A question page's first profile-card link (`leadProfileHref`) is a field of its own, independent of the answer blocks. The model therefore also admits pages the parser cannot produce: an answer block with a profile link while `leadProfileHref` is `None`. The `Error` outcome that `CrawlerV2.Resolve` gives such a page cannot occur on the site.
- `os.listdir` order is a parameter of `RemoveLineBreaking.CleanDirectory`. Directory paths are dropped: file names are relative to each script's directory.
- RemoveLineBreaking.CleanDirectory requires every title and content of a processed file to be a string. With `null` there, `replace` raises and the script stops part-way through the directory, and that abort is not modelled.
- A listing is a finite sequence of pages, and every later page is empty. A listing that never ends, with no record accepted, would keep the keyword crawler requesting pages forever; that case is not modelled.
- Python's `\d` in `strptime` also matches non-ASCII decimal digits. The model accepts ASCII digits only.
- CrawlerV2.CrawlMonth requires year ≤ 9999. In December 9999, Python raises `OverflowError` when stepping past the last day; the model instead ends the loop with a date in year 10000.
- CrawlerV2.GetDetailContent models the two fetches of the profile page, for the department and then the doctor, as one function of the URL. A profile page that changes between the two requests is not modelled.
- The v2 `save_to_file` failure on an undecodable file is the exception caught by `get_detail_content`, and becomes `Error` with nothing written. A failing write is not modelled.
- data_cleaning/spacing_correction.py is not part of this model. Its behaviour is the foreign `pykospacing` call.
- The model/ directory is not part of this model. It contains training, prediction and plotting code on floating point.

## Findings

| source | as written | input that shows it | evidently intended | confidence | as-written member | corrected member |
|---|---|---|---|---|---|---|
| data_cleaning/document_move_by_doctor.py:33-41 | the source file is overwritten without the doctor's records before the target file is read, and a target that fails to decode raises | `미분류_test.json` holding one record with doctor "소성민", and `비뇨의학과_test.json` that does not decode: that record ends up in neither file | read the target before writing anything, so a failure loses nothing and a completed move keeps every record | not executed | MoveByDoctor.MoveByDoctorAsWritten (lemmas MoveByDoctor.AsWrittenLosesMoved, MoveByDoctor.AsWrittenLosesRecord) | MoveByDoctor.MoveByDoctor (lemma MoveByDoctor.MoveConserves) |
