# CodeWme content site and authoring tools — a verified model

The site serves practice-quiz sets, articles and contests. Three desktop tools
feed it: the builder (articles and questions), the older article builder, and
the PDF-to-question extractor. A one-off script repairs the questions file.
This project models the data logic of all of these in Dafny and proves what
the code promises. Widgets, files, the database connection, the clock, random
ids and the Gemini service are not modelled.

Modules, leaves first:

- `Wrappers` — `Option` and `Result`.
- `Strings` — Python's `str.strip` (with the full `str.isspace` set), ASCII
  `upper`/`lower` and SQLite `COLLATE NOCASE`, Python's `lower` on ASCII and
  Latin-1 capitals, substring search, ASCII digits, and
  code-point string order (Python `str` order, which is also SQLite's `BINARY`
  order on UTF-8 text).
- `StableSort` — Python's `list.sort` as a stable insertion sort over a total
  preorder, and `DISTINCT` as first-occurrence de-duplication.
- `QuizRepository` — the SQL of `utils.py`. It covers the grouped and paged
  set listing, the set page (`get_mcq_set_data`) with its case-insensitive
  lookup, the `has_next` probe, and the five-link sidebar.
- `ArticleStore` — the articles file and the lookup by slug.
- `ContestStore` — `strptime` for `'%Y-%m-%d %H:%M:%S'`, the live/expired
  split and both sorts. `now` is a parameter.
- `ArticleEditor` — publish, edit and delete in both builders. It also covers
  the template written for an article, reading its body back, the YouTube
  id scanner, and how the article list hands the selected slug back.
- `McqEditor` — saving a question (validation, answers from checkboxes,
  upsert by id, tag and description synced across the set), deleting one,
  loading one back into the form, and the sorted question list.
- `PdfExtractor` — the key mask, the model registry and queue, and
  `clean_json_text`. It also covers the ten-page chunking and how the run
  numbers and appends the extracted questions.
- `DataRepair` — `fix_swapped_fields` on the loaded list.

The model follows the code on these points:

- The set listing and the sidebar both order set numbers descending
  (utils.py:51 and utils.py:106).
- A set summary's tag and description come from whatever row SQLite picks for
  the group (`GROUP BY` with bare columns), not from the first row.
  `Summarize` takes that choice as a parameter and proves only that both
  fields come from one single row of the group.
- The set-page lookup only turns hyphens into spaces. It normalises no other
  whitespace.
- Category matching is case-insensitive on the set page only. The listing
  groups categories case-sensitively.
- A page number below 1 is not rejected. Its negative offset reads as offset 0.
- The listing lowers its link slugs with Python's `lower`, but the set page
  folds only ASCII letters (see Findings). The listing is modelled with the
  corrected, ASCII-only slug; the code's slug is `QuizRepository.SlugAsWritten`.

## Model

| member | source | states |
|---|---|---|
| Strings.Strip | test.py:19-20 | The result is a slice of the input with only whitespace before and after it, and it is empty or starts and ends with a non-whitespace character |
| Strings.StripIgnoresSurroundingSpace | builder.py:658 | Whitespace added around a text never changes what `strip` gives |
| Strings.StripIdempotent | builder.py:659 | Stripping twice is stripping once, so stored options are already stripped when read back |
| Strings.StrLeTotalOrder | utils.py:51 | Code-point string order, as `ORDER BY category` uses it, is reflexive, transitive, antisymmetric and total |
| Strings.PyLower | utils.py:59 | Python's lowering keeps the length, agrees with the ASCII fold on ASCII, maps each Latin-1 capital (U+00C0..U+00DE but U+00D7) to the letter 32 code points above it, and leaves every other non-ASCII character as it is |
| Strings.FindFrom | mcq_extractor_gui.py:145 | The search returns the first position at or after the start where the pattern occurs, and none exactly when it occurs nowhere there |
| StableSort.SortIsStable | utils.py:150-153 | The sorted list is ordered by the key, and elements with equal keys keep their original relative order |
| StableSort.FilterAppend | utils.py:137-148 | A filter keeps one element exactly when it is accepted, and the filter of two stretches is the filter of the first followed by that of the second, so a filter keeps input order |
| StableSort.Dedup | utils.py:103 | `DISTINCT` keeps each value once and loses none |
| StableSort.SortDistinct | utils.py:102-106 | Sorting a duplicate-free list leaves it duplicate-free |
| ArticleStore.SlugIndex | builder.py:595 | The position found is the first record with the slug; none exactly when no record has it |
| ArticleStore.ArticleBySlug | utils.py:27-30 | The lookup returns a record of the file that carries the slug, and nothing exactly when no record has that slug; a missing file has no records |
| ArticleStore.LookupFindsUniqueRecord | utils.py:27-30 | When slugs are unique, the lookup returns exactly the record carrying the slug |
| QuizRepository.ListingLeIsTotalPreorder | utils.py:51 | The order "category ascending, then set number descending" is a total preorder |
| QuizRepository.OrderedKeys | utils.py:47-51 | The listing has the key of every row, only keys of rows, and strictly ascends in listing order |
| QuizRepository.OrderedKeysDistinct | utils.py:50 | No `(category, set_id)` group appears twice in the listing |
| QuizRepository.Summarize | utils.py:48-59 | A summary carries its group's key, the (corrected, see Findings) slug of its category, and the tag and description of one single row of that group |
| QuizRepository.AllSets | utils.py:47-60 | The full listing has one summary per group, in listing order, each with the corrected slug of its category (see Findings) and one row's tag and description |
| QuizRepository.Slug | utils.py:59 | The corrected slug is lower-case, has no spaces, keeps the length, and folds under NOCASE to the hyphenated category, so the set page can undo it |
| QuizRepository.PaginatedSets | utils.py:34-61 | A missing database gives no sets, and a page has at most `per_page` sets |
| QuizRepository.PageIsSlice | utils.py:42-53 | Page `p` of size `n` is exactly elements `(p-1)*n` up to `(p-1)*n + n` of the full listing, cut at its end |
| QuizRepository.PagesConcatenate | utils.py:42-53 | Pages 1 to k fetched in turn concatenate to a prefix of the full listing, with no gap and no repetition |
| QuizRepository.ShortPageIsLast | utils.py:52-53 | A page shorter than the page size is followed by an empty page, so the end-of-list signal skips nothing |
| QuizRepository.PageBelowOneIsFirstPage | utils.py:42 | A page number below 1 gives the first page, because SQLite reads a negative offset as zero |
| QuizRepository.SetRows | utils.py:76-79 | The set query returns exactly the stored rows with the set number whose category matches ignoring ASCII case, each as often as it is stored |
| QuizRepository.SetRowsAppend | utils.py:76-79 | The query is a filter in stored order: one row is kept exactly when it matches, and the result for two stretches of rows is the first's result followed by the second's |
| QuizRepository.SetExists | utils.py:94-99 | The probe is true exactly when some row of the category has the set number |
| QuizRepository.CategorySetIds | utils.py:102-105 | The set numbers listed are exactly those of rows in the category |
| QuizRepository.DistinctDescending | utils.py:103-106 | `SELECT DISTINCT ... ORDER BY set_id DESC` keeps exactly the input's values, strictly descending |
| QuizRepository.SidebarIds | utils.py:102-108 | The sidebar has at most five set numbers of the category, strictly descending, and any number left out is smaller than all five shown |
| QuizRepository.GetSetData | utils.py:63-123 | No page exactly when there is no database or no matching row; otherwise the page holds the matching rows, the first row's tag, the cleaned category, `has_next` for set `n+1`, and sidebar links carrying the cleaned category and the raw argument |
| QuizRepository.SetPageRows | utils.py:71-91 | The page holds exactly the stored rows with that set number whose category equals the hyphen-to-space argument ignoring ASCII case, each as often as stored; no page exactly when no row matches |
| QuizRepository.SetPageIgnoresCase | utils.py:71-108 | Two case variants of a category get the same answer: both pages exist or neither does, with the same questions, tag, `has_next` and sidebar numbers |
| QuizRepository.HasNextIsSuccessorProbe | utils.py:94-99 | `has_next` holds exactly when set `n+1` of the category has a page; a larger but non-adjacent set does not count |
| QuizRepository.SlugRoundTrip | utils.py:59-71 | For a hyphen-free category, turning the corrected slug's hyphens back into spaces recovers the category up to ASCII case |
| QuizRepository.SlugAsWritten | utils.py:59 | The code's slug has no spaces, keeps the length, and equals the corrected slug on ASCII categories |
| QuizRepository.SlugAsWrittenRoundTrip | utils.py:59-71 | For a hyphen-free ASCII category, the code's slug turns back into the category up to ASCII case |
| QuizRepository.AccentedCapitalLinkIsDead | utils.py:59-79 | The code's link for the category "Été" is `été`, and the set page finds no rows for it, while the corrected link finds the row |
| QuizRepository.ListingLinksResolve | utils.py:59-79 | With the corrected slug, every listed set whose category has no hyphen links to an existing set page holding every row of that group |
| QuizRepository.CaseVariantsShareOnePage | utils.py:47-79 | Categories that differ only in case form two groups in the listing but share one set page |
| ContestStore.PadOrder | utils.py:151-153 | Zero-padded numbers of one width compare as text the way they compare as numbers |
| ContestStore.FormatOrder | utils.py:151-153 | For stamps in the zero-padded form, text order is time order |
| ContestStore.FormatThenParse | utils.py:140-141 | A zero-padded stamp of a valid time parses back to the same time |
| ContestStore.Window | utils.py:138-148 | A contest is kept exactly when both stamps are present and both parse, and then both are valid times |
| ContestStore.Classify | utils.py:137-148 | Live holds every readable contest ending after now and expired every other readable one, each as often as in the file |
| ContestStore.ClassifyIsFilters | utils.py:137-148 | The split loop's live list is the live contests of the file in file order, and its expired list the expired ones in file order |
| ContestStore.LiveLeIsTotalPreorder | utils.py:151 | Ordering by start text is a total preorder |
| ContestStore.ExpiredLeIsTotalPreorder | utils.py:153 | Ordering by descending end text is a total preorder |
| ContestStore.ContestsData | utils.py:126-155 | A missing file gives two empty lists; otherwise each readable contest lands in exactly one list, live sorted by start text ascending and expired by end text descending |
| ContestStore.ContestsKeepFileOrderOnTies | utils.py:137-153 | Among the live contests, those with equal start text come in the order they have in the file, and likewise the expired ones with equal end text |
| ContestStore.ListsAreChronological | utils.py:150-153 | With zero-padded stamps, no live contest starts before an earlier-listed one and no expired contest ended after an earlier-listed one |
| ContestStore.TextOrderIsTimeOrder | utils.py:151-153 | Text order of two zero-padded stamps never contradicts their time order |
| ArticleEditor.Upsert | builder.py:595-597 | A new slug is put at the front; an existing slug's first record is replaced in place and nothing else changes |
| ArticleEditor.UpsertKeepsSlugsUnique | article_builder.py:397-399 | Publishing keeps slugs unique when they were unique before |
| ArticleEditor.UpsertThenLookup | utils.py:27-30 | After publishing, the site's lookup by the slug finds exactly the published record |
| ArticleEditor.PublishArticle | article_builder.py:381-411 | Publishing fails exactly when a required entry is empty (title and slug; the article builder also needs the video id). Otherwise the record is findable by stripped slug, every other record stays, the list grows only for a new slug, unique slugs stay unique, and the template is named after the stripped slug |
| ArticleEditor.ExtractBody | article_builder.py:352-355 | The body is the text between the first body tag and the first end tag after it, holds no end tag, and is absent exactly when no end tag follows any body tag |
| ArticleEditor.EditArticle | builder.py:520-543 | Looking the record up by its stored slug text, the form is loaded exactly when a record has the slug; it then carries that slug and the first such record's title, video id, category, description and (combined builder) placeholder, an empty link field, and the template's stripped body, or the cleared form's text when there is no body |
| ArticleEditor.TemplateBodyRoundTrip | article_builder.py:402-409 | A written template's body block reads back as the editor text on lines of its own, when no marker occurs in the fields or the text |
| ArticleEditor.StripTextGet | builder.py:590 | The newline Tk appends to a Text widget's contents disappears under `strip` |
| ArticleEditor.PublishThenEdit | builder.py:520-609 | Loading a just-published article gives back the published entries and the stripped slug, description and placeholder. The editor holds its text without surrounding whitespace |
| ArticleEditor.RepublishIsStable | builder.py:529-591 | Publishing a reloaded form writes the same record again |
| ArticleEditor.DeleteArticle | builder.py:555 | Deleting keeps exactly the records with another slug |
| ArticleEditor.DeleteKeepsOrder | article_builder.py:367 | Deleting distributes over concatenation, so the kept records stay in order |
| ArticleEditor.DeleteUndoesUpsert | builder.py:555-597 | Deleting a slug after publishing it leaves the other records as they were before |
| ArticleEditor.ListValueOf | builder.py:523 | The article list hands a slug back as a number exactly when Python's `int` reads it as one (sign, digit groups, surrounding whitespace), and as the slug itself otherwise; a non-empty run of digits comes back as its value |
| ArticleEditor.EditSelected | builder.py:520-527 | As written: a value read back as a number loads nothing; text loads a form exactly when a record has that slug, and the form carries it |
| ArticleEditor.DeleteSelected | builder.py:545-556 | As written: a value read back as a number keeps every record; text keeps exactly the records with another slug |
| ArticleEditor.SelectedRowAgrees | builder.py:520-556 | Editing and deleting the selected row act as EditArticle and DeleteArticle on its slug exactly when the slug is not integer text; for integer text editing loads nothing and deleting keeps every record |
| ArticleEditor.NumberSlugIsLost | builder.py:523 | With one article of slug `2024`, the slug lookup finds it and deleting by slug removes it, but the selected row hands back 2024, so editing loads nothing and deleting keeps the record |
| ArticleEditor.FindVideoId | builder.py:414 | The search returns the id of the leftmost match: eleven characters from `[0-9A-Za-z_-]` right after `v=`, `/` or `embed/`, and none exactly when nothing matches |
| ArticleEditor.ParseVideoId | builder.py:412-415 | The video-id field becomes the id of the leftmost match, eleven id characters long, and is unchanged when nothing matches |
| ArticleEditor.ShortLinkId | article_builder.py:243-246 | The id of a `https://youtu.be/<id>` link is found whatever follows it |
| McqEditor.NonEmpty | builder.py:659 | The kept options are exactly the non-empty ones |
| McqEditor.Checked | builder.py:669-672 | The answers are exactly the non-empty texts whose checkbox is set |
| McqEditor.FilledAreClean | builder.py:659 | Every saved option is non-empty and already stripped |
| McqEditor.CheckedIsSubsequence | builder.py:659-672 | The answers are the saved options with the unchecked ones dropped, in option order |
| McqEditor.NoMarkedOptions | builder.py:669-676 | No answer is kept exactly when no checked box is filled |
| McqEditor.IdIndex | builder.py:710 | The position found is the first record with the id; none exactly when no record has it |
| McqEditor.UpsertById | builder.py:710-714 | An existing id's first record is replaced in place; a new id is appended at the end |
| McqEditor.SyncSet | builder.py:717-720 | Every record of the set takes the tag and description; everything else stays as it was |
| McqEditor.SaveMcq | builder.py:656-723 | The first failed check wins (empty question, fewer than two options, no checked option) and nothing is written. After them, a set box `IntVar.get()` cannot read fails too, with nothing written. Otherwise the record replaces the first record with its id or is appended, its set carries the new tag and description, and every other position, later records with the same id included, keeps its record apart from that sync |
| McqEditor.SaveOutcomeHolds | builder.py:710-720 | Upserting then syncing the set gives the save outcome: record at the first index with its id or at the end, set synced, every other index unchanged but for the sync |
| McqEditor.SavedAnswersAreOptions | builder.py:659-676 | A saved question's answers are a non-empty list of its options, in option order |
| McqEditor.DeleteMcq | builder.py:780 | Deleting keeps exactly the records with another id |
| McqEditor.DeleteMcqKeepsOrder | builder.py:780 | Deleting distributes over concatenation, so the kept records stay in order |
| McqEditor.DeleteUndoesUpsertById | builder.py:780 | Deleting a question's id removes whatever saving it added or replaced |
| McqEditor.ScanFlagsAsWritten | builder.py:763-766 | The checkbox loop as written raises exactly when an answer sits past the fifth option, at the first such index, with the boxes before it already checked |
| McqEditor.EditFlagsAsWritten | builder.py:758-766 | Loading raises `IndexError` in the checkbox loop exactly when a stored answer is an option past the fifth box; the text fields and option boxes are filled before it |
| McqEditor.EditFlags | builder.py:754-766 | Box `k` is checked exactly when option `k` exists and is a stored answer; a bare-string answer counts as a one-answer list |
| McqEditor.EditFlagsAgree | builder.py:754-766 | Wherever the loop as written gets through, it checks the same boxes as the bounded loop |
| McqEditor.SixthAnswerBreaksEdit | builder.py:763-766 | Loading a question whose sixth option is its answer raises `IndexError` at the sixth checkbox with no box checked |
| McqEditor.EditThenSaveKeepsAnswers | builder.py:659-766 | Loading a question with up to five clean, distinct options and saving it keeps its options and its answers |
| McqEditor.EditKeepsOptions | builder.py:659-756 | Loading up to five clean options into the boxes and reading the filled boxes back gives the options again |
| McqEditor.McqLeIsTotalPreorder | builder.py:626 | Ordering by category, then set number, is a total preorder |
| McqEditor.McqListOrder | builder.py:626-632 | The question list is a permutation of the file, sorted by category then set number, with equal keys in file order |
| PdfExtractor.ApiKey | mcq_extractor_gui.py:14-19 | The key is present exactly when the variable is set and non-empty, and is then the variable's value |
| PdfExtractor.MaskHidesMiddle | mcq_extractor_gui.py:278 | A key of eight or more characters keeps its length, its first and last four characters, and shows stars everywhere between |
| PdfExtractor.ShortKeyShown | mcq_extractor_gui.py:278 | A key shorter than eight characters gets no star: a key of up to four characters is shown twice over, a longer one as its first four characters followed by its last four |
| PdfExtractor.SleepFor | mcq_extractor_gui.py:129-132 | The wait is 2 seconds exactly when the name contains `flash` or `gemma` as written, else 10 |
| PdfExtractor.BuildModelQueue | mcq_extractor_gui.py:119-140 | One entry per model in order. JSON mode holds exactly when the lower-cased name contains `gemini` but neither `image` nor `audio`, and the wait follows the sleep rule |
| PdfExtractor.QueueOfJoin | mcq_extractor_gui.py:115-140 | The queue of joined model lists is the two queues joined, so supported models stay ahead |
| PdfExtractor.JsonModeIgnoresCase | mcq_extractor_gui.py:126 | JSON mode reads the name ignoring case: an upper-case Gemini name gets it |
| PdfExtractor.SleepHeedsCase | mcq_extractor_gui.py:129-132 | The wait reads the name as written: an upper-case GEMMA name waits 10 seconds, a lower-case one 2 |
| PdfExtractor.FencedBodyHasNoTicks | mcq_extractor_gui.py:145 | The non-greedy group never holds three backticks |
| PdfExtractor.BracketSpan | mcq_extractor_gui.py:148-149 | The greedy match runs from a `[` to a `]` of the reply, and is absent exactly when no `[` precedes a `]` |
| PdfExtractor.CleanJsonText | mcq_extractor_gui.py:142-151 | An empty reply gives `"[]"`; any other reply gives a piece of itself. A fenced body holds no three backticks; without a closed fence, a reply with a `[` before a `]` gives a span from `[` to `]`, and one without gives itself |
| PdfExtractor.FenceRoundTrip | mcq_extractor_gui.py:145-146 | A reply gives back exactly the JSON of its first json fence, up to the first three backticks after it, whatever surrounds it and whatever whitespace follows the fence; backticks inside the JSON are allowed as long as three never run together |
| PdfExtractor.InlineCodeKept | mcq_extractor_gui.py:145-146 | Fenced JSON quoting inline code in single backticks comes back whole |
| PdfExtractor.UnclosedFenceFallsBack | mcq_extractor_gui.py:145-151 | A json fence that is never closed is passed over: the reply gives its outermost bracketed span if it has one, and otherwise itself |
| PdfExtractor.BracketRoundTrip | mcq_extractor_gui.py:148-149 | A reply without a json fence gives back the span from its first `[` to its last `]` |
| PdfExtractor.ChunksFrom | mcq_extractor_gui.py:361-367 | Each chunk starts ten pages after the previous one and holds at most ten pages |
| PdfExtractor.ChunksPartitionPages | mcq_extractor_gui.py:359-367 | The chunks cover every page of the PDF once, in order |
| PdfExtractor.AppendChunkIsNumbered | mcq_extractor_gui.py:387-402 | Appending one question at a time with a running count appends the numbered chunk |
| PdfExtractor.NumberedJoin | mcq_extractor_gui.py:388-389 | Numbering two runs back to back is numbering them joined |
| PdfExtractor.ChunksAreOneRun | mcq_extractor_gui.py:381-402 | Numbering chunk by chunk with the count carried across chunks is numbering the whole run at once |
| PdfExtractor.RunOutput | mcq_extractor_gui.py:372-402 | The stored questions are kept first, unchanged; then the k-th new question of the run is written with set `start + k / 20` |
| PdfExtractor.RunProcess | mcq_extractor_gui.py:347-423 | With a readable start number the run completes with RunOutput. With none it completes only when no chunk returned a question, and otherwise stops at the first new question: the file is untouched when that question is in the first chunk, and holds just the stored questions otherwise |
| PdfExtractor.NewSetNumbers | mcq_extractor_gui.py:388-389 | New set numbers start at the start number, never decrease, rise by at most one between neighbours, and at most twenty questions share one |
| DataRepair.RepairItem | test.py:17-38 | Only the tag and the category of a record can change, and the record always ends up with a tag |
| DataRepair.RepairMovesFields | test.py:24-38 | A swapped record takes its stripped tag as category and its stripped category as tag, upper-cased when it reads SALESFORCE in any case. Any other record keeps its category, and keeps its tag unless that reads SALESFORCE in some other case, when it is written upper-case |
| DataRepair.RepairAll | test.py:15-38 | The repaired list has the same length and order, each record repaired on its own, and the count is the number of swapped records |
| DataRepair.CountMarked | test.py:32 | The counter ends at the number of set flags |
| DataRepair.FixSwappedFields | test.py:4-42 | A missing file is left alone; otherwise every record is repaired in place, and the reported count is the number of records that needed a swap, zero exactly when none did |
| DataRepair.SalesforceRecordsAreStable | test.py:24-38 | A record whose tag ends up reading SALESFORCE is left exactly as it is by a second run |
| DataRepair.SecondRunSwapsBack | test.py:24-32 | The repair is not idempotent: when neither field reads SALESFORCE, a second run restores the original tag and category, stripped |
| DataRepair.PaddedTagKeptAsWritten | test.py:19-38 | A tag with whitespace around `Salesforce` is neither swapped nor standardised, because the check strips and the standardisation does not |

## Left out

- The Tkinter user interface: tooltips, scrolling frames, layout, text-insertion helpers, dialogs and status lines. They hold no data logic. Two reads from widgets do change the data and are modelled: the article list hands values back through Python's `int` (ArticleEditor.ListValueOf), and a set number is read with `IntVar.get()`, which can raise (McqEditor.SaveMcq, PdfExtractor.RunProcess).
- File and database I/O. Stores are sequences, and a missing file is `None`. JSON (de)serialisation is left out: `options` and `correct` arrive already decoded. A file that `save_mcq` or `run_process` cannot parse reads as empty, as the code does.
- JSON decoding failures and Python type errors. Examples: malformed `options` text on the set page, or a JSON `null` tag that makes `.strip()` raise in the repair script. Fields are typed strings or absent.
- Records without the keys the code indexes directly, such as `id`, `slug`, `question` or `options`. The code raises `KeyError` on those. Every record has them here.
- The clock, `uuid` and the environment. `now`, the publication date, fresh question ids and the `GEMINI_API_KEY` value are parameters.
- `extract_chunk`: the Gemini upload, polling, model calls, error classification and sleeps are network and time effects. A run is modelled from the questions each chunk returned. The queue's `sleep` value is modelled, but waiting is not.
- `pypdf` page reading and writing, temporary chunk files, and the `threading` in `start_thread`. Chunks are page ranges.
- Image copying and deletion when articles are edited or deleted (filesystem side effects), and the template file removal.
- `app.py`: route-to-template dispatch with no logic of its own.
- ContestStore.ParseTimestamp: the parse is modelled for ASCII digits only. `strptime` also accepts other Unicode decimal digits. The single-digit and space-padded fields are modelled, but the proved round trip covers only zero-padded stamps.
- ContestStore.Classify: the microseconds of `datetime.now()` are not modelled. Parsed stamps have whole seconds, so `end > now` is the same test against `now` cut to the second.
- Strings.PyLower: Python's `lower` is modelled on ASCII and the Latin-1 capitals only; the contract says every other non-ASCII character is kept, which Python's `lower` does not do for Greek, Cyrillic and other capitals. The counterexample to the listing links therefore uses an accented Latin capital.
- Strings.Upper: case mapping is ASCII-only. Python's `upper` also maps characters such as `ſ` to `S`, so the repair script would accept more tags as SALESFORCE than the model does.
- ArticleEditor.ListValueOf: only ASCII digits are modelled. Python's `int` also reads other Unicode decimal digits, so a slug such as `٢٠٢٤` also comes back as a number, while the model keeps it as text.
- McqEditor.SaveMcq: Tcl's number syntax is not modelled. The set box's read is a parameter, `None` when `IntVar.get()` raises. A read such as `2.5` giving 2 is covered only as the number it yields.
- PdfExtractor.RunProcess: the start entry is read at every new question, and the model takes one outcome for the whole run. A user editing the entry while the run's thread works is concurrency. Tcl's number syntax is not modelled, as for McqEditor.SaveMcq.
- PdfExtractor.RunOutput: the extractor writes no `image_url`. The record carries an empty image, which is how the builder reads a missing one.
- QuizRepository.PaginatedSets: its contract states only the missing-database case and the page-size bound. The exact slice is proved for `Page` over any listing (PageIsSlice, PagesConcatenate, ShortPageIsLast), and PaginatedSets applies `Page` to `AllSets`.
- QuizRepository.Summarize: states that the tag and description come from one row of the group, not which row. SQLite does not specify which.

## Findings

| source | as written | input that shows it | evidently intended | confidence | as-written member | corrected member |
|---|---|---|---|---|---|---|
| builder.py:763-766 | The checkbox loop walks every option and sets `mcq_var_correct_flags[i]`, but the form has only five checkboxes. The option loop at builder.py:755-756 guards with `i < 5`; this one does not | A stored question with options `a`..`f` whose answer is `f` (the extractor writes such questions): index 5 raises `IndexError` in the Tk callback. The text fields and option boxes are already filled, but the status line never reads "Editing Question..." and the exception escapes the handler (McqEditor.SixthAnswerBreaksEdit, McqEditor.EditFlagsAgree) | Only the five visible boxes are considered, as the option loop does; loading then saving keeps a question's answers (McqEditor.EditThenSaveKeepsAnswers) | not executed | McqEditor.EditFlagsAsWritten | McqEditor.EditFlags |
| builder.py:523 | `edit_selected` takes the slug from the selected row of the article list. ttk's `Treeview.item` passes every value through Python's `int`, so a digit-only slug comes back as a number, and `a['slug'] == slug` never holds for the stored text. The standalone builder does the same at article_builder.py:337 | An article with slug `2024`: edit returns silently without loading anything (ArticleEditor.NumberSlugIsLost, ArticleEditor.SelectedRowAgrees) | The selected article is loaded by its stored slug; a published article loads back as published (ArticleEditor.PublishThenEdit) | not executed | ArticleEditor.EditSelected | ArticleEditor.EditArticle |
| builder.py:548-556 | `delete_selected` takes the slug from the same row, so a digit-only slug arrives as a number and `a['slug'] != slug` keeps every record. It still removes `2024.html` and reports success. The standalone builder does the same at article_builder.py:361-362 | An article with slug `2024`: the record stays in the articles file while its template is removed (ArticleEditor.NumberSlugIsLost) | The selected article's record is removed; deleting a published slug restores the other records (ArticleEditor.DeleteUndoesUpsert) | not executed | ArticleEditor.DeleteSelected | ArticleEditor.DeleteArticle |
| utils.py:59 | The listing lowers its link slug with Python's `lower`, which also lowers accented capitals. The set page (utils.py:71-79) turns hyphens back into spaces and matches with SQLite `COLLATE NOCASE`, which folds only ASCII letters | A set of category `Été`: its link carries `été`, and `category = 'été' COLLATE NOCASE` matches no row, so the listed link leads to no page (QuizRepository.AccentedCapitalLinkIsDead) | Every listing link leads to its set page; lowering only ASCII letters, the fold NOCASE undoes, gives that (QuizRepository.ListingLinksResolve) | not executed | QuizRepository.SlugAsWritten | QuizRepository.Slug |
