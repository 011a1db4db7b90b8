# OKR sync: a Dafny model of `scripts/sync_okrs.py`

The script keeps a database of OKR rows in a document service up to date from
an issue tracker. For every row that carries a project URL it:

- extracts the project slug from the URL;
- fetches the project and its issues page by page, with a safety cap of 2000
  issues;
- sorts the issues into the buckets done, in review, in progress and other;
- writes a short executive report. The report has the most recent project
  update, counts per bucket, the three most recently updated titles per
  bucket and a status/health readout;
- overwrites the row's "Latest update" property with the report, cut to 2000
  characters;
- appends a dated entry under the heading "Weekly Linear update log" on the
  row's page, creating the heading first when it is missing. The entry's
  child bullets are the non-blank lines of the report text, stripped, at
  most 20 of them, each cut to 2000 characters. A project update whose body
  holds newlines therefore gives several children, and a long body can reach
  the cap of 20.

The model covers each of these steps as Dafny functions over values, plus
methods for the loops the script runs:

- the issue paging loop;
- the bucketing loop of the report;
- the heading search;
- the loop over rows.

Each method is proved equal to a specification function. The properties the
script relies on are proved as lemmas about those functions. The services'
answers are parameters, so the model never calls a network.

Modules, one per concern of the script:

| module | file | what it holds |
|---|---|---|
| `PyText` | `pytext.dfy` | The Python string operations the script uses: `lower`, `strip`, `splitlines`, `join`, `replace`, slicing, `str(n)`, string ordering. |
| `Linear` | `linear.dfy` | The records the GraphQL queries return. |
| `Slug` | `slug.dfy` | `linear_slug_from_project_url`. |
| `Paging` | `paging.dfy` | `fetch_project_and_issues`. |
| `Buckets` | `buckets.dfy` | `bucket_issue`. |
| `Ranking` | `ranking.dfy` | `top_titles`, with Python's stable descending sort. |
| `ExecReport` | `report.dfy` | `format_exec_update`. |
| `Notion` | `notion.dfy` | The property write and the weekly log entry, from `notion_update_page_property` and `notion_append_weekly_log_blocks`. |
| `Sync` | `sync.dfy` | `main`: per-row processing and the run over all rows. |

## Model

| member | source | states |
|---|---|---|
| PyText.IsSpace | scripts/sync_okrs.py:157 | The characters `str.isspace` accepts, which `strip()` removes from both ends. |
| PyText.IsLineBreak | scripts/sync_okrs.py:157 | The line boundaries `str.splitlines` cuts at: newline, carriage return, vertical tab, form feed, the three separators U+1C-U+1E, U+0085, U+2028 and U+2029. |
| PyText.LowerChar | scripts/sync_okrs.py:245-246 | One character lower-cased: an ASCII capital becomes its small letter, every other character stays. |
| PyText.OccursAt | scripts/sync_okrs.py:250 | A text occurs in another at a given offset. |
| PyText.Contains | scripts/sync_okrs.py:250 | `t in s` for strings: `t` occurs at some offset of `s`. |
| PyText.Lower | scripts/sync_okrs.py:245-246 | The lower-cased text has the same length, and each character is the lower-case form of the input character at that position. |
| PyText.LowerIdempotent | scripts/sync_okrs.py:245-246 | Lower-casing twice gives the same text as lower-casing once. |
| PyText.SliceTo | scripts/sync_okrs.py:260 | `s[:n]` is a prefix of `s` whose length follows Python's rule, including negative `n`. |
| PyText.Take | scripts/sync_okrs.py:87 | `s[:n]` for `n >= 0` is the prefix of length `min(n, len(s))`. |
| PyText.TakeIdempotent | scripts/sync_okrs.py:87 | Cutting an already cut text to the same limit changes nothing. |
| PyText.StripLeft | scripts/sync_okrs.py:157 | `s.lstrip()`: drops leading whitespace characters one at a time. |
| PyText.StripRight | scripts/sync_okrs.py:157 | `s.rstrip()`: drops trailing whitespace characters one at a time. |
| PyText.Strip | scripts/sync_okrs.py:157 | `s.strip()`: both of the above. |
| PyText.StripLeftSpec | scripts/sync_okrs.py:157 | `lstrip` removes exactly a whitespace prefix and leaves a text that does not start with whitespace. |
| PyText.StripRightSpec | scripts/sync_okrs.py:157 | `rstrip` removes exactly a whitespace suffix and leaves a text that does not end with whitespace. |
| PyText.StripSpec | scripts/sync_okrs.py:157 | `strip` returns a slice of its input with only whitespace outside it; a non-empty result starts and ends with non-whitespace. |
| PyText.StripEmptyIff | scripts/sync_okrs.py:157 | `strip` gives the empty text exactly when the input is all whitespace, which is what the subline filter tests. |
| PyText.LineBreakIsSpace | scripts/sync_okrs.py:157 | Every line boundary of `splitlines` is whitespace for `strip`. |
| PyText.FirstBreak | scripts/sync_okrs.py:157 | The first line boundary of a text: no boundary comes before it. |
| PyText.SplitLines | scripts/sync_okrs.py:157 | `splitlines` yields lines without line boundaries, and no more lines than the text has characters. |
| PyText.Join | scripts/sync_okrs.py:302 | `sep.join(xs)`: the texts with the separator between neighbours, `""` for no texts. |
| PyText.SplitLinesOfJoin | scripts/sync_okrs.py:157 | Splitting the newline-join of boundary-free lines gives the lines back when the last one is non-empty. This is the round trip between `"\n".join(lines)` and `splitlines`. |
| PyText.SplitLinesAfterNewline | scripts/sync_okrs.py:157 | A boundary-free line followed by a newline is split off as one line. |
| PyText.Replace | scripts/sync_okrs.py:267 | `s.replace(pat, rep)`: scanning from the left, each occurrence of the pattern that does not overlap an earlier one becomes the replacement. |
| PyText.ReplaceEscapedNewline | scripts/sync_okrs.py:267 | Replacing the two characters backslash-n by a space never lengthens the text, leaves no backslash-n, and keeps every real newline: the result has exactly as many newlines as the input. |
| PyText.ReplaceRemovesEscapes | scripts/sync_okrs.py:267 | The replacement never lengthens the text and leaves no backslash-n behind. |
| PyText.ReplaceKeepsNewlines | scripts/sync_okrs.py:267 | The replacement keeps the count of real newlines exactly. |
| PyText.ReplaceHead | scripts/sync_okrs.py:267 | The first character after replacement is a space when the text starts with backslash-n, and otherwise the text's first character. |
| PyText.Show | scripts/sync_okrs.py:300 | An optional value inside an f-string: the text itself, or `None` when absent. |
| PyText.DigitChar | scripts/sync_okrs.py:290 | A digit below ten becomes the character with that digit value. |
| PyText.Decimal | scripts/sync_okrs.py:290 | `str(n)` of a count is a non-empty string of digits, without a leading zero unless `n` is zero. |
| PyText.DecimalRoundTrip | scripts/sync_okrs.py:290 | Reading back the digits of `str(n)` gives `n`. |
| PyText.LexLess | scripts/sync_okrs.py:259 | Python's `<` on strings: the first differing code point decides, and a proper prefix comes first. |
| PyText.LexLessIrreflexive | scripts/sync_okrs.py:259 | No string sorts before itself. |
| PyText.LexLessTransitive | scripts/sync_okrs.py:259 | String order is transitive. |
| PyText.LexLessTotal | scripts/sync_okrs.py:259 | Two different strings are ordered one way or the other, so the sort key is a total order. |
| Slug.MatchAt | scripts/sync_okrs.py:33 | The pattern matches at a position: `/project/` starts there and is followed by at least one non-separator character. |
| Slug.Group | scripts/sync_okrs.py:33-34 | Group 1 of a match: the longest separator-free run after `/project/`. |
| Slug.SearchFrom | scripts/sync_okrs.py:33 | `re.search` from a position: group 1 of the first position that matches, or nothing. |
| Slug.SlugFromUrl | scripts/sync_okrs.py:31-34 | `linear_slug_from_project_url`: the search over the URL, or over `""` when the URL is missing. |
| Slug.RunLen | scripts/sync_okrs.py:33 | The greedy `[^/?#]+` run is separator-free and stops at the end of the text or at a separator. |
| Slug.GroupShape | scripts/sync_okrs.py:33-34 | At a match, group 1 is non-empty, separator-free, sits right after `/project/`, and ends at a separator or at the end of the URL. |
| Slug.SearchFromSpec | scripts/sync_okrs.py:33-34 | The search finds nothing exactly when no position matches; otherwise it returns group 1 of the leftmost match. |
| Slug.SlugSpec | scripts/sync_okrs.py:31-34 | The slug is absent exactly when the URL (`""` for a missing URL) has no match; a present slug is non-empty and separator-free. |
| Slug.SlugOfUrl | scripts/sync_okrs.py:31-34 | Round trip: a URL made of a prefix without `/project/`, then `/project/`, a separator-free slug, and a rest that starts at a separator, yields exactly that slug. |
| Paging.Collected | scripts/sync_okrs.py:231-232 | The issues of the first pages, concatenated in page order. |
| Paging.Continues | scripts/sync_okrs.py:234-238 | The loop goes on after a page: it has a next page and the issues held so far are at most 2000. |
| Paging.Ends | scripts/sync_okrs.py:229-238 | Some page of the listing stops the loop. |
| Paging.CursorBefore | scripts/sync_okrs.py:228-236 | The cursor of a request: none for the first page, then the end cursor of the page read before. |
| Paging.FetchResult | scripts/sync_okrs.py:220-240 | No project node is the error naming the slug. Otherwise the result is the first node with the issues of every page up to the stop page. |
| Paging.StopFrom | scripts/sync_okrs.py:229-238 | The first page at or after a position after which the loop stops. |
| Paging.StopIndex | scripts/sync_okrs.py:229-238 | The index of the last page read lies within the pages the server has. |
| Paging.Requests | scripts/sync_okrs.py:230 | One issues request per page read. |
| Paging.FetchProjectAndIssues | scripts/sync_okrs.py:220-240 | No project node gives the "no project" error and no issues request. Otherwise the result is the first project with the issues of every page up to the stop page, in order. The requests carry the project id, with no cursor first and then each read page's end cursor. |
| Paging.StopFromFirst | scripts/sync_okrs.py:234-238 | Every page before the stop page has a next page and leaves the collected issues at or below the cap. |
| Paging.StopIndexSpec | scripts/sync_okrs.py:234-238 | The loop stops at the first page that either has no next page or brings the total above 2000. Every earlier page has a next page, and the total after it is at most 2000. |
| Paging.CollectedPrefix | scripts/sync_okrs.py:232 | Issues are only appended: the issues of fewer pages are a prefix of those of more pages. |
| Paging.FetchedIssuesBound | scripts/sync_okrs.py:232-238 | The fetched issues are a prefix of all issues, and their number is at most 2000 plus the size of the last page read. |
| Paging.SmallListingComplete | scripts/sync_okrs.py:234-238 | When the project has at most 2000 issues in all, the loop stops only at the server's last page. |
| Buckets.Folded | scripts/sync_okrs.py:245-246 | `(x or "").lower()`. |
| Buckets.BucketIssue | scripts/sync_okrs.py:242-255 | `bucket_issue`: done when the folded type is "completed" or the name is "done"/"completed"; else in review when the name contains "review"; else in progress when the type is "started" or the name is "in progress"/"in-progress"; else other. |
| Buckets.BucketOf | scripts/sync_okrs.py:275 | The bucket of an issue, from its state's type and name. |
| Buckets.BucketName | scripts/sync_okrs.py:242-255 | Every bucket's name is one of "done", "in_review", "in_progress", "other". |
| Buckets.BucketNameInjective | scripts/sync_okrs.py:242-255 | Different buckets have different names. |
| Buckets.Precedence | scripts/sync_okrs.py:245-255 | Exactly one bucket applies. Done means the folded type is "completed" or the name is "done"/"completed". Review means not done and the name contains "review". In progress means neither of those, and the type is "started" or the name is "in progress"/"in-progress". Other means none of these; each case holds in both directions. |
| Buckets.CaseInsensitive | scripts/sync_okrs.py:245-246 | Lower-casing the type or the name beforehand never changes the bucket. |
| Buckets.NoneIsEmpty | scripts/sync_okrs.py:245-246 | A missing type or name buckets like an empty one. |
| Buckets.CompletedBeatsReview | scripts/sync_okrs.py:248-249 | A "Completed" state type gives done whatever the name, even a name containing "review". |
| Buckets.ReviewBeatsStarted | scripts/sync_okrs.py:250-253 | A started issue whose name mentions review is in review, not in progress. |
| Buckets.NameAloneDecides | scripts/sync_okrs.py:246-249 | With a missing type, the issue is done exactly when its name lower-cases to "done" or "completed". |
| Ranking.Key | scripts/sync_okrs.py:259 | The sort key `x.get("updatedAt", "")`. |
| Ranking.TopTitles | scripts/sync_okrs.py:257-260 | `top_titles`: the titles of the first `n` issues of the list sorted by descending key. |
| Ranking.WithKey | scripts/sync_okrs.py:259 | The issues sharing one sort key, in order, never more than the input holds. |
| Ranking.Insert | scripts/sync_okrs.py:259 | Inserting one issue into a list adds exactly one element. |
| Ranking.SortByUpdatedDesc | scripts/sync_okrs.py:259 | The sort keeps the number of issues. |
| Ranking.Titles | scripts/sync_okrs.py:260 | The i-th title is the i-th issue's title. |
| Ranking.InsertPermutes | scripts/sync_okrs.py:259 | Insertion adds exactly the inserted issue to the multiset. |
| Ranking.InsertElements | scripts/sync_okrs.py:259 | Insertion introduces no other issue. |
| Ranking.SortPermutes | scripts/sync_okrs.py:259 | The sorted list is a permutation of the input. |
| Ranking.InsertSorted | scripts/sync_okrs.py:259 | Insertion into a list sorted by descending `updatedAt` keeps it sorted. |
| Ranking.SortSorted | scripts/sync_okrs.py:259 | The result is sorted by descending `updatedAt`, with a missing timestamp as `""`. |
| Ranking.LexLessAsym | scripts/sync_okrs.py:259 | String order is asymmetric. |
| Ranking.NotLessTransitive | scripts/sync_okrs.py:259 | "Not before" is transitive, as the descending order needs. |
| Ranking.WithKeyCons | scripts/sync_okrs.py:259 | An issue in front contributes to its own key's group only. |
| Ranking.InsertWithKey | scripts/sync_okrs.py:259 | Insertion puts the new issue in front of the equal-key issues already there. |
| Ranking.SortStable | scripts/sync_okrs.py:259 | The sort is stable: issues with equal timestamps keep their input order, as Python's `sorted` with `reverse=True` does. |
| Ranking.TopTitlesShape | scripts/sync_okrs.py:257-260 | `top_titles(issues, n)` has Python's slice length and lists the titles of the first issues of the sorted list. |
| Ranking.TopTitlesFromInput | scripts/sync_okrs.py:257-260 | Every title returned is the title of an input issue. |
| Ranking.TopTitlesOrder | scripts/sync_okrs.py:257-260 | The selected issues are in descending timestamp order. Within each timestamp they are a prefix of the input's issues with that timestamp. |
| Ranking.WithKeyPrefix | scripts/sync_okrs.py:260 | A prefix's issues with a given key are a prefix of the whole list's. |
| Ranking.TopTitlesEmptyIff | scripts/sync_okrs.py:291-298 | The titles are empty exactly when `n` is zero or there are no issues, so a bucket's titles line appears exactly when the bucket is non-empty. |
| ExecReport.ShownBody | scripts/sync_okrs.py:267 | The body as shown: its first 400 characters with each backslash-n replaced by a space. |
| ExecReport.BucketLabel | scripts/sync_okrs.py:292-298 | The label each titles line names its bucket by. |
| ExecReport.Render | scripts/sync_okrs.py:267-300 | The text of each report line, as the f-strings spell it. |
| ExecReport.FirstUpdate | scripts/sync_okrs.py:264-266 | The first project update node, if there is one. |
| ExecReport.TallyOf | scripts/sync_okrs.py:271-281 | The three lists the loop fills: the input issues of done, in review and in progress, each in input order. |
| ExecReport.Count | scripts/sync_okrs.py:290-296 | The number of issues in a bucket. |
| ExecReport.TopLine | scripts/sync_okrs.py:291-298 | A bucket's titles line, present only when its titles are non-empty. |
| ExecReport.LinesOf | scripts/sync_okrs.py:287-300 | The report lines in the order they are appended. |
| ExecReport.ReportLines | scripts/sync_okrs.py:262-300 | The report lines of a project and its issues. |
| ExecReport.ExecReport | scripts/sync_okrs.py:262-302 | `format_exec_update`: the rendered lines joined by newlines. |
| ExecReport.RenderAll | scripts/sync_okrs.py:287-302 | Each report line's text is the f-string rendering of that line. |
| ExecReport.Select | scripts/sync_okrs.py:271-281 | Filtering a list never lengthens it. |
| ExecReport.InBucket | scripts/sync_okrs.py:271-281 | A bucket's list is no longer than the issue list. |
| ExecReport.SelectMembers | scripts/sync_okrs.py:271-281 | A filtered list holds only accepted elements of the input. |
| ExecReport.InBucketMembers | scripts/sync_okrs.py:274-281 | A bucket's list holds only input issues of that bucket. |
| ExecReport.SelectSnoc | scripts/sync_okrs.py:274-281 | Filtering one more element appends it exactly when it is accepted. |
| ExecReport.InBucketSnoc | scripts/sync_okrs.py:274-281 | Each loop step appends the issue to its own bucket's list and to no other. |
| ExecReport.TallyIssues | scripts/sync_okrs.py:271-281 | The bucketing loop leaves `done`, `in_review` and `in_progress` equal to the input issues of each bucket, in input order. |
| ExecReport.FormatExecUpdate | scripts/sync_okrs.py:262-302 | The method builds the report line by line and returns the newline-join of the lines the report specification lists. |
| ExecReport.CountsPartition | scripts/sync_okrs.py:271-281 | The four bucket counts add up to the number of issues: every issue falls in exactly one bucket. |
| ExecReport.SelectOccurrences | scripts/sync_okrs.py:274-281 | Filtering keeps every occurrence of an accepted element and drops every occurrence of a rejected one. |
| ExecReport.InBucketOccurrences | scripts/sync_okrs.py:274-281 | A bucket's list holds each issue of that bucket exactly as often as the input does, and no issue of another bucket. |
| ExecReport.TopLineLength | scripts/sync_okrs.py:291-298 | A titles line appears exactly when its bucket is non-empty. |
| ExecReport.LinesCount | scripts/sync_okrs.py:287-300 | The report has 4 fixed lines plus one titles line per non-empty bucket, so 4 to 7 lines. |
| ExecReport.LinesFixed | scripts/sync_okrs.py:287-300 | The report has fixed lines at fixed places: the recent update first, the counts second, the ongoing counts after the done and review titles lines, and the readout last. |
| ExecReport.SelectAppend | scripts/sync_okrs.py:287-300 | Filtering distributes over concatenation. |
| ExecReport.LinesTitles | scripts/sync_okrs.py:287-300 | The titles lines of the report are, in order, those of done, in review and in progress. |
| ExecReport.SelectTopLine | scripts/sync_okrs.py:291-298 | A bucket's titles line is a titles line. |
| ExecReport.TallyCounts | scripts/sync_okrs.py:290-296 | The counts printed are the bucket counts, and they plus the "other" count add up to the number of issues. |
| ExecReport.TitlesFromBucket | scripts/sync_okrs.py:283-285 | A bucket has at most three titles, each the title of an input issue in that bucket. |
| ExecReport.NoIssuesReport | scripts/sync_okrs.py:287-300 | With no issues the report is the update line, zero counts, the zero ongoing count and the readout, with no titles lines. |
| ExecReport.RecentLineContent | scripts/sync_okrs.py:265-267 | The update line shows the author, the timestamp and a body of at most 400 characters with no backslash-n left. The shown body has exactly as many real newlines as the first 400 characters of the body. |
| ExecReport.RenderHead | scripts/sync_okrs.py:267-300 | Every report line starts with the first letter of its fixed text: "M" for the update and counts lines, "T" for a titles line, "C" for the ongoing line, "L" for the readout. So no line is empty or starts with whitespace, and `strip` never removes a line's start. |
| Notion.EntryTitle | scripts/sync_okrs.py:153-154 | The entry title: the date, an em dash between spaces, and the name. |
| Notion.SubLines | scripts/sync_okrs.py:157 | `sublines`: the stripped, non-blank lines of the report. |
| Notion.LogChildren | scripts/sync_okrs.py:157-174 | The texts of the child bullets: the first 20 sublines, each cut to 2000 characters. |
| Notion.LatestUpdateContent | scripts/sync_okrs.py:82-88 | The property content is a prefix of the report of at most 2000 characters, and it is the whole report when that fits. |
| Notion.LatestUpdateStable | scripts/sync_okrs.py:87 | Writing the property content back through the same cut leaves it unchanged. |
| Notion.EntryTitleDetermines | scripts/sync_okrs.py:153-154 | For dates of one length, the entry title determines the date and the project name, and conversely. |
| Notion.StrippedNonEmpty | scripts/sync_okrs.py:157 | Filtering the stripped lines gives non-empty lines and never more lines than the input. |
| Notion.CutAll | scripts/sync_okrs.py:170 | Each child text is its line cut to 2000 characters. |
| Notion.StrippedNonEmptyFacts | scripts/sync_okrs.py:157 | Every subline is non-empty, boundary-free, and has no whitespace at either end. |
| Notion.StripKeepsNoBreak | scripts/sync_okrs.py:157 | Stripping a boundary-free line keeps it boundary-free. |
| Notion.LogChildrenShape | scripts/sync_okrs.py:157-174 | An entry has `min(20, number of sublines)` children. Each child is a non-empty, boundary-free prefix of at most 2000 characters of its subline, starting with non-whitespace. |
| Notion.SubLinesStripped | scripts/sync_okrs.py:157 | Sublines are already stripped. |
| Notion.StripOfStripped | scripts/sync_okrs.py:157 | `strip` leaves a text without whitespace at either end unchanged. |
| Notion.SubLinesOfJoin | scripts/sync_okrs.py:157 | For a newline-join of boundary-free lines, the sublines are the stripped non-empty lines. |
| Notion.StrippedNonEmptyKeepsAll | scripts/sync_okrs.py:157 | Lines starting with non-whitespace all survive the filter, each stripped. |
| Notion.ChildrenOfLines | scripts/sync_okrs.py:157-174 | Up to 20 boundary-free lines starting with non-whitespace, joined by newlines, give one child per line: the line stripped and cut to 2000 characters. |
| Notion.JoinPlain | scripts/sync_okrs.py:119-120 | The heading's `plain_text` pieces joined, a missing piece counting as `""`. |
| Notion.IsLogHeading | scripts/sync_okrs.py:118-121 | A block is the log heading: a `heading_3` whose joined, stripped text is the header. |
| Notion.FirstLogHeadingFrom | scripts/sync_okrs.py:117-123 | The id of the first log heading at or after a position, if any. |
| Notion.FirstLogHeading | scripts/sync_okrs.py:116-123 | The id of the first log heading of the page, if any. |
| Notion.FirstLogHeadingFromSpec | scripts/sync_okrs.py:115-123 | The search finds nothing exactly when no block is a `heading_3` whose stripped text is the header; otherwise it returns the id of the first such block. |
| Notion.FindLogHeading | scripts/sync_okrs.py:115-123 | The search loop returns the first log heading's id, and nothing exactly when there is none. |
| Notion.NewHeading | scripts/sync_okrs.py:127-136 | The heading the create request appends: a `heading_3` holding the header text, with an id the server assigns. |
| Notion.ResolveHeadingAsWritten | scripts/sync_okrs.py:115-150 | The heading resolution as written: an existing heading, or after creating one, the first log heading among the first 100 blocks of the refetch (none: the error of line 150). |
| Notion.ResolveHeading | scripts/sync_okrs.py:115-150 | The corrected heading resolution: the refetch reads every block of the page. |
| Notion.NewHeadingIsLogHeading | scripts/sync_okrs.py:127-136 | The heading the create request appends is a log heading. |
| Notion.ResolveLogHeading | scripts/sync_okrs.py:115-150 | Search, create and re-search agree with the heading resolution specification, reading every block of the page. |
| Notion.ResolveHeadingSpec | scripts/sync_okrs.py:115-150 | A heading is created exactly when none is present. The entry then goes under the new heading, and otherwise under the first existing one. An id is always found, so the "could not create/find" error never fires. |
| Notion.FirstAfterNone | scripts/sync_okrs.py:138-147 | Appending a log heading to blocks without one makes it the first. |
| Notion.ResolveAgreesOnSmallPages | scripts/sync_okrs.py:138-147 | On a page with fewer than 100 top-level blocks, the refetch as written and the corrected one agree. |
| Notion.RefetchMissesNewHeading | scripts/sync_okrs.py:138-150 | On a page with 100 or more top-level blocks and no log heading, the written code creates the heading but finds no id. |
| Notion.HundredParagraphsFail | scripts/sync_okrs.py:138-150 | A concrete page of one hundred paragraphs makes the written code find no heading id. |
| Sync.Objective | scripts/sync_okrs.py:318 | The row's objective: its title pieces joined and stripped. |
| Sync.EntryName | scripts/sync_okrs.py:327 | `project.get("name") or objective`. |
| Sync.RowWrites | scripts/sync_okrs.py:320-327 | The writes for a fetched row: the property, the heading when it is created, and the dated entry. |
| Sync.RowSpec | scripts/sync_okrs.py:309-327 | A row's outcome: skipped without a slug, failed without a project, otherwise its writes (with the corrected heading resolution). |
| Sync.SyncRow | scripts/sync_okrs.py:309-327 | Processing a row gives the row specification's outcome. A row without a slug is skipped. A slug without a project fails. Otherwise the row gets its property write, a heading creation when needed, and the dated entry. |
| Sync.Outcomes | scripts/sync_okrs.py:308-327 | One outcome per row, each that row's specified outcome. |
| Sync.Step | scripts/sync_okrs.py:308-327 | One more row: nothing after a failure; otherwise a skip adds nothing, a failure is recorded, and a synced row adds its writes. |
| Sync.Fold | scripts/sync_okrs.py:308-327 | The writes and failure after the first rows. |
| Sync.RunRows | scripts/sync_okrs.py:304-329 | The writes and failure after all rows, with the corrected heading resolution in each row. |
| Sync.SyncedWrites | scripts/sync_okrs.py:324-327 | The writes of the synced rows among some outcomes, in order. |
| Sync.SyncAll | scripts/sync_okrs.py:304-329 | The run over all rows returns the writes and the failure the fold over the row outcomes specifies. |
| Sync.FailureSticks | scripts/sync_okrs.py:320-327 | After the first failure nothing more happens: the uncaught error ends the run. |
| Sync.FailureIsFirstFailed | scripts/sync_okrs.py:320-327 | The run fails exactly when some row fails, and then with the error of the first failing row. |
| Sync.FoldWrites | scripts/sync_okrs.py:308-327 | A run without failures makes exactly the writes of its synced rows, in row order. |
| Sync.SyncedWritesSnoc | scripts/sync_okrs.py:308-327 | One more row adds exactly its own writes at the end. |
| Sync.SkippedIffNoSlug | scripts/sync_okrs.py:312-316 | A row is skipped exactly when no slug can be parsed from its URL. |
| Sync.FailedIffNoProject | scripts/sync_okrs.py:220-224 | With the corrected heading resolution, a row fails exactly when it has a slug that matches no project, and the error names that slug. |
| Sync.RowWritesShape | scripts/sync_okrs.py:321-327 | A synced row first overwrites the property with at most 2000 characters of the report. It creates the heading if needed. Its last write is the entry under the heading, with at most 20 non-empty children of at most 2000 characters each. |
| Sync.RowWritesHeading | scripts/sync_okrs.py:115-150 | With the corrected refetch, the heading is created exactly when the page has none. The entry goes under the new heading or under the first existing one. |
| Sync.EntryNameFallback | scripts/sync_okrs.py:327 | The entry names the project when its name is present and non-empty, and the objective otherwise. The name is empty only when both are. |
| Sync.ReportChildren | scripts/sync_okrs.py:157-174 | When no report line holds a line boundary, the log entry has one child per report line, each the line stripped and cut to 2000 characters. |

## Left out

- HTTP and GraphQL transport are not modelled: `linear_graphql`, the request headers, the environment variables and the timeouts (scripts/sync_okrs.py:8-29, 36-47). So are HTTP errors from `raise_for_status`, GraphQL `errors` answers, and `KeyError` on malformed JSON. What the services answer is a parameter (`Sync.Service`), and those failures are not modelled.
- `notion_db_query` (scripts/sync_okrs.py:49-72) is not modelled. The rows it returns are the input sequence of `Sync.SyncAll`.
- The listing loop over a page's top-level blocks (scripts/sync_okrs.py:101-113) is not modelled. The blocks it collects are a parameter.
- The create request's own effect on the page is modelled as one appended `heading_3` block whose id is a parameter (`Notion.NewHeading`).
- `notion_get_page_markdown` (scripts/sync_okrs.py:74-80) is not modelled. It only raises `NotImplementedError` and nothing calls it.
- The issue pages the server would return are a finite sequence. `Paging.FetchProjectAndIssues` requires that the loop stops within it (`Paging.Ends`). The 2000-issue cap ends the loop once more than 2000 issues are held. A server that answers an endless run of empty pages, each with `hasNextPage`, keeps the script looping forever, and that is not modelled.
- `dt.date.today()` is not modelled. The date text is a parameter of `Sync.SyncAll`.
- The `print` calls are not modelled.
- `PyText.Lower` folds only ASCII letters, while Python's `lower` folds all of Unicode. The buckets are unaffected. Every string the bucketing compares against is ASCII without 'k', so no non-ASCII character lowercases into a text that creates or destroys a match. (The Kelvin sign folds to 'k'; U+0130 folds to "i" followed by U+0307.)
- The report is built as a sequence of `ExecReport.Line` values and rendered at the join. The script appends rendered strings instead; the resulting text is the same.
- `ExecReport.RecentLineContent`: the `replace('\\n', ' ')` in the f-string needs Python 3.12 or later, and the model assumes that version. Earlier versions reject the line at parse time.
- `Ranking.Key`: an `updatedAt` that is present but `null` is treated like a missing one (`""`). Python would raise `TypeError` comparing `None` with a string.
- Likewise, `state`, `user` and `body` are assumed present and non-null. The script raises on them otherwise.
- The unreachable `if not slug` case for an empty slug is not modelled separately: `Slug.SlugSpec` shows that a present slug is never empty.
- Sync.SyncRow: uses the corrected heading resolution (`Notion.ResolveHeading`), which reads every block of the page after creating the heading. On a page of 100 or more blocks without a heading, the script as written raises at line 150 and the run ends; the model instead puts the entry under the new heading. The written resolution is `Notion.ResolveHeadingAsWritten`; see Findings.
- Sync.SyncAll: the same corrected heading resolution inside every row.
- Sync.Outcomes: the same corrected heading resolution inside every row.
- Sync.RowSpec: uses the corrected heading resolution. As written, a row with a slug and a project whose page has 100 or more top-level blocks and no heading fails at line 150 after its property write and the heading creation; the model syncs it.
- Sync.RunRows: folds `Sync.RowSpec`, so it carries the same corrected heading resolution; as written, the line-150 error ends the run at such a row.
- Sync.FailedIffNoProject: states failure with the corrected heading resolution, where the missing project is the only failure. As written, line 150 is a second failure, on a page of 100 or more top-level blocks without the heading.
- Sync.RowWritesHeading: describes the corrected heading resolution. As written, a page of 100 or more blocks without a heading gets the heading created and then the error at line 150, with no entry.
- Notion.ResolveLogHeading: implements the corrected heading resolution, not the 100-block refetch of the script.
- The script lets errors propagate, so a failing row ends the run (`Sync.FailureSticks`). The model follows the code here, not the intent of per-row error handling.
- The model follows the code in these cases:
  - there is no freshness gate: the most recent update is reported whatever its age;
  - an absent `state` or `health` prints as `None`;
  - issue titles print without an identifier; the issues query does not fetch one (scripts/sync_okrs.py:209-214);
  - a project without issues still gets the full 4-line report (`ExecReport.NoIssuesReport`).

## Findings

| source | as written | input that shows it | evidently intended | confidence | as-written member | corrected member |
|---|---|---|---|---|---|---|
| scripts/sync_okrs.py:138-150 | After creating the missing heading, the script looks for the new heading among only the first 100 blocks of one refetch page (`page_size=100`, no cursor). The new heading is appended at the end of the page. | A page of 100 paragraph blocks and no log heading: the heading is created as block 101, the refetch sees blocks 1-100, and "Could not create/find Weekly Linear update log heading" is raised. | The heading just created is found, so the entry goes under it; on small pages the two agree (`Notion.ResolveAgreesOnSmallPages`). | not executed | Notion.RefetchMissesNewHeading | Notion.ResolveHeadingSpec |
