# MOSS report filtering, modelled in Dafny

This project models the core of UCI-MOSS-GUI, a desktop front end for the
MOSS plagiarism-detection service. The core has four parts:

- **The submission object** `MossUCI`. Files are added while the object is
  open. The students of the current quarter are collected from the files
  added as current. One successful send locks the object.
- **`filter_report`**. It builds a graph of students from the matches
  scraped off the results page and splits it into collusion networks. It
  drops networks that have no current-quarter student, and networks that
  are exactly one declared pair of partners. Each surviving network keeps
  the matches that pass the percentage threshold, ordered by decreasing
  line count. The networks are then ordered, and the report entries are
  built with one sentinel after each network. The function also plans the
  downloads of an archived report and computes the three counts.
- **The report tree** of the submit tab. `update_tree` cuts the entry list
  back into networks, labelled `Network 1`, `Network 2`, and so on.
- **The settings tab and the partner converter**. The settings tab has the
  keystroke validators of its entries and the check-box handlers that
  keep the report options consistent. The partner converter reads a
  roster file and returns pairs of partners.

## Modules

| module | what it holds |
|---|---|
| `Outcomes` | `Option`, `Result`, and the Python exceptions the core raises |
| `Text` | Python string behaviour: `int()`, `isdigit`, `strip`/`rstrip`, `split`, code-point order, decimal numerals |
| `Sorting` | stable insertion sort, and set iteration as an arbitrary order |
| `Matches` | a scraped table row and what the scraping pattern guarantees about it |
| `Networks` | the student graph, breadth-first reachability and the networks |
| `Ranking` | which networks survive, which matches each one shows, and their order |
| `Counts` | how many matches the report shows and how many it filters out |
| `Entries` | the entry list with sentinels, and cutting it back into groups |
| `ReportTree` | `update_tree` |
| `Archive` | the pages an archived report fetches, the link rewrite, and the zip step |
| `Report` | `filter_report` end to end |
| `Submission` | `MossUCI`'s state and the send-once lock |
| `Settings` | the settings tab's validators and handlers |
| `Partners` | `partner_formatter` |

The model takes the environment as parameters:

- The results page comes already scraped. It is a `Page` holding the
  date, the options and the match rows. What the regular expression and
  the lower-casing ensure, together with the results server's convention
  that row `i` is match number `i`, become the precondition
  `Matches.WellFormed`.
- The detection-service client appears as the `accepted` flag of a file
  add, the `reply` of a send, and its set of supported languages.
- The file system appears as the two path tests.

Python's sets have no fixed iteration order. `Sorting.SetToSeq` therefore
picks an arbitrary order, and every contract holds whatever order is
picked.

### Network order and sentinels

- The docstring of `filter_report` says that networks are "sorted by
  decreasing importance" (model.py:87-88). The code uses
  `max(group, key=lines)` as the sort key (model.py:188-191). That
  expression returns the match-number *string* of the top match, not its
  line count. The model follows the code: networks are ordered by that
  text, ascending in code-point order (`Ranking.GroupKey`,
  `Ranking.IsRanking`).
- The code appends `None` after every network, the last one included
  (model.py:209). `update_tree` skips that last sentinel
  (frames/submit_frame.py:118-119). `Entries.Flatten` always ends with a
  sentinel.

## Model

| member | source | states |
|---|---|---|
| Submission.Init | model.py:51-63 | A new object is open, with no files, no current-quarter students, no URL, and the current-quarter test switched on. It keeps the account id and the supported languages it was given. Its language is the requested one when the client supports it, and the client's default otherwise. |
| Submission.UciId | model.py:273-274 | The id taken from a path is absent exactly when `_<word characters>uci.edu` occurs nowhere in it. Otherwise it is the group of the leftmost occurrence. |
| Submission.UciIdIsWord | model.py:274 | An id found in a path is a non-empty run of word characters. |
| Submission.AddFile | model.py:261-275 | A locked object raises `ConnectionRefusedError` and changes nothing. A blank display name on a path without an id raises and records nothing. Otherwise the student is recorded as current before the client takes the file, so a client failure leaves the student recorded. |
| Submission.AddOldStudent | model.py:277-290 | Adding an old-quarter file never changes the current-quarter students. The file reaches the client only while the object is open. |
| Submission.Send | model.py:292-303 | A send locks the object and keeps the URL only once the client has replied. A failed send leaves the object open. A second send raises the lock's exception. |
| Submission.SetLanguage | model.py:305-308 | While open, a supported language replaces the chosen one and any other request is ignored. Once sent, it raises the lock's exception. |
| Submission.LockedRaises | model.py:17-40 | After sending, every guarded operation raises `ConnectionRefusedError('Files already sent')` and leaves the state as it was. |
| Submission.SentIsFinal | model.py:17-40 | Once sent, no sequence of operations unlocks the object or changes its files, students, language or URL. Only the current-quarter switch can still change. |
| Submission.CurrentOnlyGrows | model.py:261-290 | No sequence of operations removes a current-quarter student. |
| Submission.CurrentFromAddFile | model.py:261-290 | Every current-quarter student after a run was current before it, or is the name recorded by one of the run's current-quarter file adds. |
| Networks.GraphKeys | model.py:155-158 | The graph's vertices are exactly the students named in the matches. |
| Networks.GraphEdge | model.py:155-158 | `b` is a neighbour of `a` exactly when some match pairs `a` with `b`, in either order. |
| Networks.GraphSymmetric | model.py:155-158 | The student graph is undirected. |
| Networks.Bfs | model.py:114-120 | The breadth-first search returns the least set that contains the start and is closed under neighbours, which is the set of students reachable from the start. |
| Networks.ReachSetUnique | model.py:114-120 | There is only one such least closed set, so any search that meets the specification returns the same network. |
| Networks.SameNetwork | model.py:163-166 | Searching from any member of a network yields that same network. |
| Networks.NetworksCoverStudents | model.py:163-166 | Every network is non-empty and consists of students named in the matches. |
| Networks.StudentHasNetwork | model.py:163-166 | Every student named in a match belongs to the network found from them. |
| Networks.NetworksDisjoint | model.py:163-166 | Two different networks share no student. |
| Networks.MatchWithinNetwork | model.py:155-166 | Both students of a match lie in the same network. |
| Matches.Percent | model.py:150 | A percentage the pattern accepts (one or two digits) is below 100. |
| Ranking.SurvivingNetworks | model.py:163-166 | The kept networks are exactly the networks of the graph that have a current-quarter student (or the test is off) and are not a declared pair of partners. |
| Ranking.LargerNetworkSurvives | model.py:165-166 | A network of three or more students that passes the current-quarter test is never dropped as a partner pair. |
| Ranking.MaxByLines | model.py:190-191 | `max` with a line-count key returns a member of the group with the most lines, and the first such member. |
| Ranking.SortedMaxIsFirst | model.py:181-191 | In a group already sorted by decreasing lines, the key match is the group's first entry. |
| Ranking.GroupsOf | model.py:181-186 | Each network's group holds each selected match exactly once. A match is selected when one of its fields names a member and one of its percentages reaches the threshold. The group is sorted by decreasing lines. |
| Ranking.RankNetworks | model.py:163-191 | The filtering step produces one group per kept network that selects at least one match, with no network twice. Each group is good in the sense above. The groups are ordered by the text of their key match's number. |
| Counts.GroupsDisjoint | model.py:163-187 | When student names cannot be mistaken for other fields, no match appears in two networks' groups. |
| Counts.ShownAtMostListed | model.py:235-238 | The report never shows more entries than matches were scraped, so the filtered count is never negative. |
| Counts.EveryMatchShown | model.py:163-187 | With the current-quarter test off, no partners and a threshold of at most 0, every scraped match is shown. |
| Counts.NothingFiltered | model.py:163-187 | In that setting the groups hold exactly the positions of the scraped matches, each once. |
| Entries.Flatten | model.py:195-209 | The entry list holds every group's entries plus one sentinel per group, and it ends with a sentinel. |
| Entries.SegmentsOfFlatten | frames/submit_frame.py:106-124 | Cutting the entry list at its sentinels recovers exactly the groups it was built from, empty groups included. |
| Entries.FlattenOfSegments | frames/submit_frame.py:106-124 | Rebuilding from the cut groups restores the list, with one sentinel added when the list did not end with one. |
| ReportTree.UpdateTree | frames/submit_frame.py:106-124 | The tree is empty exactly when the list is. Otherwise it has one node per group of the list, the k-th labelled `Network k` and showing that group's rows in order. Passed entries take precedence over the stored ones. |
| ReportTree.TreeShowsGroups | frames/submit_frame.py:106-124 | Displaying a built entry list shows exactly the groups it was built from, in order. |
| ReportTree.LabelsDistinct | frames/submit_frame.py:113-121 | No two network nodes get the same label. |
| Report.FilterReport | model.py:71-238 | The errors come in the source's order: nothing sent, then path missing, then not a directory, then an unparsable page. A report is produced exactly when none of them applies (with zipping off; see Left out). The report carries the id from the URL's last segment, the filtered or unfiltered groups, the entries, the download plan and the counts. |
| Report.TreeShowsReport | model.py:195-209 | For a report whose entries are built from its groups, as every report `filter_report` produces is, the tree has one node per network, labelled `Network k`. Its rows show each match's students, the partner mark and the line count, in the group's order. |
| Report.UnfilteredEntries | model.py:192-209 | Without filtering, the entries are the scraped matches in their original order followed by one sentinel, and nothing is filtered. |
| Report.FilteredCount | model.py:235-238 | The filtered count is never negative. It is zero when the current-quarter test is off, there are no partners and the threshold is at most 0. |
| Report.ArchivedLinksResolve | model.py:203-226 | In an archived report, every entry's link names a page that the download plan fetches from the server into that folder. |
| Report.ServerLinks | model.py:203-205 | In a report that is not archived, each entry links to its match page on the server, and nothing is downloaded. |
| Archive.DownloadsHaveEveryPage | model.py:216-231 | The archive fetches all four variants of every shown match into its network's folder. Only the `-top` variant gets its links rewritten. |
| Archive.DownloadsOnlyPages | model.py:216-231 | The archive fetches nothing except those variants. |
| Archive.RelativeLink | model.py:227-229 | Rewriting a link to a page of this result leaves the bare file name, which is where the archive keeps that page. |
| Archive.UnfilteredArchiveRaises | model.py:192-224 | As written, archiving an unfiltered report with at least one match raises `TypeError`, because the positions are integers. |
| Archive.ZipAlwaysFails | model.py:246-259 | With zipping on, the report page is in the report folder when `rmdir` runs, so the last step as written always raises `OSError`. |
| Archive.ZipKeepsReport | model.py:250-259 | Removing the folder together with its files after zipping never fails. The zip then holds the report page and every fetched page, and no uncompressed folder is left. Without zipping, the folder keeps every file, as in the code as written. |
| Archive.FilteredArchiveAgrees | model.py:181-224 | On a filtered report, whose groups hold match-number strings, the code as written plans exactly the corrected downloads. |
| Settings.ValidateSpin | frames/settings_frame.py:76-84 | Clearing the entry is accepted and resets the network threshold to 0. A non-empty text is kept exactly when the change is digits and the number is from 0 to 99. `int()` raises only on digit edits that leave unreadable text. |
| Settings.SpinOnNumerals | frames/settings_frame.py:76-84 | On numeral text the validator never raises, and it keeps the edit exactly when the number is below 100. |
| Settings.ValidateIgnoreLimit | frames/settings_frame.py:86-94 | The same shape with the inclusive bound 1000000. Clearing the entry resets the ignore limit. |
| Settings.IgnoreLimitOwnValidator | frames/settings_frame.py:86-94 | The ignore-limit validator never touches the network threshold, and it keeps every numeral up to 1000000. |
| Settings.IgnoreLimitMisrouted | frames/settings_frame.py:26-35 | As wired, every numeral from 100 to 1000000 typed into the ignore-limit entry is refused, although the entry's own validator keeps it. Clearing that entry zeroes the network threshold and leaves the ignore limit unchanged, which its own validator does not. |
| Settings.IdKeystroke | frames/settings_frame.py:96-101 | `_validate_id` sees the text after the edit and the inserted or deleted text (`%P` and `%S`, registered at line 21). Typing into the id entry is kept exactly when the typed text is digits and the result fits in nine characters. Deleting is kept exactly when the removed characters are digits and the rest fits. Anything else leaves the text as it was. |
| Settings.IdEntryStaysShort | frames/settings_frame.py:19-24 | An id entry that starts as at most nine digits holds at most nine digits after any sequence of keystrokes. |
| Settings.ToggleLocalSettings | frames/settings_frame.py:103-108 | After the archive handler, zip implies archive, the zip box is enabled exactly when archive is set, and nothing else changes. |
| Settings.ToggleFilterSettings | frames/settings_frame.py:110-117 | The partners tab and the threshold selector are enabled exactly when filtering is on. Without filtering the threshold is 0. Nothing else changes. |
| Settings.ToggleDownloadReport | frames/settings_frame.py:119-133 | Whatever the settings were, afterwards zip implies archive implies download, and each dependent widget is enabled exactly when its option allows it. Turning download off clears archive, zip, the directory and review-before. Nothing else changes: the other options and widgets keep their values. |
| Settings.ClickKeepsCoherent | frames/settings_frame.py:45-133 | Any click on a check box keeps consistent report and filter options consistent. |
| Settings.CoherentAfterDownloadClick | frames/settings_frame.py:64-133 | Once the download box has been clicked, whatever state the tab was loaded with, zip implies archive implies download, and each report widget is enabled exactly when its option allows it, after every later click. |
| Settings.CoherentAfterFilterClick | frames/settings_frame.py:110-117 | Once the filter box has been clicked, whatever state the tab was loaded with, the partners tab and the threshold selector are enabled exactly when filtering is on, and the threshold is 0 while it is off, after every later click. |
| Settings.FilterStaysCoherent | frames/settings_frame.py:45-133 | Consistent filter options stay consistent under any sequence of clicks. |
| Settings.DefaultLoadNotFilterCoherent | frames/settings_frame.py:48-55 | A tab loaded with filtering off and threshold -1, as the default configuration has them, is not filter-consistent, and a click on the download box does not make it so. |
| Partners.PartnerFormatter | scripts/partner_converter.py:13-32 | An unreadable assignment number raises `ValueError`. Otherwise the result is a set exactly when every line other than the header has the needed column, and it is then the set of pairs those lines give. A short line raises `IndexError`. |
| Partners.LineResult | scripts/partner_converter.py:27-31 | A line is skipped exactly when it is the header after right-stripping. Otherwise it gives the pair of its second column and its assignment column, or raises `IndexError`. |
| Partners.PairOf | scripts/partner_converter.py:30-31 | A line raises `IndexError` exactly when it has fewer than two fields or the assignment column (negative indices counting from the end) does not exist. A pair has one or two members. |
| Partners.PairShape | scripts/partner_converter.py:31 | A pair's members contain no comma. The id has no surrounding quotes, and the address part has no `@` and no leading quote. |
| Partners.PairSizes | scripts/partner_converter.py:24-32 | Every pair returned has one or two members. |
| Partners.OrderIrrelevant | scripts/partner_converter.py:24-32 | The result depends only on which lines the file holds, not on their order or repetition. |
| Partners.RowInPairs | scripts/partner_converter.py:26-31 | A row written from comma-free fields, with no trailing space and not the header, contributes the pair of its unquoted second field and the part before `@` of its unquoted assignment column to the pairs read from any roster holding it. |
| Partners.RowGivesPair | scripts/partner_converter.py:23-32 | When the formatter returns a set for an assignment number `int()` reads as n, that set holds the pair of every such row in the roster, taken from column n+4. |

## Left out

- Fetching and scraping the results page (model.py:133-151) is left out: it is network I/O and a regular expression. The page arrives scraped, and `Matches.WellFormed` states what the pattern and the lower-casing ensure.
- Creating the timestamped directory, writing files, rendering the template with jinja and zipping (model.py:211-213, 220-231, 240-259) are file-system I/O. The archive is modelled as the list of pages it fetches and where it stores them. For the zip step, the report folder is the set of its file paths.
- A fetch that fails partway through archiving is not modelled. It is network I/O.
- `template_values` is left out as a dictionary that is written step by step; the model returns a `Report` only on success. The values already written before an exception (for example `resultID` at model.py:127) are not modelled.
- The check `len(self.url) == 0` (model.py:122) is left out because it can never fire after the check at model.py:108. `Submission.Ready` covers both checks.
- The path is compared as the string given, because `Path.as_posix()` is file-system naming.
- The `debug` prints are left out: they are output only.
- The send lock (`lock_after_send`) guards only `addFile`, `add_old_students`, `send` and `set_language` (model.py:261-262, 277-278, 292-293, 305-306). The client's other methods stay callable after sending, among them `addBaseFile` (gui.py:312) and `setIgnoreLimit` (gui.py:300). Base files and these unguarded calls are not modelled, so `Submission.Op` covers only the four guarded operations and the two activation switches.
- The mosspy client (its constructor, `addFile`, `send` and language list) is code this model cannot see. It appears as parameters: whether a file was accepted, the send's reply, and the set of languages.
- Submission.Init: the client's fallback language is taken to be `c`, as the mosspy client does; that client is not part of this model.
- Submission.UciId: `\w` is taken as ASCII word characters. Python's `re` also matches non-ASCII letters and digits in `str` patterns.
- Settings.ValidateSpin, Settings.ValidateIgnoreLimit, Settings.ValidateId and Partners.PartnerFormatter: `isdigit` and `int()` are taken over ASCII digits (with surrounding whitespace and a sign for `int()`). Python also accepts other Unicode digits, which `int()` may then refuse or read.
- Ranking.RankNetworks: networks with the same key text come out in the order of set iteration, which Python does not fix. The contract says nothing about their relative order.
- Report.FilterReport: it requires well-formed rows (`Matches.WellFormed`). The pattern ensures the field shapes, but not that row `i` carries match number `i`: the pattern accepts any digit string (model.py:150). The source relies on that numbering in `matches[int(match_number)]` (model.py:184-185, 197). A page that breaks it makes the source raise `IndexError` or show the wrong row; the model does not cover such pages.
- Ranking.SurvivingNetworks, Counts.EveryMatchShown, Counts.NothingFiltered, Report.FilteredCount and Report.FilterReport: the partners are a set of sets. The source tests `network not in partners` (model.py:166) with a plain `set` as the network. That works on the set of frozensets the roster reader returns, but the GUI starts with `partners = {}`, an empty dict (gui.py:186). With filtering on and no roster loaded, the source therefore raises `TypeError` (unhashable `set`) at the first network that passes the current-quarter test. The model reads "no partners" as the empty set and does not cover that crash.
- Report.FilterReport: it has no `zip_report` input and models `zip_report=False` only. With zipping on, the source writes the report and the zip, and then always raises `OSError` at `directory.rmdir()` (model.py:259), because the folder still holds `report.html` (see Findings). `Archive.ZipAlwaysFails` and `Archive.ZipKeepsReport` model that last step on its own.
- Report.FilterReport: without filtering but with archiving, it returns the corrected archive plan, where the source raises `TypeError` (see Findings). `Archive.UnfilteredArchiveRaises` models the code as written.
- Counts.GroupsDisjoint, Counts.ShownAtMostListed, Counts.NothingFiltered and Report.FilteredCount assume that no student name equals another field of a match (`Matches.CleanNames`). The source looks a student up among all seven fields of a match, so without that assumption one match can be shown in two networks.
- The remaining settings-tab widgets, settings persistence, the other frames, the dialogue boxes and `gui.py` are UI outside the core.
- Reading the partner file is file I/O. The file arrives as its sequence of lines.

## Findings

| source | as written | input that shows it | evidently intended | confidence | as-written member | corrected member |
|---|---|---|---|---|---|---|
| model.py:192-224 | Without filtering, the groups hold the integer positions `range(len(matches))`. Archiving then builds the page name with `'match' + match_id`, and adding an `int` to a `str` raises `TypeError`. | `filter=False, archive=True` on a result with at least one match | Fetch the pages of the match numbers, as the filtered path does | high, not executed | Archive.UnfilteredArchiveRaises | Report.ArchivedLinksResolve |
| model.py:250-259 | After `make_archive` packs the report folder into a zip beside it, `directory.rmdir()` removes the folder. `rmdir` only removes an empty directory, and the folder still holds `report.html` (written at lines 246-247) and, when archiving, the group folders. | `zip_report=True` on any sent result (gui.py:341-344 passes the zip option) | Remove the folder with its contents once the zip is made | high, not executed | Archive.ZipAlwaysFails | Archive.ZipKeepsReport |
| frames/settings_frame.py:29 | The ignore-limit spin box is wired to `validate_spin`, the network threshold's validator. `_validate_ignore_limit` (lines 86-94) is never used. | typing `100` (or any numeral up to 1000000 from 100 on) into the ignore-limit entry is refused; clearing it sets the network threshold to 0 and keeps the old ignore limit | Validate with `_validate_ignore_limit`, which resets the ignore limit and accepts values up to 1000000 | medium, not executed | Settings.IgnoreLimitMisrouted | Settings.IgnoreLimitOwnValidator |
