/** `MossUCI.filter_report`: the checks made before any work, the groups
    of the report (filtered or not), the entry list, the archive plan and
    the counts.

    The results page is an input: its date and options text (absent when
    the page lacks them) and the scraped match table.
 */
module Report {
  import opened Outcomes
  import opened Text
  import opened Sorting
  import opened Matches
  import opened Networks
  import opened Ranking
  import opened Entries
  import opened ReportTree
  import opened Submission
  import opened Archive
  import opened Counts

  /** What was read from the results page. */
  datatype Page = Page(date: Option<string>, options: Option<string>, matches: seq<Match>)

  /** The arguments of a call, and what the file system says of the output
      path. */
  datatype Request = Request(
    path: string,
    pathExists: bool,
    pathIsDir: bool,
    partners: set<set<string>>,
    archive: bool,
    threshold: int,
    filter: bool)

  /** The values handed to the report template, and the archive plan. */
  datatype Report = Report(
    resultId: string,
    date: string,
    options: string,
    groups: seq<seq<nat>>,
    entries: seq<Slot>,
    downloads: seq<Download>,
    originalLength: int,
    modifiedLength: int,
    filtered: int)

  const NothingSent: PyError := ConnectionAborted("Nothing sent; nothing to download")

  function PolicyOf(s: Submission, req: Request): Policy {
    Policy(s.deactivated, s.current, req.partners, req.threshold)
  }

  predicate InRange(groups: seq<seq<nat>>, n: nat) {
    forall k, j :: 0 <= k < |groups| && 0 <= j < |groups[k]| ==> groups[k][j] < n
  }

  /** The positions `0 .. n-1` in order. */
  function Positions(n: nat): (r: seq<nat>)
    ensures |r| == n && forall i :: 0 <= i < n ==> r[i] == i
  {
    seq(n, i requires 0 <= i < n => i)
  }

  /** Where an entry links: the archived copy in its group's folder, or the
      page on the results server. */
  function EntryUrl(archive: bool, resultId: string, k: nat, num: string): string {
    if archive then Folder(k) + "/" + PageName(num, "") else Source(resultId, PageName(num, ""))
  }

  /** `"Y"` for a match between partners, empty otherwise. */
  function PartnerMark(m: Match, partners: set<set<string>>): string {
    if {m.student1, m.student2} in partners then "Y" else ""
  }

  function EntryFor(m: Match, k: nat, archive: bool, resultId: string, partners: set<set<string>>): Entry {
    Entry(m.student1, m.student2, m.perc1, m.perc2, m.lines, EntryUrl(archive, resultId, k, m.num), PartnerMark(m, partners))
  }

  /** The entries of every group, group `k` linking into folder `k`. */
  function GroupEntries(ms: seq<Match>, groups: seq<seq<nat>>, archive: bool, resultId: string,
                        partners: set<set<string>>): (r: seq<seq<Entry>>)
    requires InRange(groups, |ms|)
    ensures |r| == |groups|
    ensures forall k :: 0 <= k < |r| ==> |r[k]| == |groups[k]|
    ensures forall k, j :: 0 <= k < |r| && 0 <= j < |r[k]| ==>
      r[k][j] == EntryFor(ms[groups[k][j]], k, archive, resultId, partners)
  {
    seq(|groups|, k requires 0 <= k < |groups| =>
      seq(|groups[k]|, j requires 0 <= j < |groups[k]| =>
        EntryFor(ms[groups[k][j]], k, archive, resultId, partners)))
  }

  /** The match-number text of every grouped position. */
  function NumGroups(ms: seq<Match>, groups: seq<seq<nat>>): (r: seq<seq<string>>)
    requires InRange(groups, |ms|)
    ensures |r| == |groups|
    ensures forall k :: 0 <= k < |r| ==> |r[k]| == |groups[k]|
    ensures forall k, j :: 0 <= k < |r| && 0 <= j < |r[k]| ==> r[k][j] == ms[groups[k][j]].num
  {
    seq(|groups|, k requires 0 <= k < |groups| =>
      seq(|groups[k]|, j requires 0 <= j < |groups[k]| => ms[groups[k][j]].num))
  }

  /** What a successful call produces. */
  ghost predicate GoodReport(s: Submission, page: Page, req: Request, rep: Report)
    requires WellFormed(page.matches) && Ready(s) && page.date.Some? && page.options.Some?
  {
    var ms := page.matches;
    && rep.resultId == AfterLast(s.url.value, '/')
    && rep.date == page.date.value
    && rep.options == page.options.value
    && InRange(rep.groups, |ms|)
    && (req.filter ==> exists order :: IsRanking(ms, PolicyOf(s, req), order, rep.groups))
    && (!req.filter ==> rep.groups == [Positions(|ms|)])
    && rep.entries == Flatten(GroupEntries(ms, rep.groups, req.archive, rep.resultId, req.partners))
    && rep.downloads == (if req.archive then Downloads(rep.resultId, NumGroups(ms, rep.groups)) else [])
    && rep.originalLength == |ms|
    && rep.modifiedLength == TotalSize(rep.groups)
    && rep.filtered == rep.originalLength - rep.modifiedLength
  }

  lemma RankingInRange(ms: seq<Match>, p: Policy, order: seq<set<string>>, groups: seq<seq<nat>>)
    requires WellFormed(ms) && IsRanking(ms, p, order, groups)
    ensures InRange(groups, |ms|)
  {
    forall k, j | 0 <= k < |groups| && 0 <= j < |groups[k]| ensures groups[k][j] < |ms| {
      assert GoodGroup(ms, p.threshold, (order[k], groups[k]));
      assert groups[k][j] in groups[k];
    }
  }

  /** `filter_report`: nothing happens unless a send has produced a
      non-empty URL; then the output path must be an existing directory;
      then the page must carry its date and options; then the report is
      built. */
  method FilterReport(s: Submission, page: Page, req: Request) returns (r: Result<Report>)
    requires WellFormed(page.matches)
    ensures !Ready(s) ==> r == Err(NothingSent)
    ensures Ready(s) && !req.pathExists ==>
      r == Err(AssertionFailed("Path " + req.path + " does not exist."))
    ensures Ready(s) && req.pathExists && !req.pathIsDir ==>
      r == Err(AssertionFailed("Path " + req.path + " does not lead to a directory."))
    ensures Ready(s) && req.pathExists && req.pathIsDir && (page.date.None? || page.options.None?) ==>
      r == Err(AttributeError)
    ensures r.Ok? <==> Ready(s) && req.pathExists && req.pathIsDir && page.date.Some? && page.options.Some?
    ensures r.Ok? ==> GoodReport(s, page, req, r.value)
  {
    if !s.sent || s.url.None? || s.url.value == "" {
      return Err(NothingSent);
    }
    if !req.pathExists {
      return Err(AssertionFailed("Path " + req.path + " does not exist."));
    }
    if !req.pathIsDir {
      return Err(AssertionFailed("Path " + req.path + " does not lead to a directory."));
    }
    var resultId := AfterLast(s.url.value, '/');
    if page.date.None? || page.options.None? {
      return Err(AttributeError);
    }
    var ms := page.matches;
    var groups: seq<seq<nat>>;
    if req.filter {
      var order;
      order, groups := RankNetworks(ms, PolicyOf(s, req));
      RankingInRange(ms, PolicyOf(s, req), order, groups);
    } else {
      groups := [Positions(|ms|)];
    }
    var entries := Flatten(GroupEntries(ms, groups, req.archive, resultId, req.partners));
    var downloads := if req.archive then Downloads(resultId, NumGroups(ms, groups)) else [];
    var modified := TotalSize(groups);
    r := Ok(Report(resultId, page.date.value, page.options.value, groups, entries, downloads,
                   |ms|, modified, |ms| - modified));
  }

  // ------------------------------------------------------------ properties

  /** The submission tab's tree of a report shows one node per group, in
      order, and under node `k` one row per match of group `k`, in order:
      the two students, the partner mark and the line count. Only the two
      parts of `GoodReport` that tie the entries to the groups are needed. */
  lemma TreeShowsReport(page: Page, req: Request, rep: Report, stored: Option<seq<Slot>>)
    requires InRange(rep.groups, |page.matches|)
    requires rep.entries == Flatten(GroupEntries(page.matches, rep.groups, req.archive, rep.resultId, req.partners))
    ensures |UpdateTree(Some(rep.entries), stored)| == |rep.groups|
    ensures forall k :: 0 <= k < |rep.groups| ==> UpdateTree(Some(rep.entries), stored)[k].title == Label(k + 1)
    ensures forall k, j :: 0 <= k < |rep.groups| && 0 <= j < |rep.groups[k]| ==>
      |UpdateTree(Some(rep.entries), stored)[k].rows| == |rep.groups[k]| &&
      var m := page.matches[rep.groups[k][j]];
      UpdateTree(Some(rep.entries), stored)[k].rows[j] == TreeRow(m.student1, m.student2, PartnerMark(m, req.partners), m.lines)
  {
    var es := GroupEntries(page.matches, rep.groups, req.archive, rep.resultId, req.partners);
    TreeShowsGroups(es, stored);
  }

  /** Without filtering, the entry list is every match in table order,
      linking into folder 0, closed by one sentinel; an empty table gives
      the sentinel alone. */
  lemma UnfilteredEntries(s: Submission, page: Page, req: Request, rep: Report)
    requires WellFormed(page.matches) && Ready(s) && page.date.Some? && page.options.Some?
    requires GoodReport(s, page, req, rep) && !req.filter
    ensures |rep.entries| == |page.matches| + 1
    ensures forall i :: 0 <= i < |page.matches| ==>
      rep.entries[i] == Row(EntryFor(page.matches[i], 0, req.archive, rep.resultId, req.partners))
    ensures rep.entries[|page.matches|] == Sentinel
    ensures rep.modifiedLength == rep.originalLength && rep.filtered == 0
  {
    OneGroupEntries(page.matches, req.archive, rep.resultId, req.partners);
  }

  /** The entries of the single group of all positions. */
  lemma OneGroupEntries(ms: seq<Match>, archive: bool, resultId: string, partners: set<set<string>>)
    ensures InRange([Positions(|ms|)], |ms|)
    ensures var f := Flatten(GroupEntries(ms, [Positions(|ms|)], archive, resultId, partners));
      && |f| == |ms| + 1
      && (forall i :: 0 <= i < |ms| ==> f[i] == Row(EntryFor(ms[i], 0, archive, resultId, partners)))
      && f[|ms|] == Sentinel
    ensures TotalSize([Positions(|ms|)]) == |ms|
  {
    var groups := [Positions(|ms|)];
    var es := GroupEntries(ms, groups, archive, resultId, partners);
    assert es[1..] == [];
    assert Flatten(es) == Rows(es[0]) + [Sentinel];
    assert TotalSize(groups) == |groups[0]| + TotalSize(groups[1..]);
  }

  /** With names that equal no other field, the filtered count is never
      negative; and when nothing can be filtered out (the current-quarter
      test off, no partners, every percentage reaching the threshold) it is
      zero. */
  lemma FilteredCount(s: Submission, page: Page, req: Request, rep: Report)
    requires WellFormed(page.matches) && Ready(s) && page.date.Some? && page.options.Some?
    requires GoodReport(s, page, req, rep) && CleanNames(page.matches)
    ensures rep.filtered >= 0
    ensures s.deactivated && req.partners == {} && req.threshold <= 0 ==> rep.filtered == 0
  {
    var ms := page.matches;
    if req.filter {
      var order :| IsRanking(ms, PolicyOf(s, req), order, rep.groups);
      ShownAtMostListed(ms, PolicyOf(s, req), order, rep.groups);
      if s.deactivated && req.partners == {} && req.threshold <= 0 {
        NothingFiltered(ms, PolicyOf(s, req), order, rep.groups);
      }
    } else {
      UnfilteredEntries(s, page, req, rep);
    }
  }

  /** In an archived report every entry links to a page the archive
      fetches: the match's own result page, kept in the entry's group
      folder under its file name. */
  lemma ArchivedLinksResolve(s: Submission, page: Page, req: Request, rep: Report, k: nat, j: nat)
    requires WellFormed(page.matches) && Ready(s) && page.date.Some? && page.options.Some?
    requires GoodReport(s, page, req, rep) && req.archive
    requires k < |rep.groups| && j < |rep.groups[k]|
    ensures exists d ::
      && d in rep.downloads
      && GroupEntries(page.matches, rep.groups, true, rep.resultId, req.partners)[k][j].url == d.folder + "/" + d.file
      && d.source == Source(rep.resultId, d.file)
      && d.file == PageName(page.matches[rep.groups[k][j]].num, "")
  {
    var nums := NumGroups(page.matches, rep.groups);
    DownloadsHaveEveryPage(rep.resultId, nums, k, j, 0);
  }

  /** Without archiving, every entry links to its match's page on the
      results server. */
  lemma ServerLinks(s: Submission, page: Page, req: Request, rep: Report, k: nat, j: nat)
    requires WellFormed(page.matches) && Ready(s) && page.date.Some? && page.options.Some?
    requires GoodReport(s, page, req, rep) && !req.archive
    requires k < |rep.groups| && j < |rep.groups[k]|
    ensures GroupEntries(page.matches, rep.groups, false, rep.resultId, req.partners)[k][j].url
      == BaseUrl + rep.resultId + "/match" + Decimal(rep.groups[k][j]) + ".html"
    ensures rep.downloads == []
  {
    var i := rep.groups[k][j];
    assert i < |page.matches|;
    assert WellFormedAt(page.matches[i], i);
    ServerPage(rep.resultId, page.matches[i].num);
  }

  /** The server address of a match page, as one string. */
  lemma ServerPage(resultId: string, num: string)
    ensures Source(resultId, PageName(num, "")) == BaseUrl + resultId + "/match" + num + ".html"
  {
    assert num + "" == num;
    assert "/" + ("match" + num + ".html") == "/match" + num + ".html";
  }
}
