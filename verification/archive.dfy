/** The local archive of a report: which result pages are fetched, where
    they are kept, and how the links of the `-top` page are made relative.
    The fetching and writing themselves are not modelled; only the plan.
 */
module Archive {
  import opened Outcomes
  import opened Text

  const BaseUrl: string := "http://moss.stanford.edu/results/"

  /** The four pages kept per match: the frame page, the two sides and the
      top bar. */
  const Resources: seq<string> := ["", "-0", "-1", "-top"]

  /** One page to fetch: the folder and file it is kept in, the address it
      is fetched from, and whether its links are made relative. */
  datatype Download = Download(folder: string, file: string, source: string, relative: bool)

  /** The folder of group `k`. */
  function Folder(k: nat): string {
    "group" + Decimal(k)
  }

  /** The file name of a resource of the match numbered `num`. */
  function PageName(num: string, resource: string): string {
    "match" + num + resource + ".html"
  }

  /** The address of a result page. */
  function Source(resultId: string, file: string): string {
    BaseUrl + resultId + "/" + file
  }

  /** Resource `t` of the match numbered `num`, kept in the folder of group
      `k` and fetched from the server; only the top bar's links are made
      relative. */
  function Fetch(resultId: string, k: nat, num: string, t: nat): Download
    requires t < |Resources|
  {
    Download(Folder(k), PageName(num, Resources[t]), Source(resultId, PageName(num, Resources[t])), Resources[t] == "-top")
  }

  /** The four downloads of one match. */
  function MatchDownloads(resultId: string, k: nat, num: string): (r: seq<Download>)
    ensures |r| == |Resources|
    ensures forall t :: 0 <= t < |r| ==> r[t] == Fetch(resultId, k, num, t)
  {
    seq(|Resources|, t requires 0 <= t < |Resources| => Fetch(resultId, k, num, t))
  }

  function GroupDownloads(resultId: string, k: nat, nums: seq<string>): seq<Download>
    decreases |nums|
  {
    if |nums| == 0 then [] else MatchDownloads(resultId, k, nums[0]) + GroupDownloads(resultId, k, nums[1..])
  }

  function DownloadsFrom(resultId: string, k: nat, groups: seq<seq<string>>): seq<Download>
    decreases |groups|
  {
    if |groups| == 0 then []
    else GroupDownloads(resultId, k, groups[0]) + DownloadsFrom(resultId, k + 1, groups[1..])
  }

  /** The downloads of an archived report, group by group, match by match,
      resource by resource; the matches are named by their number text. */
  function Downloads(resultId: string, groups: seq<seq<string>>): seq<Download> {
    DownloadsFrom(resultId, 0, groups)
  }

  lemma {:induction false} GroupDownloadsHas(resultId: string, k: nat, nums: seq<string>, j: nat, t: nat)
    requires j < |nums| && t < |Resources|
    ensures Fetch(resultId, k, nums[j], t) in GroupDownloads(resultId, k, nums)
    decreases |nums|
  {
    if j == 0 {
      assert MatchDownloads(resultId, k, nums[0])[t] in MatchDownloads(resultId, k, nums[0]);
    } else {
      GroupDownloadsHas(resultId, k, nums[1..], j - 1, t);
      assert nums[1..][j - 1] == nums[j];
    }
  }

  lemma {:induction false} DownloadsFromHas(resultId: string, k: nat, groups: seq<seq<string>>, g: nat, j: nat, t: nat)
    requires g < |groups| && j < |groups[g]| && t < |Resources|
    ensures Fetch(resultId, k + g, groups[g][j], t) in DownloadsFrom(resultId, k, groups)
    decreases |groups|
  {
    if g == 0 {
      GroupDownloadsHas(resultId, k, groups[0], j, t);
    } else {
      DownloadsFromHas(resultId, k + 1, groups[1..], g - 1, j, t);
      assert groups[1..][g - 1] == groups[g];
    }
  }

  /** Every resource of every archived match is fetched from its result
      page into the folder of its group, under the match's number. */
  lemma DownloadsHaveEveryPage(resultId: string, groups: seq<seq<string>>, g: nat, j: nat, t: nat)
    requires g < |groups| && j < |groups[g]| && t < |Resources|
    ensures Fetch(resultId, g, groups[g][j], t) in Downloads(resultId, groups)
  {
    DownloadsFromHas(resultId, 0, groups, g, j, t);
  }

  /** Every download is one of the four resources of an archived match,
      kept in that match's group folder. */
  lemma {:induction false} DownloadsOnlyPages(resultId: string, k: nat, groups: seq<seq<string>>, d: Download)
    returns (g: nat, j: nat, t: nat)
    requires d in DownloadsFrom(resultId, k, groups)
    ensures g < |groups| && j < |groups[g]| && t < |Resources|
    ensures d == Fetch(resultId, k + g, groups[g][j], t)
    decreases |groups|
  {
    DownloadsFromSplit(resultId, k, groups);
    if d in GroupDownloads(resultId, k, groups[0]) {
      g, j, t := FirstGroupOnly(resultId, k, groups, d);
    } else {
      var g', j', t' := DownloadsOnlyPages(resultId, k + 1, groups[1..], d);
      g, j, t := FetchShift(resultId, k, groups, g', j', t', d);
    }
  }

  lemma DownloadsFromSplit(resultId: string, k: nat, groups: seq<seq<string>>)
    ensures |groups| == 0 ==> DownloadsFrom(resultId, k, groups) == []
    ensures |groups| > 0 ==>
      DownloadsFrom(resultId, k, groups) == GroupDownloads(resultId, k, groups[0]) + DownloadsFrom(resultId, k + 1, groups[1..])
  {
  }

  /** A download of the first group, located in the whole list. */
  lemma FirstGroupOnly(resultId: string, k: nat, groups: seq<seq<string>>, d: Download)
    returns (g: nat, j: nat, t: nat)
    requires 0 < |groups| && d in GroupDownloads(resultId, k, groups[0])
    ensures g < |groups| && j < |groups[g]| && t < |Resources|
    ensures d == Fetch(resultId, k + g, groups[g][j], t)
  {
    g := 0;
    j, t := GroupDownloadsOnly(resultId, k, groups[0], d);
    assert k + g == k;
  }

  /** A download of the groups after the first, located in the whole list. */
  lemma FetchShift(resultId: string, k: nat, groups: seq<seq<string>>, g': nat, j': nat, t': nat, d: Download)
    returns (g: nat, j: nat, t: nat)
    requires 0 < |groups| && g' < |groups[1..]| && j' < |groups[1..][g']| && t' < |Resources|
    requires d == Fetch(resultId, k + 1 + g', groups[1..][g'][j'], t')
    ensures g < |groups| && j < |groups[g]| && t < |Resources|
    ensures d == Fetch(resultId, k + g, groups[g][j], t)
  {
    g, j, t := g' + 1, j', t';
    assert groups[1..][g'] == groups[g];
    assert k + 1 + g' == k + g;
  }

  lemma {:induction false} GroupDownloadsOnly(resultId: string, k: nat, nums: seq<string>, d: Download)
    returns (j: nat, t: nat)
    requires d in GroupDownloads(resultId, k, nums)
    ensures j < |nums| && t < |Resources|
    ensures d == Fetch(resultId, k, nums[j], t)
    decreases |nums|
  {
    if d in MatchDownloads(resultId, k, nums[0]) {
      var m :| 0 <= m < |Resources| && MatchDownloads(resultId, k, nums[0])[m] == d;
      j, t := 0, m;
    } else {
      var j', t' := GroupDownloadsOnly(resultId, k, nums[1..], d);
      assert nums[1..][j'] == nums[j' + 1];
      j, t := j' + 1, t';
    }
  }

  // ------------------------------------------------------- relative links

  /** The `-top` page with the results prefix of its links removed. */
  function MakeRelative(content: string, resultId: string): string {
    RemoveAll(content, BaseUrl + resultId + "/")
  }

  /** A link to a result page of the same report becomes the bare file
      name, which is where the archive keeps that page. */
  lemma RelativeLink(resultId: string, file: string)
    requires forall i :: 0 <= i <= |file| - |BaseUrl + resultId + "/"| ==> !OccursAt(file, BaseUrl + resultId + "/", i)
    ensures MakeRelative(Source(resultId, file), resultId) == file
  {
    var p := BaseUrl + resultId + "/";
    assert Source(resultId, file) == p + file;
    assert (p + file)[..|p|] == p;
    assert (p + file)[|p|..] == file;
    RemoveAllAbsent(file, p);
  }

  // -------------------------------------------------- the loop as written

  /** A value held in a group: the filtered report holds match-number
      text, the unfiltered one holds integer positions. */
  datatype PyValue = Text(text: string) | Int(number: int)

  /** `'match' + match_id + resource + '.html'`, which raises for an
      integer. */
  function PageNameAsWritten(v: PyValue, resource: string): Result<string> {
    match v
    case Text(num) => Ok(PageName(num, resource))
    case Int(_) => Err(TypeError)
  }

  /** The four downloads of one match as the loop writes them: the first
      file name already raises for an integer. */
  function MatchDownloadsAsWritten(resultId: string, k: nat, v: PyValue): (r: Result<seq<Download>>)
    ensures v.Text? ==> r == Ok(MatchDownloads(resultId, k, v.text))
    ensures v.Int? ==> r == Err(TypeError)
  {
    match PageNameAsWritten(v, Resources[0])
    case Err(e) => Err(e)
    case Ok(_) => Ok(MatchDownloads(resultId, k, v.text))
  }

  function GroupDownloadsAsWritten(resultId: string, k: nat, vs: seq<PyValue>): Result<seq<Download>>
    decreases |vs|
  {
    if |vs| == 0 then Ok([])
    else match MatchDownloadsAsWritten(resultId, k, vs[0])
      case Err(e) => Err(e)
      case Ok(first) =>
        match GroupDownloadsAsWritten(resultId, k, vs[1..])
        case Err(e) => Err(e)
        case Ok(rest) => Ok(first + rest)
  }

  function DownloadsFromAsWritten(resultId: string, k: nat, groups: seq<seq<PyValue>>): Result<seq<Download>>
    decreases |groups|
  {
    if |groups| == 0 then Ok([])
    else match GroupDownloadsAsWritten(resultId, k, groups[0])
      case Err(e) => Err(e)
      case Ok(first) =>
        match DownloadsFromAsWritten(resultId, k + 1, groups[1..])
        case Err(e) => Err(e)
        case Ok(rest) => Ok(first + rest)
  }

  /** The archive loop as written, over the values the groups hold. */
  function DownloadsAsWritten(resultId: string, groups: seq<seq<PyValue>>): Result<seq<Download>> {
    DownloadsFromAsWritten(resultId, 0, groups)
  }

  /** Positions `0 .. n-1` as the integers the unfiltered report holds. */
  function IntPositions(n: nat): (r: seq<PyValue>)
    ensures |r| == n && forall i :: 0 <= i < n ==> r[i] == Int(i)
  {
    seq(n, i requires 0 <= i < n => Int(i))
  }

  /** As written, archiving an unfiltered report with at least one match
      raises: the first file name joins text and an integer. */
  lemma UnfilteredArchiveRaises(resultId: string, n: nat)
    requires n > 0
    ensures DownloadsAsWritten(resultId, [IntPositions(n)]) == Err(TypeError)
  {
    assert IntPositions(n)[0] == Int(0);
  }

  function Texts(nums: seq<string>): (r: seq<PyValue>)
    ensures |r| == |nums| && forall i :: 0 <= i < |nums| ==> r[i] == Text(nums[i])
  {
    seq(|nums|, i requires 0 <= i < |nums| => Text(nums[i]))
  }

  /** Where the groups hold text, the loop as written fetches exactly the
      pages of `Downloads`. */
  lemma {:induction false} GroupAsWrittenAgrees(resultId: string, k: nat, nums: seq<string>)
    ensures GroupDownloadsAsWritten(resultId, k, Texts(nums)) == Ok(GroupDownloads(resultId, k, nums))
    decreases |nums|
  {
    if |nums| > 0 {
      assert Texts(nums)[1..] == Texts(nums[1..]);
      GroupAsWrittenAgrees(resultId, k, nums[1..]);
    }
  }

  lemma {:induction false} DownloadsFromAsWrittenAgrees(resultId: string, k: nat, groups: seq<seq<string>>)
    ensures DownloadsFromAsWritten(resultId, k, seq(|groups|, g requires 0 <= g < |groups| => Texts(groups[g])))
            == Ok(DownloadsFrom(resultId, k, groups))
    decreases |groups|
  {
    if |groups| > 0 {
      var vs := seq(|groups|, g requires 0 <= g < |groups| => Texts(groups[g]));
      assert vs[1..] == seq(|groups[1..]|, g requires 0 <= g < |groups[1..]| => Texts(groups[1..][g]));
      GroupAsWrittenAgrees(resultId, k, groups[0]);
      DownloadsFromAsWrittenAgrees(resultId, k + 1, groups[1..]);
    }
  }

  /** The filtered report holds match-number text, and for it the loop as
      written and `Downloads` agree. */
  lemma FilteredArchiveAgrees(resultId: string, groups: seq<seq<string>>)
    ensures DownloadsAsWritten(resultId, seq(|groups|, g requires 0 <= g < |groups| => Texts(groups[g])))
            == Ok(Downloads(resultId, groups))
  {
    DownloadsFromAsWrittenAgrees(resultId, 0, groups);
  }

  // ------------------------------------------------------------ zipping

  /** The report page written into every report folder. */
  const ReportPage: string := "report.html"

  /** The files of a report folder once the report is written: the group
      folders and their pages when archiving, and the report page. Paths
      are relative to the folder. */
  function FolderFiles(downloads: seq<Download>): set<string> {
    {ReportPage}
    + (set d | d in downloads :: d.folder)
    + (set d | d in downloads :: d.folder + "/" + d.file)
  }

  /** How the report ends up: the files of the zip archive, if one is
      made, and the files left in the uncompressed folder, if it remains. */
  datatype Finish = Finish(zipped: Option<set<string>>, folder: Option<set<string>>)

  /** The last step as written: without zipping the folder stays; with
      zipping, `make_archive` packs the folder into a zip beside it and
      `directory.rmdir()` then removes the folder, which `rmdir` refuses
      while it still holds a file. */
  function ZipAsWritten(files: set<string>, zip: bool): Result<Finish> {
    if !zip then Ok(Finish(None, Some(files)))
    else if files != {} then Err(NotEmptyError)
    else Ok(Finish(Some(files), None))
  }

  /** The last step as intended: after zipping, the folder is removed with
      everything in it. */
  function ZipStep(files: set<string>, zip: bool): Finish {
    if zip then Finish(Some(files), None) else Finish(None, Some(files))
  }

  /** As written, zipping a report always fails: the report page is in the
      folder when `rmdir` runs. */
  lemma ZipAlwaysFails(downloads: seq<Download>)
    ensures ZipAsWritten(FolderFiles(downloads), true) == Err(NotEmptyError)
  {
  }

  /** The intended step keeps every file of the report exactly once: in the
      zip when zipping, with no folder left, and in the folder otherwise,
      where it agrees with the step as written. The zip holds the report
      page and every fetched page. */
  lemma ZipKeepsReport(downloads: seq<Download>, zip: bool)
    ensures var r := ZipStep(FolderFiles(downloads), zip);
      && (zip <==> r.zipped.Some?)
      && (zip <==> r.folder.None?)
      && (r.folder.Some? ==> r.folder.value == FolderFiles(downloads))
      && (!zip ==> ZipAsWritten(FolderFiles(downloads), zip) == Ok(r))
    ensures zip ==> var z := ZipStep(FolderFiles(downloads), zip).zipped.value;
      && ReportPage in z
      && forall d :: d in downloads ==> d.folder + "/" + d.file in z
  {
  }
}
