/** The settings tab: the keystroke validators of its entries and the
    check-box handlers that keep the report options consistent.

    A Tk validator sees the entry's text as it would be after the edit
    (`total`) and the inserted or deleted text (`change`); it accepts the
    edit or refuses it, ringing the bell. A check box flips its variable
    and then runs its handler; a disabled widget ignores clicks.
 */
module Settings {
  import opened Outcomes
  import opened Text

  datatype WidgetState = Normal | Active | Disabled

  predicate Enabled(w: WidgetState) {
    w != Disabled
  }

  /** The variables of the tab (and the two of the submission tab its
      handlers reset), with the states of the widgets they govern. */
  datatype Settings = Settings(
    networkThreshold: int,
    ignoreLimit: int,
    filter: bool,
    download: bool,
    archive: bool,
    zip: bool,
    directory: string,
    reviewBefore: bool,
    partnersTab: WidgetState,
    thresholdSelector: WidgetState,
    archiveBox: WidgetState,
    zipButton: WidgetState,
    dirEntry: WidgetState,
    dirButton: WidgetState,
    reviewButton: WidgetState)

  datatype Verdict = Accept | Reject

  /** A validator's answer and the settings after it ran. */
  datatype Checked = Checked(state: Settings, verdict: Verdict)

  // ------------------------------------------------------------ validators

  /** `validate_spin`: clearing the entry is accepted and resets the network
      threshold to 0; otherwise the edit must insert digits and leave a
      number from 0 to 99. `int()` runs only after the digit test passes,
      and raises on text it cannot read (a space between digits). */
  function ValidateSpin(s: Settings, total: string, change: string): (r: Result<Checked>)
    ensures total == "" ==> r == Ok(Checked(s.(networkThreshold := 0), Accept))
    ensures total != "" && r.Ok? ==> r.value.state == s
    ensures r.Err? <==> total != "" && IsDigits(change) && PyInt(total).None?
    ensures r.Err? ==> r.error == ValueError
    ensures r.Ok? && r.value.verdict == Accept && total != "" ==>
      IsDigits(change) && PyInt(total).Some? && 0 <= PyInt(total).value < 100
    ensures total != "" && IsDigits(change) && PyInt(total).Some? && 0 <= PyInt(total).value < 100 ==>
      r == Ok(Checked(s, Accept))
  {
    if total == "" then Ok(Checked(s.(networkThreshold := 0), Accept))
    else if !IsDigits(change) then Ok(Checked(s, Reject))
    else match PyInt(total)
      case None => Err(ValueError)
      case Some(v) => Ok(Checked(s, if 0 <= v < 100 then Accept else Reject))
  }

  /** `_validate_ignore_limit`: the same shape with the inclusive bound
      1000000, resetting the ignore limit itself. */
  function ValidateIgnoreLimit(s: Settings, total: string, change: string): (r: Result<Checked>)
    ensures total == "" ==> r == Ok(Checked(s.(ignoreLimit := 0), Accept))
    ensures total != "" && r.Ok? ==> r.value.state == s
    ensures r.Err? <==> total != "" && IsDigits(change) && PyInt(total).None?
    ensures r.Err? ==> r.error == ValueError
    ensures r.Ok? && r.value.verdict == Accept && total != "" ==>
      IsDigits(change) && PyInt(total).Some? && 0 <= PyInt(total).value <= 1000000
    ensures total != "" && IsDigits(change) && PyInt(total).Some? && 0 <= PyInt(total).value <= 1000000 ==>
      r == Ok(Checked(s, Accept))
  {
    if total == "" then Ok(Checked(s.(ignoreLimit := 0), Accept))
    else if !IsDigits(change) then Ok(Checked(s, Reject))
    else match PyInt(total)
      case None => Err(ValueError)
      case Some(v) => Ok(Checked(s, if 0 <= v <= 1000000 then Accept else Reject))
  }

  /** `_validate_id`: the inserted or deleted text must be digits (and not
      empty) and the text after the edit at most nine characters long.
      `IdKeystroke` states what this means for the entry. */
  function ValidateId(total: string, change: string): Verdict
  {
    if IsDigits(change) && |total| <= 9 then Accept else Reject
  }

  /** Typing into a spin box whose text is a plain numeral: no exception,
      and the edit is kept exactly when the number is below 100. */
  lemma SpinOnNumerals(s: Settings, total: string, change: string)
    requires IsDigits(total) && IsDigits(change)
    ensures ValidateSpin(s, total, change).Ok?
    ensures ValidateSpin(s, total, change).value.verdict == Accept <==> DigitsValue(total) < 100
  {
    PyIntOfDigits(total);
  }

  /** A keystroke in an entry: text typed in at a position, or a run of
      characters removed from one; positions past the end are clamped. */
  datatype Edit = Insert(at: nat, typed: string) | Delete(at: nat, count: nat)

  function Clamp(i: nat, n: nat): nat {
    if i <= n then i else n
  }

  /** What the validator is shown for an edit: the text as it would be
      afterwards (`%P`) and the inserted or deleted text (`%S`). */
  function Proposed(text: string, e: Edit): (string, string) {
    var k := Clamp(e.at, |text|);
    match e
    case Insert(_, typed) => (text[..k] + typed + text[k..], typed)
    case Delete(_, count) =>
      var j := Clamp(k + count, |text|);
      (text[..k] + text[j..], text[k..j])
  }

  /** The account-id entry after one keystroke: the proposed text when
      `_validate_id` accepts it, the old text otherwise. Typing is kept
      exactly when it is digits and the result fits in nine characters;
      deleting is kept exactly when it removes digits and the rest fits. */
  function IdKeystroke(text: string, e: Edit): (r: string)
    ensures e.Insert? ==>
      var k := Clamp(e.at, |text|);
      r == (if IsDigits(e.typed) && |text| + |e.typed| <= 9 then text[..k] + e.typed + text[k..] else text)
    ensures e.Delete? ==>
      var k := Clamp(e.at, |text|);
      var j := Clamp(k + e.count, |text|);
      r == (if IsDigits(text[k..j]) && |text| - (j - k) <= 9 then text[..k] + text[j..] else text)
  {
    var (total, change) := Proposed(text, e);
    if ValidateId(total, change) == Accept then total else text
  }

  function IdKeystrokes(text: string, es: seq<Edit>): string
    decreases |es|
  {
    if |es| == 0 then text else IdKeystrokes(IdKeystroke(text, es[0]), es[1..])
  }

  lemma DigitsConcat(a: string, b: string)
    requires AllDigits(a) && AllDigits(b)
    ensures AllDigits(a + b)
  {
    forall i | 0 <= i < |a + b| ensures IsDigitChar((a + b)[i]) {
      if i < |a| {
        assert (a + b)[i] == a[i];
      } else {
        assert (a + b)[i] == b[i - |a|];
      }
    }
  }

  lemma DigitsSlice(s: string, i: nat, j: nat)
    requires AllDigits(s) && i <= j <= |s|
    ensures AllDigits(s[i..j])
  {
    forall k | 0 <= k < j - i ensures IsDigitChar(s[i..j][k]) {
      assert s[i..j][k] == s[i + k];
    }
  }

  /** One keystroke keeps an id of at most nine digits at most nine digits. */
  lemma IdKeystrokeKeepsShort(text: string, e: Edit)
    requires |text| <= 9 && AllDigits(text)
    ensures |IdKeystroke(text, e)| <= 9 && AllDigits(IdKeystroke(text, e))
  {
    var r := IdKeystroke(text, e);
    var k := Clamp(e.at, |text|);
    if r != text {
      DigitsSlice(text, 0, k);
      assert text[..k] == text[0..k];
      DigitsSlice(text, k, |text|);
      assert text[k..] == text[k..|text|];
      match e
      case Insert(_, typed) =>
        assert r == text[..k] + typed + text[k..];
        DigitsConcat(text[..k], typed);
        DigitsConcat(text[..k] + typed, text[k..]);
      case Delete(_, count) =>
        var j := Clamp(k + count, |text|);
        assert r == text[..k] + text[j..];
        DigitsSlice(text, j, |text|);
        assert text[j..] == text[j..|text|];
        DigitsConcat(text[..k], text[j..]);
    }
  }

  /** Whatever is typed or deleted, an account-id entry that starts as at
      most nine digits never holds anything but at most nine digits. */
  lemma {:induction false} IdEntryStaysShort(text: string, es: seq<Edit>)
    requires |text| <= 9 && AllDigits(text)
    ensures |IdKeystrokes(text, es)| <= 9 && AllDigits(IdKeystrokes(text, es))
    decreases |es|
  {
    if |es| > 0 {
      IdKeystrokeKeepsShort(text, es[0]);
      IdEntryStaysShort(IdKeystroke(text, es[0]), es[1..]);
    }
  }

  // -------------------------------------------------- the ignore-limit entry

  /** The ignore-limit spin box as written: it is wired to `validate_spin`,
      the network threshold's validator. */
  function IgnoreLimitKeyAsWritten(s: Settings, total: string, change: string): Result<Checked> {
    ValidateSpin(s, total, change)
  }

  /** As written, every ignore limit from 100 to 1000000 that its own
      validator would keep is refused, and clearing the ignore-limit entry
      zeroes the network threshold while leaving the ignore limit as it
      was. */
  lemma IgnoreLimitMisrouted(s: Settings, total: string, change: string)
    requires s.networkThreshold != 0
    requires IsDigits(total) && IsDigits(change) && 100 <= DigitsValue(total) <= 1000000
    ensures IgnoreLimitKeyAsWritten(s, total, change) == Ok(Checked(s, Reject))
    ensures ValidateIgnoreLimit(s, total, change) == Ok(Checked(s, Accept))
    ensures IgnoreLimitKeyAsWritten(s, "", change).value.state.networkThreshold == 0
    ensures IgnoreLimitKeyAsWritten(s, "", change).value.state.ignoreLimit == s.ignoreLimit
    ensures IgnoreLimitKeyAsWritten(s, "", change).value.state != ValidateIgnoreLimit(s, "", change).value.state
  {
    PyIntOfDigits(total);
  }

  /** With its own validator, the ignore-limit entry never touches the
      network threshold, and keeps every numeral up to 1000000. */
  lemma IgnoreLimitOwnValidator(s: Settings, total: string, change: string)
    ensures ValidateIgnoreLimit(s, total, change).Ok? ==>
      ValidateIgnoreLimit(s, total, change).value.state.networkThreshold == s.networkThreshold
    ensures IsDigits(total) && IsDigits(change) && DigitsValue(total) <= 1000000 ==>
      ValidateIgnoreLimit(s, total, change) == Ok(Checked(s, Accept))
  {
    if IsDigits(total) {
      PyIntOfDigits(total);
    }
  }

  // -------------------------------------------------------------- handlers

  /** `_toggle_local_settings`: the zip box follows the archive box; without
      archiving the report is not zipped. */
  function ToggleLocalSettings(s: Settings): (r: Settings)
    ensures r.zip ==> r.archive
    ensures Enabled(r.zipButton) <==> r.archive
    ensures s.archive ==> r.zip == s.zip
    ensures r.(zip := s.zip, zipButton := s.zipButton) == s
  {
    if s.archive then s.(zipButton := Active)
    else s.(zip := false, zipButton := Disabled)
  }

  /** `_toggle_filter_settings`: the partners tab and the threshold selector
      follow the filter box; without filtering the threshold is 0. */
  function ToggleFilterSettings(s: Settings): (r: Settings)
    ensures Enabled(r.partnersTab) <==> r.filter
    ensures Enabled(r.thresholdSelector) <==> r.filter
    ensures !r.filter ==> r.networkThreshold == 0
    ensures r.filter ==> r.networkThreshold == s.networkThreshold
    ensures r.(partnersTab := s.partnersTab, thresholdSelector := s.thresholdSelector,
               networkThreshold := s.networkThreshold) == s
  {
    if s.filter then s.(partnersTab := Normal, thresholdSelector := Normal)
    else s.(partnersTab := Disabled, networkThreshold := 0, thresholdSelector := Disabled)
  }

  /** The report options depend on each other as the tab shows them: zip
      only with archive, archive only with download, and each box enabled
      exactly when the option it depends on is set. */
  predicate ReportCoherent(s: Settings) {
    && (s.zip ==> s.archive)
    && (s.archive ==> s.download)
    && (Enabled(s.zipButton) <==> s.archive)
    && (Enabled(s.archiveBox) <==> s.download)
    && (Enabled(s.dirEntry) <==> s.download)
    && (Enabled(s.dirButton) <==> s.download)
    && (Enabled(s.reviewButton) <==> s.download)
  }

  predicate FilterCoherent(s: Settings) {
    && (Enabled(s.partnersTab) <==> s.filter)
    && (Enabled(s.thresholdSelector) <==> s.filter)
    && (!s.filter ==> s.networkThreshold == 0)
  }

  /** `_toggle_download_report`: turning download off clears archive, the
      report directory and review-before, disables their widgets and then
      lets the archive handler clear zip. Whatever the settings were before,
      the report options are coherent afterwards. */
  function ToggleDownloadReport(s: Settings): (r: Settings)
    ensures ReportCoherent(r)
    ensures !s.download ==> !r.archive && !r.zip && r.directory == "" && !r.reviewBefore
    ensures s.download ==> r.archive == s.archive && r.directory == s.directory && r.reviewBefore == s.reviewBefore
    ensures s.download && s.archive ==> r.zip == s.zip
    ensures r.(archive := s.archive, zip := s.zip, directory := s.directory, reviewBefore := s.reviewBefore,
               archiveBox := s.archiveBox, zipButton := s.zipButton, dirEntry := s.dirEntry,
               dirButton := s.dirButton, reviewButton := s.reviewButton) == s
  {
    var t :=
      if s.download then
        s.(dirEntry := Active, dirButton := Active, reviewButton := Active, archiveBox := Active)
      else
        s.(archive := false, directory := "", reviewBefore := false,
           dirEntry := Disabled, dirButton := Disabled, reviewButton := Disabled, archiveBox := Disabled);
    ToggleLocalSettings(t)
  }

  // ---------------------------------------------------------------- clicks

  datatype Box = FilterBox | DownloadBox | ArchiveBox | ZipBox

  /** A click on a check box of the tab. */
  function Click(s: Settings, b: Box): Settings {
    match b
    case FilterBox => ToggleFilterSettings(s.(filter := !s.filter))
    case DownloadBox => ToggleDownloadReport(s.(download := !s.download))
    case ArchiveBox =>
      if Enabled(s.archiveBox) then ToggleLocalSettings(s.(archive := !s.archive)) else s
    case ZipBox =>
      if Enabled(s.zipButton) then s.(zip := !s.zip) else s
  }

  function Clicks(s: Settings, bs: seq<Box>): Settings
    decreases |bs|
  {
    if |bs| == 0 then s else Clicks(Click(s, bs[0]), bs[1..])
  }

  /** Every click keeps consistent report options consistent. */
  lemma ClickKeepsReport(s: Settings, b: Box)
    requires ReportCoherent(s)
    ensures ReportCoherent(Click(s, b))
  {
  }

  /** Every click keeps consistent filter options consistent. */
  lemma ClickKeepsFilter(s: Settings, b: Box)
    requires FilterCoherent(s)
    ensures FilterCoherent(Click(s, b))
  {
  }

  /** Every click keeps coherent settings coherent. */
  lemma ClickKeepsCoherent(s: Settings, b: Box)
    requires ReportCoherent(s) && FilterCoherent(s)
    ensures ReportCoherent(Click(s, b)) && FilterCoherent(Click(s, b))
  {
    ClickKeepsReport(s, b);
    ClickKeepsFilter(s, b);
  }

  /** Once the download box has been clicked, whatever the settings loaded
      with, zip implies archive implies download after every later click,
      and each report widget is enabled exactly when its option allows. */
  lemma {:induction false} CoherentAfterDownloadClick(s: Settings, bs: seq<Box>)
    ensures ReportCoherent(Clicks(s, [DownloadBox] + bs))
    ensures Clicks(s, [DownloadBox] + bs).zip ==> Clicks(s, [DownloadBox] + bs).archive
    ensures Clicks(s, [DownloadBox] + bs).archive ==> Clicks(s, [DownloadBox] + bs).download
  {
    assert ([DownloadBox] + bs)[1..] == bs;
    ReportStaysCoherent(Click(s, DownloadBox), bs);
  }

  /** Once the filter box has been clicked, whatever the settings loaded
      with, the partners tab and the threshold selector follow the filter
      option and the threshold is 0 while filtering is off, after every
      later click. */
  lemma {:induction false} CoherentAfterFilterClick(s: Settings, bs: seq<Box>)
    ensures FilterCoherent(Clicks(s, [FilterBox] + bs))
    ensures !Clicks(s, [FilterBox] + bs).filter ==> Clicks(s, [FilterBox] + bs).networkThreshold == 0
  {
    assert ([FilterBox] + bs)[1..] == bs;
    FilterStaysCoherent(Click(s, FilterBox), bs);
  }

  lemma {:induction false} ReportStaysCoherent(s: Settings, bs: seq<Box>)
    requires ReportCoherent(s)
    ensures ReportCoherent(Clicks(s, bs))
    decreases |bs|
  {
    if |bs| > 0 {
      ClickKeepsReport(s, bs[0]);
      ReportStaysCoherent(Click(s, bs[0]), bs[1..]);
    }
  }

  /** Consistent filter options stay consistent under any clicks. */
  lemma {:induction false} FilterStaysCoherent(s: Settings, bs: seq<Box>)
    requires FilterCoherent(s)
    ensures FilterCoherent(Clicks(s, bs))
    decreases |bs|
  {
    if |bs| > 0 {
      ClickKeepsFilter(s, bs[0]);
      FilterStaysCoherent(Click(s, bs[0]), bs[1..]);
    }
  }

  /** The tab as loaded from the default configuration, filtering off with
      threshold -1, is not consistent until the filter box is clicked. */
  lemma DefaultLoadNotFilterCoherent(s: Settings)
    requires !s.filter && s.networkThreshold == -1
    ensures !FilterCoherent(s)
    ensures !FilterCoherent(Clicks(s, [DownloadBox]))
  {
  }
}

