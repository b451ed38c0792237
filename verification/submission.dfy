/** The submission object `MossUCI`: files are added while it is open, one
    send locks it, and the current-quarter students are collected from the
    files added as current.
 */
module Submission {
  import opened Outcomes
  import opened Text

  /** A file handed to the detection-service client: its path and display
      name. */
  datatype FileRef = FileRef(path: string, displayName: string)

  /** The object's state: the account, the client's supported languages
      and chosen language, the files handed to the client, the
      current-quarter students, the lock, the results URL and whether the
      current-quarter test is switched off. */
  datatype Submission = Submission(
    account: int,
    languages: set<string>,
    language: string,
    files: seq<FileRef>,
    current: set<string>,
    sent: bool,
    url: Option<string>,
    deactivated: bool)

  /** The state after an operation, and the value it returned or the
      exception it raised. */
  datatype Step<T> = Step(state: Submission, result: Result<T>)

  /** The exception of the send-once lock. */
  const Locked: PyError := ConnectionRefused("Files already sent")

  /** The client's language when the requested one is not supported. */
  const DefaultLanguage: string := "c"

  /** A new object: open, no files, no current-quarter students, no URL,
      the current-quarter test on. */
  function Init(account: int, language: string, languages: set<string>): (s: Submission)
    ensures !s.sent && s.url == None && s.files == [] && s.current == {} && !s.deactivated
    ensures s.language in languages + {DefaultLanguage}
    ensures language in languages ==> s.language == language
    ensures language !in languages ==> s.language == DefaultLanguage
    ensures s.account == account && s.languages == languages
  {
    Submission(account, languages, if language in languages then language else DefaultLanguage,
               [], {}, false, None, false)
  }

  /** `deactivate_current_students`, which the lock does not guard. */
  function Deactivate(s: Submission): Submission {
    s.(deactivated := true)
  }

  /** `activate_current_students`, which the lock does not guard. */
  function Activate(s: Submission): Submission {
    s.(deactivated := false)
  }

  // ------------------------------------------------------ the id in a path

  /** The end of the run of word characters that starts at `i`. */
  function WordRunEnd(s: string, i: nat): (e: nat)
    requires i <= |s|
    ensures i <= e <= |s|
    ensures forall k :: i <= k < e ==> IsWordChar(s[k])
    ensures e == |s| || !IsWordChar(s[e])
    decreases |s| - i
  {
    if i < |s| && IsWordChar(s[i]) then WordRunEnd(s, i + 1) else i
  }

  /** The pattern `_(\w+)uci\.edu` matches at `p` with its group ending at
      `j`: an underscore at `p`, one or more word characters up to `j`, then
      `uci.edu`. */
  predicate PatternAt(s: string, p: int, j: int) {
    && 0 <= p && p + 2 <= j && j + 7 <= |s|
    && s[p] == '_'
    && (forall k :: p < k < j ==> IsWordChar(s[k]))
    && s[j..j + 7] == "uci.edu"
  }

  /** The scanner's test at `p`: the word run after the underscore must end
      with `uci`, leave at least one character before it, and be followed
      by `.edu`. */
  predicate ScanAt(s: string, p: nat)
    requires p < |s|
  {
    && s[p] == '_'
    && var e := WordRunEnd(s, p + 1);
    && e >= p + 5 && e + 4 <= |s|
    && s[e - 3..e] == "uci" && s[e..e + 4] == ".edu"
  }

  /** The scanner's test agrees with the pattern, and the pattern can end
      its group in only one place. */
  lemma ScanAtIsPattern(s: string, p: nat)
    requires p < |s|
    ensures ScanAt(s, p) ==> PatternAt(s, p, WordRunEnd(s, p + 1) - 3)
    ensures forall j :: PatternAt(s, p, j) ==> ScanAt(s, p) && j == WordRunEnd(s, p + 1) - 3
  {
    if ScanAt(s, p) {
      ScanGivesPattern(s, p);
    }
    forall j | PatternAt(s, p, j) ensures ScanAt(s, p) && j == WordRunEnd(s, p + 1) - 3 {
      PatternGivesScan(s, p, j);
    }
  }

  lemma ScanGivesPattern(s: string, p: nat)
    requires p < |s| && ScanAt(s, p)
    ensures PatternAt(s, p, WordRunEnd(s, p + 1) - 3)
  {
    var e := WordRunEnd(s, p + 1);
    assert s[e - 3..e + 4] == s[e - 3..e] + s[e..e + 4];
    forall k | p < k < e - 3 ensures IsWordChar(s[k]) {
    }
  }

  lemma PatternGivesScan(s: string, p: nat, j: int)
    requires p < |s| && PatternAt(s, p, j)
    ensures ScanAt(s, p) && j == WordRunEnd(s, p + 1) - 3
  {
    var e := WordRunEnd(s, p + 1);
    var t := s[j..j + 7];
    assert t == "uci.edu";
    assert t[0] == s[j] && t[1] == s[j + 1] && t[2] == s[j + 2] && t[3] == s[j + 3];
    assert forall k :: p < k < j + 3 ==> IsWordChar(s[k]);
    assert e == j + 3;
    assert s[e - 3..e] == t[..3] == "uci";
    assert s[e..e + 4] == t[3..] == ".edu";
  }

  /** The search from position `p` onwards. */
  function SearchFrom(s: string, p: nat): (r: Option<string>)
    requires p <= |s|
    decreases |s| - p
  {
    if p == |s| then None
    else if ScanAt(s, p) then Some(s[p + 1..WordRunEnd(s, p + 1) - 3])
    else SearchFrom(s, p + 1)
  }

  lemma {:induction false} SearchFromFinds(s: string, p: nat)
    requires p <= |s|
    ensures SearchFrom(s, p).None? <==> forall q, j :: p <= q && PatternAt(s, q, j) ==> false
    ensures SearchFrom(s, p).Some? ==> exists q, j ::
      && p <= q && PatternAt(s, q, j) && SearchFrom(s, p).value == s[q + 1..j]
      && forall q', j' :: p <= q' < q ==> !PatternAt(s, q', j')
    decreases |s| - p
  {
    if p < |s| {
      ScanAtIsPattern(s, p);
      if !ScanAt(s, p) {
        SearchFromFinds(s, p + 1);
      }
    }
  }

  /** `re.search(r'_(?P<uciID>\w+)uci\.edu', path).group('uciID')`: the
      group of the leftmost match of the pattern, or nothing (the call then
      raises) when the pattern does not occur. */
  function UciId(path: string): (r: Option<string>)
    ensures r.None? <==> forall p, j :: PatternAt(path, p, j) ==> false
    ensures r.Some? ==> exists p, j ::
      && PatternAt(path, p, j) && r.value == path[p + 1..j]
      && forall q, j' :: q < p ==> !PatternAt(path, q, j')
  {
    SearchFromFinds(path, 0);
    SearchFrom(path, 0)
  }

  /** The id is a non-empty run of word characters. */
  lemma UciIdIsWord(path: string)
    requires UciId(path).Some?
    ensures |UciId(path).value| > 0
    ensures forall k :: 0 <= k < |UciId(path).value| ==> IsWordChar(UciId(path).value[k])
  {
    var p, j :| PatternAt(path, p, j) && UciId(path).value == path[p + 1..j];
    var id := UciId(path).value;
    forall k | 0 <= k < |id| ensures IsWordChar(id[k]) {
      assert id[k] == path[p + 1 + k];
    }
  }

  // ------------------------------------------------------------ operations

  /** The name `addFile` records: the display name, or when that is blank
      the id in the path. */
  function StudentName(path: string, name: string): Option<string> {
    if name != "" then Some(name) else UciId(path)
  }

  /** `addFile`: the lock is checked first; then the student name is
      recorded (a path without an id raises and changes nothing); then the
      client takes the file, or raises with the name already recorded. */
  function AddFile(s: Submission, path: string, name: string, accepted: bool): (r: Step<()>)
    ensures s.sent ==> r == Step(s, Err(Locked))
    ensures !s.sent && StudentName(path, name).None? ==> r == Step(s, Err(AttributeError))
    ensures !s.sent && StudentName(path, name).Some? ==>
      && r.state.current == s.current + {StudentName(path, name).value}
      && r.state.files == s.files + (if accepted then [FileRef(path, name)] else [])
      && r.result == (if accepted then Ok(()) else Err(HostError))
      && r.state.(current := s.current, files := s.files) == s
  {
    if s.sent then Step(s, Err(Locked))
    else match StudentName(path, name)
      case None => Step(s, Err(AttributeError))
      case Some(student) =>
        var marked := s.(current := s.current + {student});
        if accepted then Step(marked.(files := s.files + [FileRef(path, name)]), Ok(()))
        else Step(marked, Err(HostError))
  }

  /** `add_old_students`: hands the file to the client and never touches
      the current-quarter students. */
  function AddOldStudent(s: Submission, path: string, name: string, accepted: bool): (r: Step<()>)
    ensures r.state.current == s.current
    ensures s.sent ==> r == Step(s, Err(Locked))
    ensures !s.sent ==>
      && r.state == s.(files := s.files + (if accepted then [FileRef(path, name)] else []))
      && (r.result.Ok? <==> accepted)
  {
    if s.sent then Step(s, Err(Locked))
    else if accepted then Step(s.(files := s.files + [FileRef(path, name)]), Ok(()))
    else Step(s, Err(HostError))
  }

  /** `send`: `reply` is what the client's send returned, or nothing when
      it raised. The object is locked and the URL kept only once the
      client has returned; a failed send leaves it open. */
  function Send(s: Submission, reply: Option<string>): (r: Step<string>)
    ensures s.sent ==> r == Step(s, Err(Locked))
    ensures !s.sent && reply.None? ==> r == Step(s, Err(HostError))
    ensures !s.sent && reply.Some? ==>
      r == Step(s.(sent := true, url := reply), Ok(reply.value))
  {
    if s.sent then Step(s, Err(Locked))
    else match reply
      case None => Step(s, Err(HostError))
      case Some(u) => Step(s.(sent := true, url := Some(u)), Ok(u))
  }

  /** `set_language`: a supported language replaces the chosen one; any
      other request is ignored. */
  function SetLanguage(s: Submission, language: string): (r: Step<()>)
    ensures s.sent ==> r == Step(s, Err(Locked))
    ensures !s.sent ==> r.result == Ok(())
    ensures !s.sent && language in s.languages ==> r.state == s.(language := language)
    ensures !s.sent && language !in s.languages ==> r.state == s
  {
    if s.sent then Step(s, Err(Locked))
    else if language in s.languages then Step(s.(language := language), Ok(()))
    else Step(s, Ok(()))
  }

  /** Whether a report can be fetched: sent, with a non-empty URL. */
  predicate Ready(s: Submission) {
    s.sent && s.url.Some? && s.url.value != ""
  }

  // ------------------------------------------------------------- sequences

  /** An operation on the object, with what its environment supplies: the
      client's acceptance of a file and the client's reply to a send. */
  datatype Op =
    | AddCurrent(path: string, name: string, accepted: bool)
    | AddOld(path: string, name: string, accepted: bool)
    | SendOp(reply: Option<string>)
    | SetLanguageOp(language: string)
    | DeactivateOp
    | ActivateOp

  function Apply(s: Submission, op: Op): Submission {
    match op
    case AddCurrent(path, name, accepted) => AddFile(s, path, name, accepted).state
    case AddOld(path, name, accepted) => AddOldStudent(s, path, name, accepted).state
    case SendOp(reply) => Send(s, reply).state
    case SetLanguageOp(language) => SetLanguage(s, language).state
    case DeactivateOp => Deactivate(s)
    case ActivateOp => Activate(s)
  }

  function Run(s: Submission, ops: seq<Op>): Submission
    decreases |ops|
  {
    if |ops| == 0 then s else Run(Apply(s, ops[0]), ops[1..])
  }

  /** Whether an operation is one the lock guards. */
  predicate Guarded(op: Op) {
    !op.DeactivateOp? && !op.ActivateOp?
  }

  /** Once sent, a guarded operation raises the lock's exception. */
  lemma LockedRaises(s: Submission, op: Op)
    requires s.sent && Guarded(op)
    ensures match op
      case AddCurrent(path, name, accepted) => AddFile(s, path, name, accepted) == Step(s, Err(Locked))
      case AddOld(path, name, accepted) => AddOldStudent(s, path, name, accepted) == Step(s, Err(Locked))
      case SendOp(reply) => Send(s, reply) == Step(s, Err(Locked))
      case SetLanguageOp(language) => SetLanguage(s, language) == Step(s, Err(Locked))
      case _ => false
  {
  }

  /** The lock is permanent: once sent, no sequence of operations changes
      the files, the current-quarter students, the language or the URL, and
      the object stays sent. */
  lemma {:induction false} SentIsFinal(s: Submission, ops: seq<Op>)
    requires s.sent
    ensures Run(s, ops).sent
    ensures Run(s, ops).(deactivated := s.deactivated) == s
    decreases |ops|
  {
    if |ops| > 0 {
      var t := Apply(s, ops[0]);
      assert t.sent && t.(deactivated := s.deactivated) == s;
      SentIsFinal(t, ops[1..]);
    }
  }

  /** While open, the current-quarter students only grow. */
  lemma {:induction false} CurrentOnlyGrows(s: Submission, ops: seq<Op>)
    ensures s.current <= Run(s, ops).current
    decreases |ops|
  {
    if |ops| > 0 {
      CurrentOnlyGrows(Apply(s, ops[0]), ops[1..]);
    }
  }

  /** Old-quarter files never make a student current: the current-quarter
      students after a run are the ones before it plus the names of the
      current-quarter files the run added. */
  lemma {:induction false} CurrentFromAddFile(s: Submission, ops: seq<Op>)
    ensures forall n :: n in Run(s, ops).current ==>
      n in s.current || exists k :: 0 <= k < |ops| && ops[k].AddCurrent? && StudentName(ops[k].path, ops[k].name) == Some(n)
    decreases |ops|
  {
    if |ops| > 0 {
      var t := Apply(s, ops[0]);
      CurrentFromAddFile(t, ops[1..]);
      forall n | n in Run(s, ops).current
        ensures n in s.current || exists k :: 0 <= k < |ops| && ops[k].AddCurrent? && StudentName(ops[k].path, ops[k].name) == Some(n)
      {
        if n !in t.current {
          var k :| 0 <= k < |ops[1..]| && ops[1..][k].AddCurrent? && StudentName(ops[1..][k].path, ops[1..][k].name) == Some(n);
          assert ops[k + 1] == ops[1..][k];
        } else if n !in s.current {
          assert ops[0].AddCurrent? && StudentName(ops[0].path, ops[0].name) == Some(n);
        }
      }
    }
  }
}
