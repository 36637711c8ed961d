/** The log-signing session (apps/tqsl.cpp): what the converter and the user may answer, and what the answers amount to.
    Dialogs and library calls are inputs; a log file is finite, so the answers of one pass are a finite sequence. */
module SessionSpec {
  import opened Bytes
  import opened Decimal
  import opened JsonValue

  datatype Action = Ask | Unspec | AbortAll | NewOnly | AllQsos

  datatype Exit = Success | Cancel | NoQsos | Suppressed | Busy | LibError | TqslError | OpenOutput | Other

  /** The first and the last date that the converter lets through, as days, where they are set. */
  datatype Range = Range(start: Option<int>, end: Option<int>)

  const OPEN := Range(None, None)

  /** `quiet`: batch mode. `showDupes`: duplicates are shown as errors. `dateDialog`: a date range is asked for.
      `limits`: the dates given on the command line. */
  datatype Config = Config(quiet: bool, action: Action, showDupes: bool, dateDialog: bool, limits: Range)

  /** tQSL_Error when tqsl_getConverterGABBI has returned. `signs`: the key could be initialised. */
  datatype Trouble = Clean | SignInit(signs: bool) | OutOfRange | Duplicate | Bad

  /** The error dialog is left with one of its two buttons, or closed. */
  datatype Choice = IgnoreErrors | GiveUp | Close

  /** One answer of tqsl_getConverterGABBI: a record, or nothing. `date`: that of a contact, if it is a valid date.
      `trouble`: the error of the library; with a record it is what an earlier answer left behind, and is looked at only
      if Cancel has been pressed. `running`: the user has not pressed Cancel in the progress window by now. `choice`: the
      answer to the error dialog, if it is shown. */
  datatype Reply =
    | Record(contact: bool, text: Text, date: Option<int>, trouble: Trouble, running: bool, choice: Choice)
    | Stop(trouble: Trouble, running: bool, choice: Choice)

  datatype DupesAnswer = DropThem | CancelAll | SendThem

  /** One pass over the log. `begins`: a converter could be opened; `dateOk`: the date dialog, if shown, was confirmed
      with `dates`. */
  datatype Pass = Pass(begins: bool, dateOk: bool, dates: Range, replies: seq<Reply>, answer: DupesAnswer)

  /** fcntl on the lock file: it cannot be opened, another process has it, it is taken, or the call failed otherwise
      (apps/tqsl.cpp:7327-7360). */
  datatype LockReply = NoFile | Held | Taken | Failed

  /** The steps of writing the output file, and whether each succeeds; an uncompressed file has no flush step. */
  datatype Writing = Writing(opens: bool, compressed: bool, writes: bool, flushes: bool, closes: bool)
  {
    predicate Works() {
      writes && (compressed ==> flushes) && closes
    }
  }

  /** Returned(e) | Threw; Unfinished only says that no more passes were supplied. */
  datatype Outcome = Returned(exit: Exit) | Threw | Unfinished

  // ----- what a pass amounts to

  datatype Tally = Tally(numrecs: nat, duplicates: nat, outOfRange: nat, errors: nat, output: Text)
  {
    function Processed(): nat {
      numrecs + duplicates + outOfRange + errors
    }
  }

  const NOTHING := Tally(0, 0, 0, 0, [])

  /** Cancel has been pressed by the time of an answer, if it had (`before`) or had not been pressed before. In batch
      mode there is nothing to press. */
  function Halts(cfg: Config, before: bool, r: Reply): bool {
    before || (!cfg.quiet && !r.running)
  }

  function Pressed(cfg: Config, rs: seq<Reply>): bool {
    rs != [] && Halts(cfg, Pressed(cfg, rs[..|rs| - 1]), rs[|rs| - 1])
  }

  /** A record is signed unless Cancel has been pressed by then. */
  predicate Accepted(r: Reply, halted: bool) {
    r.Record? && !halted
  }

  function Contacts(cfg: Config, rs: seq<Reply>): nat {
    if rs == [] then 0
    else
      var r := rs[|rs| - 1];
      Contacts(cfg, rs[..|rs| - 1]) + if Accepted(r, Pressed(cfg, rs)) && r.contact then 1 else 0
  }

  function Troubles(cfg: Config, rs: seq<Reply>, t: Trouble): nat {
    if rs == [] then 0
    else
      var r := rs[|rs| - 1];
      Troubles(cfg, rs[..|rs| - 1], t) + if !Accepted(r, Pressed(cfg, rs)) && r.trouble == t then 1 else 0
  }

  /** The text of all records that are signed, each on a line. */
  function Lines(cfg: Config, rs: seq<Reply>): Text {
    if rs == [] then []
    else
      var r := rs[|rs| - 1];
      Lines(cfg, rs[..|rs| - 1]) + if Accepted(r, Pressed(cfg, rs)) then r.text + [LF] else []
  }

  function TallyOf(cfg: Config, rs: seq<Reply>): Tally {
    Tally(Contacts(cfg, rs), Troubles(cfg, rs, Duplicate), Troubles(cfg, rs, OutOfRange), Troubles(cfg, rs, Bad),
      Lines(cfg, rs))
  }

  function Plus(t: Tally, r: Reply, halted: bool): Tally {
    if Accepted(r, halted) then
      t.(numrecs := t.numrecs + if r.contact then 1 else 0, output := t.output + r.text + [LF])
    else
      match r.trouble
      case Duplicate => t.(duplicates := t.duplicates + 1)
      case OutOfRange => t.(outOfRange := t.outOfRange + 1)
      case Bad => t.(errors := t.errors + 1)
      case _ => t
  }

  lemma Next(cfg: Config, rs: seq<Reply>, n: nat)
    requires n < |rs|
    ensures Pressed(cfg, rs[..n + 1]) == Halts(cfg, Pressed(cfg, rs[..n]), rs[n])
    ensures TallyOf(cfg, rs[..n + 1]) == Plus(TallyOf(cfg, rs[..n]), rs[n], Pressed(cfg, rs[..n + 1]))
  {
    assert rs[..n + 1][..n] == rs[..n];
  }

  /** A trouble that is reported as an error. */
  predicate Shown(cfg: Config, r: Reply, halted: bool) {
    !Accepted(r, halted) && (r.trouble.Bad? || (r.trouble.Duplicate? && cfg.showDupes))
  }

  /** Errors are ignored because the user or the batch mode says so. */
  predicate SaysIgnore(cfg: Config, r: Reply) {
    r.choice == IgnoreErrors || (cfg.quiet && cfg.action in {NewOnly, AllQsos})
  }

  /** Errors are ignored from now on. */
  function Ignoring(cfg: Config, before: bool, rs: seq<Reply>): bool {
    if rs == [] then before
    else
      var r := rs[|rs| - 1];
      Ignoring(cfg, before, rs[..|rs| - 1]) || (Shown(cfg, r, Pressed(cfg, rs)) && SaysIgnore(cfg, r))
  }

  datatype Fate = GoOn | Finish | CancelIt | AbortIt | Fail

  predicate TooMany(t: Tally, allowDupes: bool) {
    t.Processed() > 50000 && t.duplicates > 40000 && allowDupes
  }

  /** The loop over the answers is left, which counts as given up if Cancel has been pressed. */
  function Left(halted: bool): Fate {
    if halted then CancelIt else Finish
  }

  /** What an answer does to the pass, given what came before it. `before`: Cancel had been pressed already. The window
      is looked at again after the test for too many duplicates, unless there is a record. */
  function FateOf(cfg: Config, allowDupes: bool, ignoring: bool, t: Tally, before: bool, r: Reply): Fate {
    var halted := Halts(cfg, before, r);
    if Accepted(r, halted) then GoOn
    else if TooMany(t, allowDupes) then if r.Record? || before then CancelIt else AbortIt
    else if r.Stop? && halted then CancelIt
    else if r.trouble.Clean? then Left(halted)
    else if r.trouble.SignInit? then if r.trouble.signs then GoOn else Fail
    else if !Shown(cfg, r, halted) then GoOn
    else if cfg.quiet && cfg.action == AbortAll then AbortIt
    else if ignoring || SaysIgnore(cfg, r) then GoOn
    else if r.choice == GiveUp then CancelIt
    else Left(halted)
  }

  /** The n-th answer in its place; after the last one the log has ended. */
  function ReplyAt(rs: seq<Reply>, n: nat): Reply {
    if n < |rs| then rs[n] else Stop(Clean, true, Close)
  }

  function FateAt(cfg: Config, allowDupes: bool, before: bool, rs: seq<Reply>, n: nat): Fate
    requires n <= |rs|
  {
    FateOf(cfg, allowDupes, Ignoring(cfg, before, rs[..n]), TallyOf(cfg, rs[..n]), Pressed(cfg, rs[..n]), ReplyAt(rs, n))
  }

  /** The first n answers let the pass go on, and the next one ends it. */
  predicate EndsAt(cfg: Config, allowDupes: bool, before: bool, rs: seq<Reply>, n: nat) {
    && n <= |rs|
    && (forall i :: 0 <= i < n ==> FateAt(cfg, allowDupes, before, rs, i) == GoOn)
    && FateAt(cfg, allowDupes, before, rs, n) != GoOn
  }

  /** The pass has gone on over the first n answers, with these counts. */
  predicate Along(cfg: Config, allowDupes: bool, before: bool, rs: seq<Reply>, n: nat, t: Tally, ignoring: bool,
      halted: bool)
  {
    && n <= |rs|
    && (forall i :: 0 <= i < n ==> FateAt(cfg, allowDupes, before, rs, i) == GoOn)
    && t == TallyOf(cfg, rs[..n]) && ignoring == Ignoring(cfg, before, rs[..n]) && halted == Pressed(cfg, rs[..n])
  }

  lemma AtStart(cfg: Config, allowDupes: bool, before: bool, rs: seq<Reply>)
    ensures Along(cfg, allowDupes, before, rs, 0, NOTHING, before, false)
  {
    assert rs[..0] == [];
  }

  lemma GoesOn(cfg: Config, allowDupes: bool, before: bool, rs: seq<Reply>, n: nat, t: Tally, ignoring: bool,
      halted: bool)
    requires Along(cfg, allowDupes, before, rs, n, t, ignoring, halted) && n < |rs|
    requires FateOf(cfg, allowDupes, ignoring, t, halted, rs[n]) == GoOn
    ensures var now := Halts(cfg, halted, rs[n]);
      Along(cfg, allowDupes, before, rs, n + 1, Plus(t, rs[n], now),
        ignoring || (Shown(cfg, rs[n], now) && SaysIgnore(cfg, rs[n])), now)
  {
    Next(cfg, rs, n);
    assert rs[..n + 1][..n] == rs[..n];
    hide FateOf, TallyOf, Shown, SaysIgnore, Plus, Halts;
    assert FateAt(cfg, allowDupes, before, rs, n) == GoOn;
  }

  lemma EndsHere(cfg: Config, allowDupes: bool, before: bool, rs: seq<Reply>, n: nat, t: Tally, ignoring: bool,
      halted: bool, e: PassEnd)
    requires Along(cfg, allowDupes, before, rs, n, t, ignoring, halted)
    requires e.n == n && e.fate == FateOf(cfg, allowDupes, ignoring, t, halted, ReplyAt(rs, n)) && e.fate != GoOn
    requires e.tally == if n < |rs| && Reported(cfg, allowDupes, t, halted, rs[n])
      then Plus(t, rs[n], Halts(cfg, halted, rs[n])) else t
    requires e.fate == Finish ==> e.ignoring == ignoring
    ensures PassFits(cfg, allowDupes, before, rs, e)
  {
    hide FateOf, Shown, Ignoring, Plus, Reported, Halts;
    if n < |rs| {
      Next(cfg, rs, n);
    }
    hide TallyOf, Pressed;
  }

  /** The error of an answer is counted and reported. */
  predicate Reported(cfg: Config, allowDupes: bool, t: Tally, before: bool, r: Reply) {
    var halted := Halts(cfg, before, r);
    Shown(cfg, r, halted) && !TooMany(t, allowDupes) && (r.Stop? ==> !halted)
  }

  /** The answer that ends the pass is counted if it was reported as an error. */
  predicate LastCounts(cfg: Config, allowDupes: bool, rs: seq<Reply>, n: nat)
    requires n <= |rs|
  {
    n < |rs| && Reported(cfg, allowDupes, TallyOf(cfg, rs[..n]), Pressed(cfg, rs[..n]), rs[n])
  }

  /** How a pass ended: after n answers, with these counts, and whether errors are ignored from now on. */
  datatype PassEnd = PassEnd(n: nat, tally: Tally, fate: Fate, ignoring: bool)
  {
    predicate Stopped() {
      fate == CancelIt || fate == AbortIt
    }
  }

  predicate PassFits(cfg: Config, allowDupes: bool, before: bool, rs: seq<Reply>, e: PassEnd) {
    && EndsAt(cfg, allowDupes, before, rs, e.n) && e.fate == FateAt(cfg, allowDupes, before, rs, e.n)
    && e.tally == TallyOf(cfg, rs[..if LastCounts(cfg, allowDupes, rs, e.n) then e.n + 1 else e.n])
    && (e.fate == Finish ==> e.ignoring == Ignoring(cfg, before, rs[..e.n]))
  }

  lemma NotGoOn(cfg: Config, allowDupes: bool, before: bool, rs: seq<Reply>, e: PassEnd)
    requires PassFits(cfg, allowDupes, before, rs, e)
    ensures e.fate != GoOn
  {
  }

  // ----- what follows from the counts of a pass

  predicate Asks(cfg: Config) {
    cfg.action == Ask || cfg.action == Unspec
  }

  /** Duplicates were found, and they are to be sent after all: the pass is run again. */
  predicate Again(cfg: Config, p: Pass, e: PassEnd) {
    e.tally.duplicates > 0 && e.fate == Finish && (cfg.action == AllQsos || (Asks(cfg) && p.answer == SendThem))
  }

  /** The user gives up: during the pass, or when told of the duplicates. */
  predicate GivenUp(cfg: Config, p: Pass, e: PassEnd) {
    || e.fate == CancelIt
    || (e.tally.duplicates > 0 && (e.fate == AbortIt || (Asks(cfg) && p.answer == CancelAll)))
  }

  /** Duplicates make a batch run give up. */
  predicate Refused(cfg: Config, p: Pass, e: PassEnd) {
    e.tally.duplicates > 0 && e.fate == Finish && cfg.action == AbortAll
  }

  function RecordsLeft(cfg: Config, p: Pass, e: PassEnd): nat {
    if e.Stopped() || Refused(cfg, p, e) then 0 else e.tally.numrecs
  }

  /** What ConvertLogToString leaves after its last pass: the exit status, the records it reports, and a converter that
      is either open or ended. */
  predicate Resolved(cfg: Config, p: Pass, e: PassEnd, exit: Exit, numrecs: nat, conv: Conv) {
    && numrecs == RecordsLeft(cfg, p, e)
    && (exit == Cancel <==> GivenUp(cfg, p, e))
    && (exit == Success <==> !GivenUp(cfg, p, e) && 0 < numrecs == e.tally.Processed())
    && (exit == Suppressed <==> !GivenUp(cfg, p, e) && 0 < numrecs < e.tally.Processed())
    && (exit == NoQsos <==> !GivenUp(cfg, p, e) && numrecs == 0)
    && conv == if GivenUp(cfg, p, e) || Refused(cfg, p, e) || e.tally.Processed() == 0 then NoConv else Live
  }

  /** Whether errors are ignored when pass j starts: a restart keeps the decision. */
  predicate Carried(ends: seq<PassEnd>, j: nat)
    requires j <= |ends|
  {
    j > 0 && ends[j - 1].ignoring
  }

  /** Pass j ran as its answers say. */
  predicate Ran(cfg: Config, passes: seq<Pass>, ends: seq<PassEnd>, j: nat)
    requires j < |ends| <= |passes|
  {
    PassFits(cfg, j > 0, Carried(ends, j), passes[j].replies, ends[j])
  }

  /** Each pass ran as its answers say, from the state the one before left; all but the last were to be repeated. */
  predicate Chain(cfg: Config, passes: seq<Pass>, ends: seq<PassEnd>) {
    && |ends| <= |passes|
    && (forall j :: 0 <= j < |ends| ==> Ran(cfg, passes, ends, j))
    && (forall j :: 0 <= j < |ends| - 1 ==> Again(cfg, passes[j], ends[j]))
  }

  lemma LongerChain(cfg: Config, passes: seq<Pass>, ends: seq<PassEnd>, e: PassEnd)
    requires Chain(cfg, passes, ends) && |ends| < |passes|
    requires forall j :: 0 <= j < |ends| ==> Again(cfg, passes[j], ends[j])
    requires PassFits(cfg, |ends| > 0, Carried(ends, |ends|), passes[|ends|].replies, e)
    ensures Chain(cfg, passes, ends + [e])
  {
    hide PassFits, Again;
    var all := ends + [e];
    forall j | 0 <= j < |all| ensures Ran(cfg, passes, all, j) {
      if j < |ends| {
        assert Ran(cfg, passes, ends, j);
      }
    }
    forall j | 0 <= j < |all| - 1 ensures Again(cfg, passes[j], all[j]) {
      assert all[j] == ends[j];
    }
  }

  /** The passes that are repeated, action by action. With NewOnly and AbortAll there is never a second pass; with AllQsos
      a pass is repeated exactly if it was finished and found duplicates; if the user is asked, exactly if, besides, the
      answer was to send them. */
  predicate RestartsExactly(cfg: Config, passes: seq<Pass>, ends: seq<PassEnd>, restarts: nat) {
    && |ends| <= |passes| && restarts <= |ends| <= restarts + 1
    && match cfg.action
       case NewOnly => restarts == 0
       case AbortAll => restarts == 0
       case AllQsos => forall j :: 0 <= j < |ends| ==> (j < restarts <==> FoundDupes(ends[j]))
       case _ => forall j :: 0 <= j < |ends| ==> (j < restarts <==> FoundDupes(ends[j]) && passes[j].answer == SendThem)
  }

  predicate FoundDupes(e: PassEnd) {
    e.fate == Finish && e.tally.duplicates > 0
  }

  lemma NoRestart(cfg: Config, passes: seq<Pass>)
    ensures RestartsExactly(cfg, passes, [], 0)
  {
  }

  lemma OneMorePass(cfg: Config, passes: seq<Pass>, ends: seq<PassEnd>, e: PassEnd, again: bool)
    requires |ends| < |passes| && RestartsExactly(cfg, passes, ends, |ends|) && again == Again(cfg, passes[|ends|], e)
    ensures RestartsExactly(cfg, passes, ends + [e], if again then |ends| + 1 else |ends|)
  {
  }

  lemma FailedOnce(cfg: Config, p: Pass, e: PassEnd)
    requires e.fate == Fail
    ensures !Again(cfg, p, e)
  {
  }

  /** With NewOnly or AbortAll the one pass there is was made with duplicates refused, and the output is its text. */
  lemma OnlyNewRecords(cfg: Config, passes: seq<Pass>, ends: seq<PassEnd>, restarts: nat)
    requires Chain(cfg, passes, ends) && RestartsExactly(cfg, passes, ends, restarts)
    requires cfg.action == NewOnly || cfg.action == AbortAll
    ensures |ends| <= 1 && (ends != [] ==> PassFits(cfg, false, false, passes[0].replies, ends[0]))
  {
    if ends != [] { assert Ran(cfg, passes, ends, 0); }
  }

  /** A converter that may send duplicates reports none (src/tqslconvert.cpp:1947-2048). */
  predicate NoLaterDupes(passes: seq<Pass>) {
    forall j, i :: 1 <= j < |passes| && 0 <= i < |passes[j].replies| ==>
      !passes[j].replies[i].trouble.Duplicate?
  }

  lemma {:induction false} NoneCounted(cfg: Config, rs: seq<Reply>, n: nat)
    requires n <= |rs| && forall i :: 0 <= i < |rs| ==> !rs[i].trouble.Duplicate?
    ensures Troubles(cfg, rs[..n], Duplicate) == 0
  {
    if n > 0 {
      NoneCounted(cfg, rs, n - 1);
      assert rs[..n][..n - 1] == rs[..n - 1];
    }
  }

  /** There is at most one restart: a second pass never asks for a third. */
  lemma AtMostOneRestart(cfg: Config, passes: seq<Pass>, ends: seq<PassEnd>)
    requires Chain(cfg, passes, ends) && NoLaterDupes(passes)
    ensures |ends| <= 2
    ensures |ends| == 2 ==> !Again(cfg, passes[1], ends[1])
  {
    if |ends| >= 2 {
      var rs, e := passes[1].replies, ends[1];
      assert Ran(cfg, passes, ends, 1);
      NoneCounted(cfg, rs, if LastCounts(cfg, true, rs, e.n) then e.n + 1 else e.n);
      assert !Again(cfg, passes[1], e);
    }
  }

  /** Success: every record of the log was signed, and nothing else was in it. */
  lemma SuccessMeansAll(cfg: Config, p: Pass, e: PassEnd, numrecs: nat, conv: Conv)
    requires Resolved(cfg, p, e, Success, numrecs, conv)
    ensures numrecs == e.tally.numrecs == e.tally.Processed() > 0 && e.fate != CancelIt && e.fate != AbortIt && conv == Live
    ensures e.tally.duplicates == 0 && e.tally.outOfRange == 0 && e.tally.errors == 0
  {
  }

  /** With records left to write, the converter is open for the caller to commit. */
  lemma RecordsMeanOpen(cfg: Config, p: Pass, e: PassEnd, exit: Exit, numrecs: nat, conv: Conv)
    requires Resolved(cfg, p, e, exit, numrecs, conv) && numrecs > 0
    ensures exit == Success || exit == Suppressed || exit == Cancel
    ensures conv == if exit == Cancel then NoConv else Live
  {
  }

  /** A converter is left open with nothing to write exactly when answers were counted, nobody gave up, and either all
      of them were troubles or errors aborted a pass without duplicates. */
  lemma LeftOpenExactly(cfg: Config, p: Pass, e: PassEnd, exit: Exit, numrecs: nat, conv: Conv)
    requires Resolved(cfg, p, e, exit, numrecs, conv)
    ensures numrecs == 0 && conv == Live <==>
      && e.tally.Processed() > 0 && !GivenUp(cfg, p, e) && !Refused(cfg, p, e)
      && (e.tally.numrecs == 0 || e.fate == AbortIt)
  {
  }

  // ----- the dates chosen

  /** A converter with a date filter lets no record with another date through (src/tqslconvert.cpp:1588-1602). */
  predicate Honours(r: Range, rs: seq<Reply>) {
    forall i :: 0 <= i < |rs| && rs[i].Record? && rs[i].date.Some? ==>
      (r.start.Some? ==> r.start.value <= rs[i].date.value) && (r.end.Some? ==> rs[i].date.value <= r.end.value)
  }

  /** The filter of pass j: the command line prevails; the dialog is shown in the first pass only, and each pass has
      a converter of its own. */
  function FilterIn(cfg: Config, passes: seq<Pass>, j: nat): Range
    requires j < |passes|
  {
    if cfg.limits != OPEN then cfg.limits
    else if j == 0 && cfg.dateDialog then passes[0].dates
    else OPEN
  }

  lemma DateOutside(r: Range) returns (rs: seq<Reply>)
    requires r != OPEN
    ensures Honours(OPEN, rs) && !Honours(r, rs)
  {
    var d := if r.start.Some? then r.start.value - 1 else r.end.value + 1;
    rs := [Record(true, [], Some(d), Clean, true, Close)];
    assert rs[0].Record?;
  }

  /** What pass j delivers lies in the dates chosen for the session exactly if j is the first pass, or the dates come
      from the command line, or none were chosen: a restart forgets the dates of the dialog. */
  lemma DatesKeptExactly(cfg: Config, passes: seq<Pass>, j: nat)
    requires j < |passes|
    ensures (forall rs :: Honours(FilterIn(cfg, passes, j), rs) ==> Honours(FilterIn(cfg, passes, 0), rs)) <==>
      j == 0 || cfg.limits != OPEN || !cfg.dateDialog || passes[0].dates == OPEN
  {
    if j > 0 && cfg.limits == OPEN && cfg.dateDialog && passes[0].dates != OPEN {
      var rs := DateOutside(passes[0].dates);
      assert Honours(FilterIn(cfg, passes, j), rs) && !Honours(FilterIn(cfg, passes, 0), rs);
    }
  }

  // ----- the converter and its duplicate database

  datatype Call = Begun | Asked | RolledBack | Committed | Ended | Written | Closed | Uploaded

  /** A call of the library, or a step of the output that succeeded (all of it written, the file closed, the upload
      accepted), and whether this process held the lock on the database. */
  datatype Event = Event(call: Call, held: bool)

  datatype Conv = NoConv | Live | Undone | Stored

  function After(c: Conv, e: Call): Conv {
    match e
    case Begun => Live
    case RolledBack => if c == Live then Undone else c
    case Committed => if c == Live then Stored else c
    case Ended => NoConv
    case _ => c
  }

  /** The state of the converter after the calls of a trace. */
  function ConvAt(trace: seq<Event>): Conv {
    if trace == [] then NoConv else After(ConvAt(trace[..|trace| - 1]), trace[|trace| - 1].call)
  }

  function Calls(trace: seq<Event>, c: Call): nat {
    if trace == [] then 0 else Calls(trace[..|trace| - 1], c) + if trace[|trace| - 1].call == c then 1 else 0
  }

  /** A commit is safe on an open converter, right after the output was closed or the upload accepted. */
  predicate SafeCommit(trace: seq<Event>, i: nat)
    requires i < |trace|
  {
    trace[i].call == Committed ==>
      ConvAt(trace[..i]) == Live && i > 0 && (trace[i - 1].call == Closed || trace[i - 1].call == Uploaded)
  }

  lemma OneMoreCall(trace: seq<Event>, e: Event)
    ensures ConvAt(trace + [e]) == After(ConvAt(trace), e.call)
    ensures forall c :: Calls(trace + [e], c) == Calls(trace, c) + if e.call == c then 1 else 0
  {
    assert (trace + [e])[..|trace|] == trace;
  }

  // ----- what a caller does with the result

  /** Nothing to write, or the user gave up: the caller returns at once. */
  predicate NothingToDo(numrecs: nat, exit: Exit) {
    numrecs == 0 || exit == Cancel
  }

  /** The status a caller returns then: being locked out, or failing early, shows as "no records". */
  function EarlyStatus(numrecs: nat, exit: Exit): Exit {
    if numrecs > 0 || exit == Cancel || exit == Suppressed then exit else NoQsos
  }

  function Unlocked(calls: seq<Call>): (es: seq<Event>)
    ensures |es| == |calls| && forall i :: 0 <= i < |calls| ==> es[i] == Event(calls[i], false)
  {
    seq(|calls|, i requires 0 <= i < |calls| => Event(calls[i], false))
  }

  /** The calls of ConvertLogFile once there are records to write. */
  function FileCalls(w: Writing): seq<Call> {
    (if w.writes && (w.compressed ==> w.flushes) then [Written] else [])
    + (if w.Works() then [Closed, Committed, Ended] else [RolledBack, Ended])
  }

  function UploadCalls(sent: Exit): seq<Call> {
    if sent == Success then [Uploaded, Committed, Ended] else [RolledBack, Ended]
  }

  predicate Safe(trace: seq<Event>) {
    forall i :: 0 <= i < |trace| ==> SafeCommit(trace, i)
  }

  lemma SafeStep(trace: seq<Event>, e: Event)
    requires Safe(trace)
    requires e.call == Committed ==>
      ConvAt(trace) == Live && trace != [] && trace[|trace| - 1].call in {Closed, Uploaded}
    ensures Safe(trace + [e])
  {
    var next := trace + [e];
    forall i | 0 <= i < |next| ensures SafeCommit(next, i) {
      if i < |trace| {
        assert SafeCommit(trace, i);
        assert next[..i] == trace[..i];
      } else {
        assert next[..i] == trace;
      }
    }
  }

  function Then(trace: seq<Event>, c: Call): seq<Event> {
    trace + [Event(c, false)]
  }

  lemma CallThen(trace: seq<Event>, c: Call)
    requires Safe(trace)
    requires c == Committed ==> ConvAt(trace) == Live && trace != [] && trace[|trace| - 1].call in {Closed, Uploaded}
    ensures Safe(Then(trace, c)) && Then(trace, c) != [] && Then(trace, c)[|trace|] == Event(c, false)
    ensures ConvAt(Then(trace, c)) == After(ConvAt(trace), c) && |Then(trace, c)| == |trace| + 1
    ensures Calls(Then(trace, c), Ended) == Calls(trace, Ended) + if c == Ended then 1 else 0
    ensures Calls(Then(trace, c), Committed) == Calls(trace, Committed) + if c == Committed then 1 else 0
  {
    OneMoreCall(trace, Event(c, false));
    SafeStep(trace, Event(c, false));
  }

  /** From an open converter on, what a caller does is safe: it commits at most once, and ends the converter once. */
  ghost predicate Settled(mid: seq<Event>, trace: seq<Event>, commits: nat) {
    && Safe(trace) && ConvAt(trace) == NoConv && Calls(trace, Ended) == Calls(mid, Ended) + 1
    && Calls(trace, Committed) == Calls(mid, Committed) + commits
  }

  lemma Withdrawn(mid: seq<Event>)
    requires Safe(mid)
    ensures Settled(mid, Then(Then(mid, RolledBack), Ended), 0)
  {
    hide Safe, Calls, ConvAt, Then;
    CallThen(mid, RolledBack);
    CallThen(Then(mid, RolledBack), Ended);
  }

  lemma Kept(mid: seq<Event>, last: Call)
    requires Safe(mid) && ConvAt(mid) == Live && (last == Closed || last == Uploaded)
    ensures Settled(mid, Then(Then(Then(mid, last), Committed), Ended), 1)
  {
    hide Safe, Calls, ConvAt, Then;
    CallThen(mid, last);
    CallThen(Then(mid, last), Committed);
    CallThen(Then(Then(mid, last), Committed), Ended);
  }

  lemma FileIsSettled(mid: seq<Event>, w: Writing)
    requires ConvAt(mid) == Live && Safe(mid)
    ensures Settled(mid, mid + Unlocked(FileCalls(w)), if w.Works() then 1 else 0)
  {
    hide Safe, Calls, ConvAt;
    if w.writes && (w.compressed ==> w.flushes) {
      CallThen(mid, Written);
      if w.closes {
        Kept(Then(mid, Written), Closed);
        assert mid + Unlocked(FileCalls(w)) == Then(Then(Then(Then(mid, Written), Closed), Committed), Ended);
      } else {
        Withdrawn(Then(mid, Written));
        assert mid + Unlocked(FileCalls(w)) == Then(Then(Then(mid, Written), RolledBack), Ended);
      }
    } else {
      Withdrawn(mid);
      assert mid + Unlocked(FileCalls(w)) == Then(Then(mid, RolledBack), Ended);
    }
  }

  lemma UploadIsSettled(mid: seq<Event>, sent: Exit)
    requires ConvAt(mid) == Live && Safe(mid)
    ensures Settled(mid, mid + Unlocked(UploadCalls(sent)), if sent == Success then 1 else 0)
  {
    hide Safe, Calls, ConvAt;
    if sent == Success {
      Kept(mid, Uploaded);
      assert mid + Unlocked(UploadCalls(sent)) == Then(Then(Then(mid, Uploaded), Committed), Ended);
    } else {
      Withdrawn(mid);
      assert mid + Unlocked(UploadCalls(sent)) == Then(Then(mid, RolledBack), Ended);
    }
  }
}
