/** The log-signing session as the source has it: ConvertLogToString with its restart, and its two callers. */
module Session {
  import opened Bytes
  import opened Decimal
  import opened JsonValue
  import opened SessionSpec

  /** The trace is what it was, with calls of the given kinds added, all made with the lock held or all without. */
  ghost predicate Extends(before: seq<Event>, after: seq<Event>, held: bool, calls: set<Call>) {
    && before <= after
    && forall i :: |before| <= i < |after| ==> after[i].held == held && after[i].call in calls
  }

  lemma {:induction false} OnlyAsked(before: seq<Event>, after: seq<Event>, held: bool, calls: set<Call>)
    requires Extends(before, after, held, calls)
    ensures calls <= {Asked} ==> ConvAt(after) == ConvAt(before)
    ensures forall c :: c !in calls ==> Calls(after, c) == Calls(before, c)
    decreases |after|
  {
    if |after| > |before| {
      OnlyAsked(before, after[..|after| - 1], held, calls);
    } else {
      assert after == before;
    }
  }

  lemma NoCalls(trace: seq<Event>, held: bool, calls: set<Call>)
    ensures Extends(trace, trace, held, calls)
  {
  }

  /** How a pass begins: the converter cannot be opened, the date dialog is cancelled, or it goes on. */
  datatype Beginning = NotBegun | DateCancelled | Begins

  predicate Took(cfg: Config, lock: LockReply, waited: bool) {
    lock == Taken || (lock == Held && !cfg.quiet && waited)
  }

  class Signer {
    var conv: Conv
    var held: bool
    ghost var trace: seq<Event>
    /** The dates that the converter lets through. */
    var filter: Range
    /** The content of the output file, if there is one. */
    var file: Option<Text>

    ghost predicate Valid()
      reads this
    {
      conv == ConvAt(trace)
    }

    constructor ()
      ensures Valid() && conv == NoConv && !held && trace == []
    {
      conv, held, trace, filter, file := NoConv, false, [], OPEN, None;
    }

    method CallLibrary(c: Call)
      requires Valid()
      modifies `conv, `held, `trace
      ensures Valid() && held == old(held) && conv == After(old(conv), c) && trace == old(trace) + [Event(c, held)]
    {
      OneMoreCall(trace, Event(c, held));
      conv := After(conv, c);
      trace := trace + [Event(c, held)];
    }

    /** tqsl_converterRollBack, tqsl_endConverter. */
    method Discard()
      requires Valid()
      modifies `conv, `held, `trace
      ensures Valid() && held == old(held) && conv == NoConv
      ensures trace == old(trace) + [Event(RolledBack, held), Event(Ended, held)]
    {
      CallLibrary(RolledBack);
      CallLibrary(Ended);
    }

    /** lock_db(false), and lock_db(true) if the database is busy: -1 (here false) is returned only if it is busy and
        the program must not wait. What the waiting call returns is not looked at. */
    method Lock(cfg: Config, lock: LockReply, waited: bool) returns (go: bool)
      requires Valid() && !held
      modifies this`held
      ensures go == !(lock == Held && cfg.quiet) && held == Took(cfg, lock, waited)
    {
      match lock
      case NoFile => go := true;
      case Taken => held, go := true, true;
      case Failed => go := true;
      case Held =>
        go := !cfg.quiet;
        if go {
          held := waited;
        }
    }

    /** tqsl_getConverterGABBI. */
    method AskConverter(ghost before: seq<Event>)
      requires Valid() && Extends(before, trace, held, {Asked})
      modifies `conv, `held, `trace
      ensures Valid() && held == old(held) && conv == old(conv) && Extends(before, trace, held, {Asked})
    {
      CallLibrary(Asked);
    }

    /** The loop over the answers of the converter. */
    method SignPass(cfg: Config, allowDupes: bool, before: bool, rs: seq<Reply>) returns (e: PassEnd)
      requires Valid()
      modifies `conv, `held, `trace
      ensures Valid() && held == old(held) && Extends(old(trace), trace, held, {Asked}) && conv == old(conv)
      ensures PassFits(cfg, allowDupes, before, rs, e)
    {
      hide Along, PassFits, ConvAt, Extends, FateOf, Plus, Reported, Shown, SaysIgnore, ReplyAt;
      ghost var t0 := trace;
      NoCalls(trace, held, {Asked});
      var numrecs, processed, duplicates, outOfRange, errors := 0, 0, 0, 0, 0;
      var output: Text := [];
      var ignoring, running, n := before, true, 0;
      AtStart(cfg, allowDupes, before, rs);
      while true
        invariant n <= |rs| && Valid() && held == old(held) && conv == old(conv) && Extends(t0, trace, held, {Asked})
        invariant processed == numrecs + duplicates + outOfRange + errors
        invariant Along(cfg, allowDupes, before, rs, n, Tally(numrecs, duplicates, outOfRange, errors, output), ignoring,
          !running)
        decreases |rs| - n
      {
        var halted, got := !running, false;
        while n < |rs| && rs[n].Record? && !got
          invariant n <= |rs| && Valid() && held == old(held) && conv == old(conv) && Extends(t0, trace, held, {Asked})
          invariant processed == numrecs + duplicates + outOfRange + errors
          invariant Along(cfg, allowDupes, before, rs, n, Tally(numrecs, duplicates, outOfRange, errors, output), ignoring,
            halted)
          invariant got ==> n < |rs| && rs[n].Record? && Halts(cfg, halted, rs[n])
          invariant !got ==> running == !halted
          decreases |rs| - n, !got
        {
          AskConverter(t0);
          running := running && (cfg.quiet || rs[n].running);
          got := !running;
          if !got {
            RecordGoesOn(cfg, allowDupes, before, rs, n, Tally(numrecs, duplicates, outOfRange, errors, output), ignoring);
            if rs[n].contact {
              numrecs, processed := numrecs + 1, processed + 1;
            }
            output := output + rs[n].text + [LF];
            n := n + 1;
          }
        }
        if !got {
          AskConverter(t0);
        }
        var t := Tally(numrecs, duplicates, outOfRange, errors, output);
        NoRecordLeft(rs, n);
        var fate, asked := GoOn, ignoring;
        fate, running, processed, duplicates, outOfRange, errors, ignoring :=
          Weigh(cfg, allowDupes, ReplyAt(rs, n), halted, processed, t, ignoring);
        if fate != GoOn {
          e := PassEnd(n, Tally(numrecs, duplicates, outOfRange, errors, output), fate, ignoring);
          PastTheEnd(cfg, allowDupes, rs, n, t, halted);
          EndsHere(cfg, allowDupes, before, rs, n, t, asked, halted, e);
          break;
        }
        MustBeAnswer(cfg, allowDupes, asked, t, halted, rs, n);
        GoesOn(cfg, allowDupes, before, rs, n, t, asked, halted);
        n := n + 1;
      }
    }

    /** What is made of an answer that is no record to be signed; `halted`: Cancel had been pressed before. */
    method Weigh(cfg: Config, allowDupes: bool, r: Reply, halted: bool, sofar: nat, t: Tally, before: bool)
      returns (fate: Fate, running: bool, processed: nat, duplicates: nat, outOfRange: nat, errors: nat, ignoring: bool)
      requires !Accepted(r, Halts(cfg, halted, r)) && sofar == t.Processed()
      ensures fate == FateOf(cfg, allowDupes, before, t, halted, r)
      ensures var now := Halts(cfg, halted, r);
        && t.(duplicates := duplicates, outOfRange := outOfRange, errors := errors)
          == (if fate == GoOn || Reported(cfg, allowDupes, t, halted, r) then Plus(t, r, now) else t)
        && (fate == GoOn ==> running == !now && ignoring == (before || (Shown(cfg, r, now) && SaysIgnore(cfg, r))))
        && (fate == Finish ==> ignoring == before)
        && processed == t.numrecs + duplicates + outOfRange + errors
    {
      running, ignoring := !halted, before;
      processed, duplicates, outOfRange, errors := sofar, t.duplicates, t.outOfRange, t.errors;
      if r.Record? {
        running := running && (cfg.quiet || r.running);
      }
      if processed > 50000 && duplicates > 40000 && allowDupes {
        return if running then AbortIt else CancelIt, running, processed, duplicates, outOfRange, errors, ignoring;
      }
      if r.Stop? {
        running := running && (cfg.quiet || r.running);
        if !running {
          return CancelIt, running, processed, duplicates, outOfRange, errors, ignoring;
        }
      }
      match r.trouble {
        case Clean => fate := Left(!running);
        case SignInit(signs) => fate := if signs then GoOn else Fail;
        case OutOfRange => fate, processed, outOfRange := GoOn, processed + 1, outOfRange + 1;
        case _ =>
          fate := GoOn;
          var dupe := r.trouble == Duplicate;
          processed, duplicates, errors :=
            processed + 1, duplicates + (if dupe then 1 else 0), errors + (if dupe then 0 else 1);
          if !dupe || cfg.showDupes {
            var aborted, cancelled, closed;
            aborted, cancelled, closed, ignoring := Complain(cfg, ignoring, r.choice);
            fate := if aborted then AbortIt else if cancelled then CancelIt else if closed then Left(!running) else GoOn;
          }
      }
    }

    /** An error: batch mode decides by itself unless it is to ask; otherwise the user is asked, once. A dialog that is
        closed ends the pass as if the log had ended. */
    method Complain(cfg: Config, before: bool, choice: Choice)
      returns (aborted: bool, cancelled: bool, closed: bool, ignoring: bool)
      ensures aborted == (cfg.quiet && cfg.action == AbortAll)
      ensures !aborted ==>
        ignoring == (before || choice == IgnoreErrors || (cfg.quiet && cfg.action in {NewOnly, AllQsos}))
      ensures cancelled == (!aborted && !ignoring && choice == GiveUp)
      ensures closed == (!aborted && !ignoring && choice == Close)
    {
      aborted, cancelled, closed, ignoring := false, false, false, before;
      if cfg.quiet {
        match cfg.action {
          case AbortAll =>
            aborted, ignoring := true, true;
            return;
          case NewOnly => ignoring := true;
          case AllQsos => ignoring := true;
          case _ =>
        }
      }
      if !ignoring {
        match choice {
          case GiveUp => cancelled := true;
          case IgnoreErrors => ignoring := true;
          case Close => closed := true;
        }
      }
    }

    /** A call within a session. */
    method Emit(c: Call, ghost before: seq<Event>)
      requires Valid() && Extends(before, trace, held, LOCKED)
      requires c in LOCKED
      modifies `conv, `held, `trace
      ensures Valid() && held == old(held) && conv == After(old(conv), c) && Extends(before, trace, held, LOCKED)
    {
      CallLibrary(c);
    }

    /** What follows a pass that did not throw. */
    method Resolve(cfg: Config, p: Pass, e: PassEnd, ghost before: seq<Event>)
      returns (again: bool, exit: Exit, numrecs: nat)
      requires Valid() && conv == Live && Extends(before, trace, held, LOCKED) && e.fate != Fail && e.fate != GoOn
      modifies `conv, `held, `trace
      ensures Valid() && Extends(before, trace, old(held), LOCKED) && again == Again(cfg, p, e)
      ensures again ==> held == old(held) && conv == NoConv
      ensures !again ==> !held && Resolved(cfg, p, e, exit, numrecs, conv)
    {
      hide ConvAt, Extends;
      var cancelled, aborted := e.fate == CancelIt, e.fate == AbortIt;
      again, exit, numrecs := false, Cancel, e.tally.numrecs;
      if cancelled || aborted {
        numrecs := 0;
      }
      if e.tally.duplicates > 0 {
        if cancelled || aborted {
          Leave(before);
          return;
        }
        if cfg.action == Ask || cfg.action == Unspec {
          if p.answer == CancelAll {
            Leave(before);
            return;
          }
          if p.answer == SendThem {
            Undo(before);
            again := true;
            return;
          }
        } else if cfg.action == AbortAll {
          Leave(before);
          exit, numrecs := NoQsos, 0;
          return;
        } else if cfg.action == AllQsos {
          Undo(before);
          again := true;
          return;
        }
      }
      if cancelled || e.tally.Processed() == 0 {
        Undo(before);
      }
      held := false;
      if cancelled {
        exit := Cancel;
      } else if numrecs == 0 {
        exit := NoQsos;
      } else if aborted || e.tally.duplicates > 0 || e.tally.outOfRange > 0 || e.tally.errors > 0 {
        exit := Suppressed;
      } else {
        exit := Success;
      }
    }

    /** tqsl_converterRollBack, tqsl_endConverter. */
    method Undo(ghost before: seq<Event>)
      requires Valid() && Extends(before, trace, held, LOCKED)
      modifies `conv, `held, `trace
      ensures Valid() && held == old(held) && conv == NoConv && Extends(before, trace, held, LOCKED)
    {
      Emit(RolledBack, before);
      Emit(Ended, before);
    }

    /** The same, and unlock_db. */
    method Leave(ghost before: seq<Event>)
      requires Valid() && Extends(before, trace, held, LOCKED)
      modifies `conv, `held, `trace
      ensures Valid() && !held && conv == NoConv && Extends(before, trace, old(held), LOCKED)
    {
      Undo(before);
      held := false;
    }

    /** A converter is opened, and its date filter set: the dialog is shown in the first pass only. */
    method BeginPass(cfg: Config, p: Pass, restarting: bool, ghost before: seq<Event>) returns (begun: Beginning)
      requires Valid() && Extends(before, trace, held, LOCKED)
      modifies `conv, `held, `trace, `filter
      ensures Valid() && Extends(before, trace, old(held), LOCKED)
      ensures begun == NotBegun <==> !p.begins
      ensures begun == DateCancelled <==> p.begins && cfg.dateDialog && !restarting && !p.dateOk
      ensures held == (begun == Begins && old(held)) && conv == if begun == NotBegun then NoConv else Live
      ensures begun == Begins ==>
        (filter == if cfg.limits != OPEN then cfg.limits else if cfg.dateDialog && !restarting then p.dates else OPEN)
    {
      hide ConvAt, Extends;
      if !p.begins {
        Leave(before);
        return NotBegun;
      }
      Emit(Begun, before);
      filter := OPEN;
      if cfg.dateDialog && !restarting {
        if !p.dateOk {
          held := false;
          return DateCancelled;
        }
        filter := p.dates;
      }
      if cfg.limits != OPEN {
        filter := cfg.limits;
      }
      return Begins;
    }

    /** ConvertLogToString. `early`: the call ends before the database is locked; `waited`: the blocking call for the
        lock got it. The ghost results say how each pass ended, whether the date dialog was cancelled, and how often the
        whole thing was restarted with duplicates allowed. */
    method Convert(cfg: Config, early: Option<Exit>, lock: LockReply, waited: bool, passes: seq<Pass>)
      returns (out: Outcome, numrecs: nat, output: Text, ghost ends: seq<PassEnd>, ghost dateCancelled: bool,
        ghost restarts: nat)
      requires Valid() && !held
      modifies `conv, `held, `trace, `filter
      ensures Valid() && (out != Unfinished ==> !held)
      ensures Extends(old(trace), trace, Took(cfg, lock, waited), LOCKED) && |ends| <= |passes| && Chain(cfg, passes, ends)
      ensures out == Threw ==> conv == NoConv
      ensures out.Returned? && ends != [] ==>
        var last := |ends| - 1;
        && Resolved(cfg, passes[last], ends[last], out.exit, numrecs, conv) && !Again(cfg, passes[last], ends[last])
        && output == ends[last].tally.output && filter == FilterIn(cfg, passes, last)
      ensures out.Returned? && ends == [] ==> numrecs == 0 && conv == if dateCancelled then Live else old(conv)
      ensures dateCancelled ==> out == Returned(Cancel) && ends == []
      ensures out == Unfinished ==> |ends| == |passes| && forall j :: 0 <= j < |ends| ==> Again(cfg, passes[j], ends[j])
      ensures RestartsExactly(cfg, passes, ends, restarts)
      ensures out.Returned? ==> |ends| == (if ends == [] then 0 else restarts + 1) && (ends == [] ==> output == [])
    {
      hide ConvAt, PassFits, Again, Extends, Resolved, Chain, RestartsExactly;
      numrecs, output, ends, dateCancelled, out, restarts := 0, [], [], false, Unfinished, 0;
      ghost var t0, took := trace, Took(cfg, lock, waited);
      NoCalls(t0, took, LOCKED);
      NoChain(cfg, passes);
      NoRestart(cfg, passes);
      if early.Some? {
        out := Returned(early.value);
        return;
      }
      var go := Lock(cfg, lock, waited);
      if !go {
        out := Returned(Busy);
        return;
      }
      var allowDupes, restarting, ignoring, i := false, false, false, 0;
      while i < |passes|
        invariant 0 <= i <= |passes| && Valid() && held == took && |ends| == i && out == Unfinished
        invariant conv == if i == 0 then old(conv) else NoConv
        invariant Extends(t0, trace, took, LOCKED) && Chain(cfg, passes, ends) && !dateCancelled
        invariant forall j :: 0 <= j < i ==> Again(cfg, passes[j], ends[j])
        invariant allowDupes == restarting == (i > 0) && ignoring == (i > 0 && ends[i - 1].ignoring)
        invariant i == 0 ==> numrecs == 0 && output == []
        invariant restarts == i && RestartsExactly(cfg, passes, ends, i)
      {
        var p := passes[i];
        numrecs := 0;
        var begun := BeginPass(cfg, p, restarting, t0);
        if begun == NotBegun {
          out := Threw;
          return;
        }
        if begun == DateCancelled {
          out, dateCancelled := Returned(Cancel), true;
          return;
        }
        ghost var t1 := trace;
        var e := SignPass(cfg, allowDupes, ignoring, p.replies);
        StillLocked(t0, t1, trace, took);
        LongerChain(cfg, passes, ends, e);
        NotGoOn(cfg, allowDupes, ignoring, p.replies, e);
        ghost var ends0 := ends;
        ends, output, ignoring := ends + [e], e.tally.output, e.ignoring;
        if e.fate == Fail {
          FailedOnce(cfg, p, e);
          OneMorePass(cfg, passes, ends0, e, false);
          Leave(t0);
          out := Threw;
          return;
        }
        var again, exit;
        again, exit, numrecs := Resolve(cfg, p, e, t0);
        OneMorePass(cfg, passes, ends0, e, again);
        if !again {
          out := Returned(exit);
          return;
        }
        allowDupes, restarting, i, restarts := true, true, i + 1, restarts + 1;
      }
    }

    // ----- the callers

    /** ConvertLogFile. `mid`: the trace when the conversion was over, `result` its outcome. */
    method LogFile(cfg: Config, early: Option<Exit>, lock: LockReply, waited: bool, passes: seq<Pass>, w: Writing)
      returns (out: Outcome, ghost result: Outcome, ghost numrecs: nat, ghost ends: seq<PassEnd>, ghost mid: seq<Event>)
      requires Valid() && !held
      modifies this
      ensures Valid() && (out != Unfinished ==> !held)
      ensures old(Safe(trace)) ==> Safe(trace) && Calls(trace, Committed) <= old(Calls(trace, Committed)) + 1
      ensures !w.opens ==> out == Returned(OpenOutput) && trace == old(trace)
      ensures w.opens ==> Converted(cfg, lock, waited, passes, old(trace), mid, result, numrecs, ends)
      ensures w.opens && !result.Returned? ==> out == result && trace == mid
      ensures w.opens && result.Returned? && NothingToDo(numrecs, result.exit) ==>
        out == Returned(EarlyStatus(numrecs, result.exit)) && trace == mid && (numrecs == 0 ==> file == None)
      ensures w.opens && result.Returned? && !NothingToDo(numrecs, result.exit) ==>
        && out == Returned(if w.Works() then result.exit else LibError)
        && ConvAt(mid) == Live && trace == mid + Unlocked(FileCalls(w))
        && (w.Works() ==> ends != [] && file == Some(ends[|ends| - 1].tally.output))
    {
      hide ConvAt, Extends, Chain, Resolved, Safe, Calls, RestartsExactly;
      result, numrecs, ends, mid := Unfinished, 0, [], trace;
      if !w.opens {
        out := Returned(OpenOutput);
        return;
      }
      file := Some([]);
      var n, output;
      ghost var dateCancelled;
      ghost var restarts;
      out, n, output, ends, dateCancelled, restarts := Convert(cfg, early, lock, waited, passes);
      result, numrecs, mid := out, n, trace;
      if Safe(old(trace)) {
        NoCommit(old(trace), mid, Took(cfg, lock, waited));
        if conv == Live {
          FileIsSettled(mid, w);
        }
      }
      if !out.Returned? {
        return;
      }
      if n > 0 {
        RecordsMeanOpen(cfg, passes[|ends| - 1], ends[|ends| - 1], out.exit, n, conv);
      }
      if n == 0 {
        file := None;
        out := Returned(if out.exit == Cancel || out.exit == Suppressed then out.exit else NoQsos);
        return;
      }
      if out.exit == Cancel {
        return;
      }
      var ok := WriteOut(w, output);
      if !ok {
        out := Returned(LibError);
      }
    }

    /** Writing, closing, and committing or not. */
    method WriteOut(w: Writing, output: Text) returns (ok: bool)
      requires Valid() && !held
      modifies this
      ensures Valid() && !held && ok == w.Works() && trace == old(trace) + Unlocked(FileCalls(w))
      ensures ok ==> file == Some(output)
    {
      hide ConvAt;
      if !w.writes || (w.compressed && !w.flushes) {
        Discard();
        assert trace == old(trace) + Unlocked(FileCalls(w));
        return false;
      }
      file := Some(output);
      CallLibrary(Written);
      if !w.closes {
        Discard();
        assert trace == old(trace) + Unlocked(FileCalls(w));
        return false;
      }
      CallLibrary(Closed);
      CallLibrary(Committed);
      CallLibrary(Ended);
      assert trace == old(trace) + Unlocked(FileCalls(w));
      return true;
    }

    /** UploadLogFile. `compresses`: the compressed output is not empty; `sent`: what UploadFile returns. */
    method UploadLog(cfg: Config, early: Option<Exit>, lock: LockReply, waited: bool, passes: seq<Pass>,
        compresses: bool, sent: Exit)
      returns (out: Outcome, ghost result: Outcome, ghost numrecs: nat, ghost ends: seq<PassEnd>, ghost mid: seq<Event>)
      requires Valid() && !held
      modifies `conv, `held, `trace, `filter
      ensures Valid() && (out != Unfinished ==> !held)
      ensures old(Safe(trace)) ==> Safe(trace) && Calls(trace, Committed) <= old(Calls(trace, Committed)) + 1
      ensures Converted(cfg, lock, waited, passes, old(trace), mid, result, numrecs, ends)
      ensures !result.Returned? ==> out == result && trace == mid
      ensures result.Returned? && NothingToDo(numrecs, result.exit) ==>
        out == Returned(EarlyStatus(numrecs, result.exit)) && trace == mid
      ensures result.Returned? && !NothingToDo(numrecs, result.exit) ==>
        && ConvAt(mid) == Live && out == Returned(if compresses then sent else TqslError)
        && trace == if compresses then mid + Unlocked(UploadCalls(sent)) else mid
    {
      hide ConvAt, Extends, Chain, Resolved, Safe, Calls, RestartsExactly;
      var n, output;
      ghost var dateCancelled;
      ghost var restarts;
      out, n, output, ends, dateCancelled, restarts := Convert(cfg, early, lock, waited, passes);
      result, numrecs, mid := out, n, trace;
      if Safe(old(trace)) {
        NoCommit(old(trace), mid, Took(cfg, lock, waited));
        if conv == Live {
          UploadIsSettled(mid, sent);
        }
      }
      if !out.Returned? {
        return;
      }
      if n > 0 {
        RecordsMeanOpen(cfg, passes[|ends| - 1], ends[|ends| - 1], out.exit, n, conv);
      }
      if n == 0 {
        out := Returned(if out.exit == Cancel || out.exit == Suppressed then out.exit else NoQsos);
        return;
      }
      if out.exit == Cancel {
        return;
      }
      if !compresses {
        out := Returned(TqslError);
        return;
      }
      if sent == Success {
        CallLibrary(Uploaded);
        CallLibrary(Committed);
      } else {
        CallLibrary(RolledBack);
      }
      CallLibrary(Ended);
      assert trace == mid + Unlocked(UploadCalls(sent));
      out := Returned(sent);
    }
  }

  /** A record that is signed. */
  lemma RecordGoesOn(cfg: Config, allowDupes: bool, before: bool, rs: seq<Reply>, n: nat, t: Tally, ignoring: bool)
    requires Along(cfg, allowDupes, before, rs, n, t, ignoring, false) && n < |rs| && rs[n].Record?
    requires cfg.quiet || rs[n].running
    ensures Along(cfg, allowDupes, before, rs, n + 1,
      t.(numrecs := t.numrecs + if rs[n].contact then 1 else 0, output := t.output + rs[n].text + [LF]), ignoring, false)
  {
    hide Along;
    GoesOn(cfg, allowDupes, before, rs, n, t, ignoring, false);
  }

  lemma NoRecordLeft(rs: seq<Reply>, n: nat)
    ensures n < |rs| ==> ReplyAt(rs, n) == rs[n]
    ensures n >= |rs| ==> ReplyAt(rs, n).Stop?
  {
  }

  /** The end of the log is no error. */
  lemma PastTheEnd(cfg: Config, allowDupes: bool, rs: seq<Reply>, n: nat, t: Tally, halted: bool)
    ensures n >= |rs| ==> !Reported(cfg, allowDupes, t, halted, ReplyAt(rs, n))
  {
  }

  lemma MustBeAnswer(cfg: Config, allowDupes: bool, ignoring: bool, t: Tally, halted: bool, rs: seq<Reply>, n: nat)
    requires FateOf(cfg, allowDupes, ignoring, t, halted, ReplyAt(rs, n)) == GoOn
    ensures n < |rs|
  {
  }

  /** What a caller knows when the conversion is over: every call so far was made with the lock in the same state, none
      was a commit, and the passes account for the records. */
  ghost predicate Converted(cfg: Config, lock: LockReply, waited: bool, passes: seq<Pass>, before: seq<Event>,
      mid: seq<Event>, result: Outcome, numrecs: nat, ends: seq<PassEnd>)
  {
    && Extends(before, mid, Took(cfg, lock, waited), LOCKED) && Chain(cfg, passes, ends)
    && (result.Returned? && ends != [] ==>
          Resolved(cfg, passes[|ends| - 1], ends[|ends| - 1], result.exit, numrecs, ConvAt(mid)))
    && (result.Returned? && ends == [] ==> numrecs == 0)
    && (result == Threw ==> ConvAt(mid) == NoConv)
  }

  /** The conversion itself never commits. */
  lemma NoCommit(before: seq<Event>, mid: seq<Event>, held: bool)
    requires Extends(before, mid, held, LOCKED) && Safe(before)
    ensures Safe(mid) && Calls(mid, Committed) == Calls(before, Committed)
  {
    OnlyAsked(before, mid, held, LOCKED);
    forall i | 0 <= i < |mid| ensures SafeCommit(mid, i) {
      if i < |before| {
        assert SafeCommit(before, i);
        assert mid[..i] == before[..i];
      }
    }
  }

  /** The calls that a session makes while it has the lock. */
  const LOCKED := {Begun, Asked, RolledBack, Ended}

  lemma StillLocked(a: seq<Event>, b: seq<Event>, c: seq<Event>, held: bool)
    requires Extends(a, b, held, LOCKED) && Extends(b, c, held, {Asked})
    ensures Extends(a, c, held, LOCKED)
  {
  }

  lemma NoChain(cfg: Config, passes: seq<Pass>)
    ensures Chain(cfg, passes, [])
  {
  }
}
