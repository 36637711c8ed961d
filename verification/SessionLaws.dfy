/** The signing session (apps/tqsl.cpp), said of the answers themselves: how a pass fares in batch mode and with a user, what
    it counts, and which status it ends in. */
module SessionLaws {
  import opened Bytes
  import opened Decimal
  import opened JsonValue
  import opened SessionSpec
  import opened Session

  // ----- one answer

  /** The library reports an error that is shown: a bad record, or a duplicate if duplicates are to be shown. */
  predicate IsShown(cfg: Config, r: Reply) {
    r.trouble == Bad || (r.trouble == Duplicate && cfg.showDupes)
  }

  /** In batch mode nothing can be cancelled. What ends a pass: too many duplicates, a key that fails, an error if errors
      abort, a closed dialog or a refusal if the user is to be asked after all, and the end of the log. */
  lemma BatchFate(cfg: Config, allowDupes: bool, ignoring: bool, t: Tally, r: Reply)
    requires cfg.quiet
    ensures var f, many := FateOf(cfg, allowDupes, ignoring, t, false, r),
                t.numrecs + t.duplicates + t.outOfRange + t.errors >= 50001 && t.duplicates >= 40001 && allowDupes;
      && (r.Record? ==> f == GoOn)
      && (r.Stop? && many ==> f == AbortIt)
      && (r.Stop? && !many && r.trouble == Clean ==> f == Finish)
      && (r.Stop? && !many && r.trouble == OutOfRange ==> f == GoOn)
      && (r.Stop? && !many && r.trouble.SignInit? ==> f == if r.trouble.signs then GoOn else Fail)
      && (r.Stop? && !many && r.trouble == Duplicate && !cfg.showDupes ==> f == GoOn)
      && (r.Stop? && !many && IsShown(cfg, r) ==> (f == OnError(cfg.action, ignoring || r.choice == IgnoreErrors, r.choice)))
  {
  }

  /** What a shown error does in batch mode. */
  function OnError(action: Action, ignored: bool, choice: Choice): Fate {
    match action
    case AbortAll => AbortIt
    case NewOnly => GoOn
    case AllQsos => GoOn
    case _ => if ignored then GoOn else if choice == GiveUp then CancelIt else Finish
  }

  /** With a user who has not pressed Cancel: the same, but that the user decides about every error that is shown until
      errors are ignored. */
  lemma UserFate(cfg: Config, allowDupes: bool, ignoring: bool, t: Tally, r: Reply)
    requires !cfg.quiet && r.running
    ensures var f, many := FateOf(cfg, allowDupes, ignoring, t, false, r),
                t.numrecs + t.duplicates + t.outOfRange + t.errors >= 50001 && t.duplicates >= 40001 && allowDupes;
      && (r.Record? ==> f == GoOn)
      && (r.Stop? && many ==> f == AbortIt)
      && (r.Stop? && !many && r.trouble == Clean ==> f == Finish)
      && (r.Stop? && !many && r.trouble == OutOfRange ==> f == GoOn)
      && (r.Stop? && !many && r.trouble.SignInit? ==> f == if r.trouble.signs then GoOn else Fail)
      && (r.Stop? && !many && r.trouble == Duplicate && !cfg.showDupes ==> f == GoOn)
      && (r.Stop? && !many && IsShown(cfg, r) ==>
            f == if ignoring || r.choice == IgnoreErrors then GoOn else if r.choice == GiveUp then CancelIt else Finish)
  {
  }

  /** Once Cancel has been pressed, an answer without a record ends the pass as given up, unless Cancel came with it and there
      were too many duplicates. A record that is still delivered is dropped, and the error left behind is looked at as any
      other; a clean one, and a dialog that is closed or refused, end the pass as given up. */
  lemma CancelledFate(cfg: Config, allowDupes: bool, ignoring: bool, t: Tally, before: bool, r: Reply)
    requires !cfg.quiet && (before || !r.running)
    ensures var f, many := FateOf(cfg, allowDupes, ignoring, t, before, r),
                t.numrecs + t.duplicates + t.outOfRange + t.errors >= 50001 && t.duplicates >= 40001 && allowDupes;
      && (r.Stop? ==> f == if many && !before then AbortIt else CancelIt)
      && (r.Record? && (many || r.trouble == Clean) ==> f == CancelIt)
      && (r.Record? && !many && (r.trouble == OutOfRange || (r.trouble == Duplicate && !cfg.showDupes)) ==> f == GoOn)
      && (r.Record? && !many && r.trouble.SignInit? ==> f == if r.trouble.signs then GoOn else Fail)
      && (r.Record? && !many && IsShown(cfg, r) ==> f == if ignoring || r.choice == IgnoreErrors then GoOn else CancelIt)
  {
  }

  // ----- what a pass counts

  /** In batch mode Cancel is never pressed. */
  lemma {:induction false} NeverPressed(cfg: Config, rs: seq<Reply>)
    requires cfg.quiet || forall i :: 0 <= i < |rs| ==> rs[i].running
    ensures !Pressed(cfg, rs)
  {
    if rs != [] { NeverPressed(cfg, rs[..|rs| - 1]); }
  }

  /** The places of the answers that are records of contacts. */
  function ContactsAt(rs: seq<Reply>): set<nat> {
    set i | 0 <= i < |rs| && rs[i].Record? && rs[i].contact
  }

  /** The places of the answers that are no records and report this trouble. */
  function TroublesAt(rs: seq<Reply>, t: Trouble): set<nat> {
    set i | 0 <= i < |rs| && rs[i].Stop? && rs[i].trouble == t
  }

  /** The texts of the records, in their order, each ended by a line feed. */
  function TextOf(rs: seq<Reply>): Text {
    if rs == [] then [] else (match rs[0] case Record(_, text, _, _, _, _) => text + ['\n' as int] case _ => []) + TextOf(rs[1..])
  }

  lemma {:induction false} TextGrows(rs: seq<Reply>, r: Reply)
    ensures TextOf(rs + [r]) == TextOf(rs) + (if r.Record? then r.text + [LF] else [])
  {
    hide *;
    var line := if r.Record? then r.text + [LF] else [];
    FirstText(rs + [r]);
    if rs == [] {
      OnlyReply(r);
      NoText();
      assert line + [] == [] + line;
    } else {
      TextGrows(rs[1..], r);
      FirstText(rs);
      FirstReply(rs, r);
      Associate(if rs[0].Record? then rs[0].text + [LF] else [], TextOf(rs[1..]), line);
    }
  }

  lemma NoText()
    ensures TextOf([]) == []
  {
  }

  lemma FirstText(rs: seq<Reply>)
    requires rs != []
    ensures TextOf(rs) == (if rs[0].Record? then rs[0].text + [LF] else []) + TextOf(rs[1..])
  {
  }

  lemma OnlyReply(r: Reply)
    ensures [] + [r] == [r] && [r][1..] == []
  {
  }

  lemma FirstReply(rs: seq<Reply>, r: Reply)
    requires rs != []
    ensures (rs + [r])[0] == rs[0] && (rs + [r])[1..] == rs[1..] + [r]
  {
  }

  lemma Associate(a: Text, b: Text, c: Text)
    ensures a + (b + c) == a + b + c
  {
  }

  /** Unless Cancel is pressed, the counts of a pass are the numbers of answers of each sort, and the output is the text of
      its records. */
  lemma {:induction false} CountsAreNumbers(cfg: Config, rs: seq<Reply>)
    requires cfg.quiet || forall i :: 0 <= i < |rs| ==> rs[i].running
    ensures var t := TallyOf(cfg, rs);
      && t.numrecs == |ContactsAt(rs)| && t.duplicates == |TroublesAt(rs, Duplicate)|
      && t.outOfRange == |TroublesAt(rs, OutOfRange)| && t.errors == |TroublesAt(rs, Bad)|
      && t.output == TextOf(rs)
  {
    if rs == [] {
      NoPlaces(rs);
    } else {
      var n, init, r := |rs| - 1, rs[..|rs| - 1], rs[|rs| - 1];
      CountsAreNumbers(cfg, init);
      NeverPressed(cfg, rs);
      assert rs == init + [r];
      TextGrows(init, r);
      PlacesGrow(rs);
      hide ContactsAt, TroublesAt, TextOf;
      OneMoreCount(cfg, rs);
    }
  }

  lemma NoPlaces(rs: seq<Reply>)
    requires rs == []
    ensures ContactsAt(rs) == {} && forall t :: TroublesAt(rs, t) == {}
  {
  }

  lemma OneMoreCount(cfg: Config, rs: seq<Reply>)
    requires rs != [] && !Pressed(cfg, rs)
    ensures var init, r := rs[..|rs| - 1], rs[|rs| - 1];
      && Contacts(cfg, rs) == Contacts(cfg, init) + (if r.Record? && r.contact then 1 else 0)
      && (forall t :: Troubles(cfg, rs, t) == Troubles(cfg, init, t) + if r.Stop? && r.trouble == t then 1 else 0)
      && Lines(cfg, rs) == Lines(cfg, init) + (if r.Record? then r.text + [LF] else [])
  {
  }

  lemma PlacesGrow(rs: seq<Reply>)
    requires rs != []
    ensures var init, r := rs[..|rs| - 1], rs[|rs| - 1];
      && |ContactsAt(rs)| == |ContactsAt(init)| + (if r.Record? && r.contact then 1 else 0)
      && forall t :: |TroublesAt(rs, t)| == |TroublesAt(init, t)| + if r.Stop? && r.trouble == t then 1 else 0
  {
    var n, init, r := |rs| - 1, rs[..|rs| - 1], rs[|rs| - 1];
    if r.Record? && r.contact {
      assert ContactsAt(rs) == ContactsAt(init) + {n};
    } else {
      assert ContactsAt(rs) == ContactsAt(init);
    }
    forall t ensures |TroublesAt(rs, t)| == |TroublesAt(init, t)| + if r.Stop? && r.trouble == t then 1 else 0 {
      if r.Stop? && r.trouble == t {
        assert TroublesAt(rs, t) == TroublesAt(init, t) + {n};
      } else {
        assert TroublesAt(rs, t) == TroublesAt(init, t);
      }
    }
  }

  /** After Cancel no record counts any more, nor goes to the output; a trouble still does. */
  lemma NothingMoreSigned(cfg: Config, rs: seq<Reply>, r: Reply)
    requires Pressed(cfg, rs) || (!cfg.quiet && !r.running)
    ensures var a, b := TallyOf(cfg, rs), TallyOf(cfg, rs + [r]);
      && Pressed(cfg, rs + [r]) && b.numrecs == a.numrecs && b.output == a.output
      && b.duplicates == a.duplicates + (if r.trouble == Duplicate then 1 else 0)
      && b.outOfRange == a.outOfRange + (if r.trouble == OutOfRange then 1 else 0)
      && b.errors == a.errors + (if r.trouble == Bad then 1 else 0)
  {
    assert (rs + [r])[..|rs|] == rs;
    assert Lines(cfg, rs) + [] == Lines(cfg, rs);
  }

  // ----- whole passes in batch mode

  /** No answer ends the log early, and no key fails. */
  predicate Uneventful(rs: seq<Reply>) {
    forall i :: 0 <= i < |rs| ==> rs[i].Stop? ==> rs[i].trouble != Clean && rs[i].trouble != SignInit(false)
  }

  /** A batch run for new records, or for all, goes on to the end of its log, whatever errors there are; its first pass counts
      every answer. */
  lemma BatchGoesOn(cfg: Config, before: bool, rs: seq<Reply>, e: PassEnd)
    requires cfg.quiet && (cfg.action == NewOnly || cfg.action == AllQsos) && Uneventful(rs)
    requires PassFits(cfg, false, before, rs, e)
    ensures e.fate == Finish && e.n == |rs|
    ensures e.tally.numrecs == |ContactsAt(rs)| && e.tally.duplicates == |TroublesAt(rs, Duplicate)|
    ensures e.tally.outOfRange == |TroublesAt(rs, OutOfRange)| && e.tally.errors == |TroublesAt(rs, Bad)|
    ensures e.tally.output == TextOf(rs)
  {
    hide FateOf, TallyOf, Ignoring, ContactsAt, TroublesAt, TextOf, Reported, LastCounts;
    var i := e.n;
    NeverPressed(cfg, rs[..i]);
    hide Pressed;
    BatchFate(cfg, false, Ignoring(cfg, before, rs[..i]), TallyOf(cfg, rs[..i]), ReplyAt(rs, i));
    if i == |rs| {
      assert rs[..i] == rs;
      assert !LastCounts(cfg, false, rs, i) by { NotCounted(cfg, false, rs); }
      CountsAreNumbers(cfg, rs);
    }
  }

  lemma NotCounted(cfg: Config, allowDupes: bool, rs: seq<Reply>)
    ensures !LastCounts(cfg, allowDupes, rs, |rs|)
  {
    hide Reported, TallyOf, Pressed;
  }

  /** A batch run that aborts on errors stops at the first error that is shown, if there is one. */
  lemma BatchAborts(cfg: Config, before: bool, rs: seq<Reply>, e: PassEnd, first: nat)
    requires cfg.quiet && cfg.action == AbortAll && Uneventful(rs) && PassFits(cfg, false, before, rs, e)
    requires first <= |rs| && (first < |rs| ==> rs[first].Stop? && IsShown(cfg, rs[first]))
    requires forall i :: 0 <= i < first ==> !(rs[i].Stop? && IsShown(cfg, rs[i]))
    ensures e.n == first && e.fate == if first < |rs| then AbortIt else Finish
    ensures e.tally == TallyOf(cfg, rs[..if first < |rs| then first + 1 else first])
  {
    LastIsCounted(cfg, rs, first);
    hide FateOf, TallyOf, Ignoring, IsShown, Reported, LastCounts;
    forall i | 0 <= i < first ensures FateAt(cfg, false, before, rs, i) == GoOn {
      NeverPressed(cfg, rs[..i]);
      BatchFate(cfg, false, Ignoring(cfg, before, rs[..i]), TallyOf(cfg, rs[..i]), rs[i]);
      if rs[i].Stop? { NotShown(cfg, rs[i]); }
    }
    NeverPressed(cfg, rs[..first]);
    hide Pressed;
    BatchFate(cfg, false, Ignoring(cfg, before, rs[..first]), TallyOf(cfg, rs[..first]), ReplyAt(rs, first));
    assert FateAt(cfg, false, before, rs, first) == if first < |rs| then AbortIt else Finish;
  }

  /** The error that aborts a pass is counted. */
  lemma LastIsCounted(cfg: Config, rs: seq<Reply>, n: nat)
    requires cfg.quiet && n <= |rs| && (n < |rs| ==> rs[n].Stop? && IsShown(cfg, rs[n]))
    ensures LastCounts(cfg, false, rs, n) <==> n < |rs|
  {
    NeverPressed(cfg, rs[..n]);
    hide TallyOf, Pressed;
  }

  /** An error is counted and shown unless Cancel has been pressed or there were too many duplicates. */
  lemma ReportedExactly(cfg: Config, allowDupes: bool, t: Tally, r: Reply)
    requires cfg.quiet || r.running
    ensures Reported(cfg, allowDupes, t, false, r) <==>
      (r.Stop? && IsShown(cfg, r)
       && !(allowDupes && t.duplicates >= 40001 && t.numrecs + t.duplicates + t.outOfRange + t.errors >= 50001))
  {
  }

  lemma NotShown(cfg: Config, r: Reply)
    requires !IsShown(cfg, r)
    ensures r.trouble != Bad && (r.trouble == Duplicate ==> !cfg.showDupes)
  {
  }

  /** Errors are ignored from the first shown error on that the user, or the batch mode, says to ignore, and not before. */
  lemma {:induction false} IgnoringExactly(cfg: Config, before: bool, rs: seq<Reply>)
    requires cfg.quiet || forall i :: 0 <= i < |rs| ==> rs[i].running
    ensures Ignoring(cfg, before, rs) <==> before || exists i :: 0 <= i < |rs| && Dismissed(cfg, rs[i])
  {
    if rs != [] {
      var n, init := |rs| - 1, rs[..|rs| - 1];
      IgnoringExactly(cfg, before, init);
      NeverPressed(cfg, rs);
      assert Ignoring(cfg, before, rs) <==> Ignoring(cfg, before, init) || Dismissed(cfg, rs[n]);
      if i :| 0 <= i < |rs| && Dismissed(cfg, rs[i]) {
        if i < n { assert Dismissed(cfg, init[i]); }
      }
    }
  }

  predicate Dismissed(cfg: Config, r: Reply) {
    && r.Stop? && IsShown(cfg, r)
    && (r.choice == IgnoreErrors || (cfg.quiet && (cfg.action == NewOnly || cfg.action == AllQsos)))
  }

  /** The first pass refuses duplicates and asks about errors; a later one sends duplicates, and ignores errors exactly if the
      one before did in the end. */
  lemma PassesExactly(cfg: Config, passes: seq<Pass>, ends: seq<PassEnd>, j: nat)
    requires Chain(cfg, passes, ends) && j < |ends|
    ensures j == 0 ==> PassFits(cfg, false, false, passes[0].replies, ends[0])
    ensures j > 0 ==> PassFits(cfg, true, ends[j - 1].ignoring, passes[j].replies, ends[j])
  {
    hide PassFits;
    assert Ran(cfg, passes, ends, j);
  }

  // ----- the status

  /** How a conversion that is not repeated ends, case by case: the status, the records left, and the converter. */
  lemma StatusExactly(cfg: Config, p: Pass, e: PassEnd, exit: Exit, numrecs: nat, conv: Conv)
    requires Resolved(cfg, p, e, exit, numrecs, conv)
    ensures var t, asked := e.tally, cfg.action == Ask || cfg.action == Unspec;
      var all := t.numrecs + t.duplicates + t.outOfRange + t.errors;
      && (e.fate == CancelIt ==> exit == Cancel && numrecs == 0 && conv == NoConv)
      && (e.fate == AbortIt && t.duplicates > 0 ==> exit == Cancel && numrecs == 0 && conv == NoConv)
      && (e.fate == AbortIt && t.duplicates == 0 ==> exit == NoQsos && numrecs == 0 && conv == if all == 0 then NoConv else Live)
      && (e.fate == Finish && t.duplicates > 0 && asked && p.answer == CancelAll ==>
            exit == Cancel && numrecs == t.numrecs && conv == NoConv)
      && (e.fate == Finish && t.duplicates > 0 && cfg.action == AbortAll ==> exit == NoQsos && numrecs == 0 && conv == NoConv)
      && (e.fate == Finish && (t.duplicates == 0 || cfg.action == NewOnly || (asked && p.answer == DropThem)) ==>
            && numrecs == t.numrecs && conv == (if all == 0 then NoConv else Live)
            && exit == if numrecs == 0 then NoQsos else if numrecs == all then Success else Suppressed)
  {
  }

  /** What the callers return without writing anything. */
  lemma EarlyExactly(numrecs: nat, exit: Exit)
    requires NothingToDo(numrecs, exit)
    ensures NothingToDo(numrecs, exit) <==> numrecs == 0 || exit == Cancel
    ensures EarlyStatus(numrecs, exit) == if exit == Cancel then Cancel else if exit == Suppressed then Suppressed else NoQsos
  {
  }

  /** The dates of the command line prevail; without them those of the dialog hold for the first pass. */
  lemma FilterExactly(cfg: Config, passes: seq<Pass>, j: nat)
    requires j < |passes|
    ensures cfg.limits != Range(None, None) ==> FilterIn(cfg, passes, j) == cfg.limits
    ensures cfg.limits == Range(None, None) && cfg.dateDialog ==>
      FilterIn(cfg, passes, j) == if j == 0 then passes[0].dates else Range(None, None)
    ensures cfg.limits == Range(None, None) && !cfg.dateDialog ==> FilterIn(cfg, passes, j) == Range(None, None)
  {
  }

  /** The lock is held exactly if it was free, or if it was busy, the program may wait, and the wait got it. */
  lemma LockExactly(cfg: Config, lock: LockReply, waited: bool)
    ensures lock == Taken ==> Took(cfg, lock, waited)
    ensures lock == Held ==> (Took(cfg, lock, waited) <==> !cfg.quiet && waited)
    ensures lock == NoFile || lock == Failed ==> !Took(cfg, lock, waited)
  {
  }

  /** The calls of the two callers. */
  lemma CallsExactly(w: Writing, sent: Exit)
    ensures !w.writes || (w.compressed && !w.flushes) ==> FileCalls(w) == [RolledBack, Ended]
    ensures w.writes && !(w.compressed && !w.flushes) ==>
      FileCalls(w) == if w.closes then [Written, Closed, Committed, Ended] else [Written, RolledBack, Ended]
    ensures UploadCalls(sent) == if sent == Success then [Uploaded, Committed, Ended] else [RolledBack, Ended]
  {
  }

  /** Whole sessions of a batch run for new records: one pass, every new record in the output, and the status by what else
      there was. */
  lemma NewRecordsSent(cfg: Config, passes: seq<Pass>, ends: seq<PassEnd>, restarts: nat, exit: Exit, numrecs: nat, conv: Conv)
    requires cfg.quiet && cfg.action == NewOnly && ends != [] && Chain(cfg, passes, ends)
    requires RestartsExactly(cfg, passes, ends, restarts) && Uneventful(passes[0].replies)
    requires Resolved(cfg, passes[|ends| - 1], ends[|ends| - 1], exit, numrecs, conv)
    ensures var rs := passes[0].replies;
      && |ends| == 1 && ends[0].tally.output == TextOf(rs) && numrecs == |ContactsAt(rs)|
      && exit == if numrecs == 0 then NoQsos
         else if |TroublesAt(rs, Duplicate)| + |TroublesAt(rs, OutOfRange)| + |TroublesAt(rs, Bad)| == 0 then Success
         else Suppressed
  {
    hide Chain, PassFits, Resolved, ContactsAt, TroublesAt, TextOf, Uneventful;
    OnlyNewRecords(cfg, passes, ends, restarts);
    BatchGoesOn(cfg, false, passes[0].replies, ends[0]);
    StatusExactly(cfg, passes[0], ends[0], exit, numrecs, conv);
  }
}
