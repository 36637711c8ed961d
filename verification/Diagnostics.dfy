/** How diagnostics become errors and warnings, and where in the text they are reported
    (apps/jsonreader.cpp, AddError, AddWarning and the bookkeeping of ReadChar). */
module Diagnostics {
  import opened Bytes
  import opened Decimal
  import opened JsonValue
  import opened ReaderSpec

  /** The bits of the reader's flags. */
  datatype Flag = AllowComments | StoreComments | CaseFolding | MissingClose | MultiString | CommentsAfter
    | NoUtf8Stream | MemoryBuffer

  type Flags = set<Flag>

  /** The flag that makes a warning of a diagnostic; None is always an error. */
  function Extension(k: Kind): Option<Flag> {
    match k
    case CommentFound => Some(AllowComments)
    case LiteralCase => Some(CaseFolding)
    case CloseMismatch => Some(MissingClose)
    case MissingAtEof => Some(MissingClose)
    case MultilineString => Some(MultiString)
    case BufferFound => Some(MemoryBuffer)
    case _ => None
  }

  predicate IsError(flags: Flags, k: Kind) {
    Extension(k) == None || Extension(k).value !in flags
  }

  /** The events of a log that are errors, or that are not. */
  function Select(flags: Flags, error: bool, log: seq<Event>): seq<Event> {
    if log == [] then []
    else
      var last := log[|log| - 1];
      var init := Select(flags, error, log[..|log| - 1]);
      if IsError(flags, last.kind) == error then init + [last] else init
  }

  lemma SelectNote(flags: Flags, error: bool, log: seq<Event>, e: Event)
    ensures Select(flags, error, log + [e])
      == Select(flags, error, log) + if IsError(flags, e.kind) == error then [e] else []
  {
    assert (log + [e])[..|log|] == log;
  }

  /** Every diagnostic is an error or a warning, never both. */
  lemma {:induction false} NothingLost(flags: Flags, log: seq<Event>)
    ensures |Select(flags, true, log)| + |Select(flags, false, log)| == |log|
  {
    if log != [] {
      NothingLost(flags, log[..|log| - 1]);
    }
  }

  /** More flags never make more errors: the errors left are among the earlier ones, in their order. */
  lemma {:induction false} MoreFlagsFewerErrors(few: Flags, many: Flags, log: seq<Event>)
    requires few <= many
    ensures Select(many, true, log) == Select(many, true, Select(few, true, log))
    ensures |Select(many, true, log)| <= |Select(few, true, log)|
  {
    if log != [] {
      var init, last := log[..|log| - 1], log[|log| - 1];
      MoreFlagsFewerErrors(few, many, init);
      if IsError(few, last.kind) {
        SelectNote(many, true, Select(few, true, init), last);
      }
    }
  }

  /** Which diagnostics each flag makes warnings of. */
  lemma ExtensionsExactly(k: Kind)
    ensures !IsError({AllowComments}, k) <==> k == CommentFound
    ensures !IsError({CaseFolding}, k) <==> k == LiteralCase
    ensures !IsError({MissingClose}, k) <==> k == CloseMismatch || k == MissingAtEof
    ensures !IsError({MultiString}, k) <==> k == MultilineString
    ensures !IsError({MemoryBuffer}, k) <==> k == BufferFound
    ensures IsError({StoreComments, CommentsAfter, NoUtf8Stream}, k)
  {
  }

  /** A flag acts by itself: with several flags a diagnostic is a warning if it is one with one of them. */
  lemma FlagsActAlone(flags: Flags, k: Kind)
    ensures !IsError(flags, k) <==> exists f :: f in flags && !IsError({f}, k)
  {
    if !IsError(flags, k) { assert !IsError({Extension(k).value}, k); }
  }

  // ----- positions

  /** The line of a position: one more than the line feeds before it. */
  function Line(input: Text, pos: nat): int
    requires pos <= |input|
  {
    1 + CountLf(input[..pos])
  }

  function Column(input: Text, pos: nat): int
    requires pos <= |input|
  {
    if pos == 0 || input[pos - 1] == LF then 1
    else if input[pos - 1] == CR then (if pos == |input| then 1 else 2)
    else Column(input, pos - 1) + 1
  }

  /** A text starts in line 1, column 1; without carriage returns the line is one more than the line feeds passed, and the
      column one more than the characters since the last of them. */
  lemma {:induction false} PositionIs(before: Text, line: Text, after: Text)
    requires CR !in before + line + after && LF !in line && (before == [] || before[|before| - 1] == LF)
    ensures var input, pos := before + line + after, |before| + |line|;
      && Column(input, pos) == 1 + |line|
      && Line(input, pos) == 1 + CountLf(before)
    decreases |line|
  {
    var input, pos := before + line + after, |before| + |line|;
    assert input[..pos] == before + line;
    LineFeedsBefore(before, line);
    if line != [] {
      var init, last := line[..|line| - 1], line[|line| - 1];
      assert input == before + init + ([last] + after);
      assert input[pos - 1] == last && last in line;
      assert input[pos - 1] in input;
      PositionIs(before, init, [last] + after);
    } else if before != [] {
      assert input[pos - 1] == LF;
    }
  }

  /** A carriage return alone starts a new count of columns, in the same line. */
  lemma AfterReturn(before: Text, after: Text)
    requires after == [] || after[0] != LF
    ensures var input, pos := before + [CR] + after, |before| + 1;
      Column(input, pos) == (if after == [] then 1 else 2) && Line(input, pos) == Line(input, pos - 1)
  {
    var input := before + [CR] + after;
    assert input[..|before| + 1] == before + [CR] && input[..|before|] == before;
    assert (before + [CR])[..|before|] == before;
  }

  lemma {:induction false} LineFeedsBefore(before: Text, line: Text)
    requires LF !in line
    ensures CountLf(before + line) == CountLf(before)
  {
    if line == [] {
      assert before + line == before;
    } else {
      var init := line[..|line| - 1];
      assert (before + line)[..|before + line| - 1] == before + init;
      LineFeedsBefore(before, init);
    }
  }

  /** Each line feed counts. */
  lemma LineFeedCounts(s: Text)
    ensures CountLf([]) == 0 && CountLf(s + [LF]) == CountLf(s) + 1
  {
    assert (s + [LF])[..|s|] == s;
  }

  /** No CR+LF is cut in two. */
  predicate Boundary(input: Text, pos: nat) {
    pos <= |input| && !(0 < pos < |input| && input[pos - 1] == CR && input[pos] == LF)
  }

  /** What ReadChar has delivered when it has consumed `pos` bytes. */
  function Delivered(input: Text, pos: nat): Text
    requires pos <= |input|
  {
    if pos == 0 then []
    else if pos > 1 && input[pos - 1] == LF && input[pos - 2] == CR then Delivered(input, pos - 2) + [LF]
    else if pos == |input| && input[pos - 1] == CR then Delivered(input, pos - 1)
    else Delivered(input, pos - 1) + [input[pos - 1]]
  }

  /** The text with every CR+LF made LF and a final CR dropped. */
  function Normal(s: Text): Text {
    if s == [] || s == [CR] then []
    else if s[0] == CR && s[1] == LF then [LF] + Normal(s[2..])
    else [s[0]] + Normal(s[1..])
  }

  lemma DeliveredStep(input: Text, from: nat, pos: nat)
    requires from < pos <= |input|
    requires Delivered(input, from) <= Delivered(input, pos)
    requires Normal(input[from..]) == Delivered(input, pos)[|Delivered(input, from)|..] + Normal(input[pos..])
    requires Delivered(input, from) + Normal(input[from..]) == Normal(input)
    ensures Delivered(input, pos) + Normal(input[pos..]) == Normal(input)
  {
    hide Delivered, Normal;
    var a, b := Delivered(input, from), Delivered(input, pos);
    assert b == a + b[|a|..];
    assert b + Normal(input[pos..]) == a + (b[|a|..] + Normal(input[pos..]));
  }

  lemma {:induction false} DeliveredThenNormal(input: Text, pos: nat)
    requires Boundary(input, pos)
    ensures Delivered(input, pos) + Normal(input[pos..]) == Normal(input)
  {
    if pos == 0 {
      assert input[0..] == input && Delivered(input, 0) == [];
    } else {
      var from := if pos > 1 && input[pos - 1] == LF && input[pos - 2] == CR then pos - 2 else pos - 1;
      DeliveredThenNormal(input, from);
      NormalStep(input, from, pos);
      DeliveredStep(input, from, pos);
    }
  }

  lemma NormalStep(input: Text, from: nat, pos: nat)
    requires Boundary(input, pos) && pos > 0
    requires from == if pos > 1 && input[pos - 1] == LF && input[pos - 2] == CR then pos - 2 else pos - 1
    ensures Delivered(input, from) <= Delivered(input, pos)
    ensures Normal(input[from..]) == Delivered(input, pos)[|Delivered(input, from)|..] + Normal(input[pos..])
  {
    var r, d := input[from..], Delivered(input, from);
    assert r[pos - from..] == input[pos..];
    if from == pos - 2 {
      assert Delivered(input, pos)[|d|..] == [LF];
    } else if pos == |input| && input[pos - 1] == CR {
      assert r == [CR] && input[pos..] == [] && Delivered(input, pos)[|d|..] == [];
    } else {
      assert Delivered(input, pos)[|d|..] == [r[0]];
    }
  }

  /** Read to the end, the reader has seen exactly the normalised input. */
  lemma AllDelivered(input: Text)
    ensures Delivered(input, |input|) == Normal(input)
  {
    DeliveredThenNormal(input, |input|);
  }

  // ----- messages

  datatype Message = Told(kind: Kind, line: int, column: int) | TooMany

  function Tell(input: Text, e: Event): Message
    requires e.unread <= |input|
  {
    var pos := |input| - e.unread;
    Told(e.kind, Line(input, pos), Column(input, pos))
  }

  /** A message gives the line first and the column second, of the place where the diagnostic was raised. */
  lemma ToldExactly(before: Text, line: Text, after: Text, kind: Kind)
    requires CR !in before + line + after && LF !in line && (before == [] || before[|before| - 1] == LF)
    ensures Tell(before + line + after, Event(kind, |after|)) == Told(kind, 1 + CountLf(before), 1 + |line|)
  {
    hide *;
    PositionIs(before, line, after);
    TellIs(before + line + after, |before| + |line|, Event(kind, |after|));
  }

  lemma TellIs(input: Text, pos: nat, e: Event)
    requires pos + e.unread == |input|
    ensures Tell(input, e) == Told(e.kind, Line(input, pos), Column(input, pos))
  {
  }

  predicate Within(input: Text, log: seq<Event>) {
    forall i :: 0 <= i < |log| ==> log[i].unread <= |input|
  }

  /** The message array for some events: at most `max` messages, then one that says there were too many. */
  function Report(input: Text, events: seq<Event>, max: int): seq<Message>
    requires Within(input, events)
  {
    if max < 0 then []
    else if |events| <= max then seq(|events|, i requires 0 <= i < |events| => Tell(input, events[i]))
    else seq(max, i requires 0 <= i < max => Tell(input, events[i])) + [TooMany]
  }

  /** Up to the limit every event has its message, in their order; beyond it there is one more, which says so. */
  lemma ReportExactly(input: Text, events: seq<Event>, max: nat)
    requires Within(input, events)
    ensures var ms := Report(input, events, max);
      && |ms| == (if |events| <= max then |events| else max + 1)
      && (forall i :: 0 <= i < |ms| && i < max ==> i < |events| && ms[i] == Tell(input, events[i]))
      && (|events| > max ==> ms[max] == TooMany)
  {
  }

  function Push(ms: seq<Message>, m: Message, max: int): seq<Message> {
    if |ms| < max then ms + [m] else if |ms| == max then ms + [TooMany] else ms
  }

  lemma ReportNote(input: Text, events: seq<Event>, e: Event, max: int)
    requires Within(input, events) && e.unread <= |input|
    ensures Push(Report(input, events, max), Tell(input, e), max) == Report(input, events + [e], max)
  {
  }
}
