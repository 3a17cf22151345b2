/**
  The shell's reader listens on the Connect stream of the shell's process, which misses what is
  emitted between its copy of the history and its subscription. What it then makes of a command.
 */
module ShellOverConnect {
  import opened ConnectFraming
  import opened EventStreams
  import P = ProcessEvents
  import opened ShellReader
  import opened ShellSession
  import opened Text

  /** Bytes as the characters of the same number: the text is ASCII. */
  function Chars(bytes: Bytes): string { seq(|bytes|, i requires 0 <= i < |bytes| => bytes[i] as char) }

  /** What the reader takes from an event of the process. */
  function Heard(e: P.Event): ShellReader.Event {
    match e
    case Data(Stdout, bytes) => Out(Chars(bytes))
    case Data(Stderr, bytes) => Err(Chars(bytes))
    case Data(Pty, _) => Other
    case End(_, _) => Ended
  }

  function HeardAll(events: seq<P.Event>): seq<ShellReader.Event> {
    seq(|events|, i requires 0 <= i < |events| => Heard(events[i]))
  }

  /** What the process printed. */
  function TextOf(events: seq<P.Event>): string { OutText(HeardAll(events)) }

  lemma {:induction false} TextConcat(a: seq<P.Event>, b: seq<P.Event>)
    ensures TextOf(a + b) == TextOf(a) + TextOf(b)
  {
    if b == [] {
      assert a + b == a && TextOf(b) == "";
    } else {
      var front, last := b[..|b| - 1], b[|b| - 1];
      TextConcat(a, front);
      assert HeardAll(a + b)[..|a + b| - 1] == HeardAll(a + front) && HeardAll(b)[..|b| - 1] == HeardAll(front);
      Assoc(TextOf(a), TextOf(front), OutOf(Heard(last)));
    }
  }

  /** The events a reader that follows the process has been given. */
  function GivenTo(s: EventStreams.State, r: EventStreams.Reader): seq<P.Event>
    requires r in s.streams && s.streams[r].place.Following?
  {
    s.streams[r].seen + s.streams[r].place.queue
  }

  /** They print what the process printed before the copy and after the subscription. */
  lemma GivenText(run: seq<EventStreams.Label>, r: EventStreams.Reader)
    requires var s := Exec(Start, run); r in s.streams && s.streams[r].place.Following?
    ensures var s := Exec(Start, run); var st := s.streams[r].place;
            st.k <= st.m <= |s.history|
                && TextOf(GivenTo(s, r)) == TextOf(s.history[..st.k]) + TextOf(s.history[st.m..])
  {
    EveryReaderIsSound(run);
    var s := Exec(Start, run);
    TextConcat(s.history[..s.streams[r].place.k], s.history[s.streams[r].place.m..]);
  }

  /** The reader has its result exactly when a start marker and an end marker after it are in what is
      left of the text around the gap. */
  lemma CompletesIff(run: seq<EventStreams.Label>, r: EventStreams.Reader, c: Command)
    requires var s := Exec(Start, run); r in s.streams && s.streams[r].place.Following?
    requires PlainId(c.id) && !ExitedFirst(HeardAll(GivenTo(Exec(Start, run), r)), MarkersOf(c))
    ensures var s := Exec(Start, run); var st := s.streams[r].place;
            st.k <= st.m <= |s.history| &&
            (After(HeardAll(GivenTo(s, r)), MarkersOf(c)).Stopped? <==>
             EndPos(TextOf(s.history[..st.k]) + TextOf(s.history[st.m..]), MarkersOf(c)) >= 0)
  {
    GivenText(run, r);
    MarkerFacts(c.id);
    ResultIsBetweenMarkers(HeardAll(GivenTo(Exec(Start, run), r)), MarkersOf(c));
  }

  /** The text `kept` in front of the gap and `rest` behind it, of a text with a command in it. */
  lemma GapBehind(kept: string, gap: string, rest: string, before: string, c: Command, later: string)
      returns (tail: string)
    requires kept + gap + rest == before + Printed(c) + later && |kept| >= |before| + |Printed(c)|
    ensures kept + rest == before + Printed(c) + tail
  {
    var head := before + Printed(c);
    Assoc(kept, gap, rest);
    assert (kept + (gap + rest))[..|head|] == kept[..|head|] && (head + later)[..|head|] == head;
    tail := kept[|head|..] + rest;
    assert kept == head + kept[|head|..];
    Assoc(head, kept[|head|..], rest);
  }

  lemma GapInFront(kept: string, gap: string, rest: string, before: string, c: Command, later: string)
    requires kept + gap + rest == before + Printed(c) + later && |kept| + |gap| <= |before|
    ensures kept + rest == (kept + before[|kept| + |gap|..]) + Printed(c) + later
  {
    var n := |kept| + |gap|;
    DropFront(kept + gap, rest);
    Assoc(before, Printed(c), later);
    assert (before + (Printed(c) + later))[n..] == before[n..] + (Printed(c) + later);
    Assoc(kept, before[n..], Printed(c) + later);
    Assoc(kept + before[n..], Printed(c), later);
  }

  /** What is left in front of the command. */
  function BeforeLeft(history: seq<P.Event>, k: nat, m: nat, before: string): string
    requires k <= m <= |history|
  {
    if |TextOf(history[..m])| <= |before| then TextOf(history[..k]) + before[|TextOf(history[..m])|..] else before
  }

  lemma HistoryText(history: seq<P.Event>, k: nat, m: nat)
    requires k <= m <= |history|
    ensures TextOf(history) == TextOf(history[..k]) + TextOf(history[k..m]) + TextOf(history[m..])
    ensures TextOf(history[..m]) == TextOf(history[..k]) + TextOf(history[k..m])
  {
    assert history[..k] + history[k..m] == history[..m] && history[..m] + history[m..] == history;
    TextConcat(history[..k], history[k..m]);
    TextConcat(history[..m], history[m..]);
  }

  /** When the gap ends before the command's text or starts behind it, the reader gets the command's
      own output and status, as if it had been given everything. */
  lemma GapMissesCommand(run: seq<EventStreams.Label>, r: EventStreams.Reader, before: string, c: Command,
      later: string)
    requires var s := Exec(Start, run); r in s.streams && s.streams[r].place.Following?
    requires !ExitedFirst(HeardAll(GivenTo(Exec(Start, run), r)), MarkersOf(c))
    requires TextOf(Exec(Start, run).history) == before + Printed(c) + later
    requires var s := Exec(Start, run); var st := s.streams[r].place;
             && st.k <= st.m <= |s.history|
             && (|TextOf(s.history[..st.m])| <= |before| || |TextOf(s.history[..st.k])| >= |before| + |Printed(c)|)
             && Isolated(BeforeLeft(s.history, st.k, st.m, before), c)
    ensures var s := Exec(Start, run); var st := s.streams[r].place;
            var front, events, marks := BeforeLeft(s.history, st.k, st.m, before), HeardAll(GivenTo(s, r)),
                MarkersOf(c);
            var p := After(events, marks);
            && p.Stopped? && p.outcome.Completed?
            && p.outcome.stdout == (if |AtStart(events, marks)| > |front| + |marks.start| then c.output
                else "\n" + c.output)
            && (p.outcome.exitCode == c.status <==> |AtEnd(events, marks)| >= ReachOfStatus(front, c) || c.status == 0)
  {
    var s := Exec(Start, run);
    var st := s.streams[r].place;
    GivenText(run, r);
    HistoryText(s.history, st.k, st.m);
    var kept, gap, rest := TextOf(s.history[..st.k]), TextOf(s.history[st.k..st.m]), TextOf(s.history[st.m..]);
    var front, events := BeforeLeft(s.history, st.k, st.m, before), HeardAll(GivenTo(s, r));
    var tail := later;
    if |kept| + |gap| <= |before| {
      GapInFront(kept, gap, rest, before, c, later);
    } else {
      tail := GapBehind(kept, gap, rest, before, c, later);
    }
    CommandGetsItsOutput(events, front, c, tail);
    CommandGetsItsStatusIff(events, front, c, tail);
  }

  /** When what is left holds no start marker, the reader waits for ever, or until the shell exits. */
  lemma GapTakesStart(run: seq<EventStreams.Label>, r: EventStreams.Reader, c: Command)
    requires var s := Exec(Start, run); r in s.streams && s.streams[r].place.Following?
    requires PlainId(c.id) && !ExitedFirst(HeardAll(GivenTo(Exec(Start, run), r)), MarkersOf(c))
    requires !Contains(TextOf(GivenTo(Exec(Start, run), r)), StartMarker(c.id))
    ensures After(HeardAll(GivenTo(Exec(Start, run), r)), MarkersOf(c)).Reading?
  {
    CompletesIff(run, r, c);
    GivenText(run, r);
    FindMeaning(TextOf(GivenTo(Exec(Start, run), r)), StartMarker(c.id));
  }

  /** Only what the process prints to its output is the text, byte by byte. */
  lemma TextIsOutput(bytes: Bytes, e: P.Event)
    ensures TextOf([P.Data(P.Stdout, bytes)]) == Chars(bytes)
    ensures !(e.Data? && e.kind.Stdout?) ==> TextOf([e]) == ""
    ensures Heard(P.Data(P.Stderr, bytes)) == Err(Chars(bytes)) && (e.End? <==> Heard(e) == Ended)
  {
    TextOfOne(P.Data(P.Stdout, bytes));
    TextOfOne(e);
  }

  lemma TextOfOne(e: P.Event)
    ensures TextOf([e]) == OutOf(Heard(e))
  {
    var heard := HeardAll([e]);
    assert heard[..|heard| - 1] == [] && heard[|heard| - 1] == Heard(e);
    assert OutText(heard) == OutText([]) + OutOf(Heard(e));
    assert "" + OutOf(Heard(e)) == OutOf(Heard(e));
  }

}
