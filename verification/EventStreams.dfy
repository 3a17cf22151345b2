/**
  Readers of one process's events, interleaved with its emitters: a step is what a reader does
  between two suspensions, or one emission.

  The legacy stream walks the live history and subscribes in the very step in which it finds
  the end of it. The Connect stream walks a copy of the history; what is emitted while it
  does is in neither the copy nor its queue.
 */
module EventStreams {
  import opened ProcessEvents

  type Reader = nat

  /** `k` is the length of the copy a Connect stream made, `m` the length of the history when
      the reader subscribed. */
  datatype Place =
    | Walking(i: nat)
    | Opened
    | Copied(copy: seq<Event>, i: nat)
    | Following(k: nat, m: nat, queue: seq<Event>)
    | Finished(k: nat, m: nat)

  datatype Stream = Stream(place: Place, seen: seq<Event>)

  datatype State = State(history: seq<Event>, streams: map<Reader, Stream>)

  datatype Label =
    | Emit(event: Event)
    | OpenLegacy(reader: Reader)
    | OpenConnect(reader: Reader)
    | Resume(reader: Reader)

  /** Reading one event: the stream stops at an end event. */
  function Read(st: Stream, event: Event, k: nat, m: nat, next: Place): Stream {
    Stream(if event.End? then Finished(k, m) else next, st.seen + [event])
  }

  function FromCopy(st: Stream, history: seq<Event>, copy: seq<Event>, i: nat): Stream {
    if i < |copy| then Read(st, copy[i], |copy|, |copy|, Copied(copy, i + 1))
    else Stream(Following(|copy|, |history|, []), st.seen)
  }

  function ResumeStream(st: Stream, history: seq<Event>): Stream {
    match st.place
    case Walking(i) =>
      if i < |history| then Read(st, history[i], i + 1, i + 1, Walking(i + 1))
      else Stream(Following(|history|, |history|, []), st.seen)
    case Opened => FromCopy(st, history, history, 0)
    case Copied(copy, i) => FromCopy(st, history, copy, i)
    case Following(k, m, queue) =>
      if queue == [] then st else Read(st, queue[0], k, m, Following(k, m, queue[1..]))
    case Finished(_, _) => st
  }

  function Deliver(st: Stream, event: Event): Stream {
    if st.place.Following? then st.(place := st.place.(queue := st.place.queue + [event])) else st
  }

  function Step(s: State, l: Label): State {
    match l
    case Emit(event) =>
      if (event.Data? && event.bytes == []) || (event.End? && HasEnd(s.history)) then s
      else State(s.history + [event], map r | r in s.streams :: Deliver(s.streams[r], event))
    case OpenLegacy(r) => if r in s.streams then s else s.(streams := s.streams[r := Stream(Walking(0), [])])
    case OpenConnect(r) => if r in s.streams then s else s.(streams := s.streams[r := Stream(Opened, [])])
    case Resume(r) => if r !in s.streams then s
        else s.(streams := s.streams[r := ResumeStream(s.streams[r], s.history)])
  }

  function Exec(s: State, run: seq<Label>): State {
    if run == [] then s else Step(Exec(s, run[..|run| - 1]), run[|run| - 1])
  }

  const Start := State([], map[])

  /** The events of the history that a reader with this copy and subscription is given. */
  function Given(history: seq<Event>, k: nat, m: nat): seq<Event>
    requires k <= m <= |history|
  {
    history[..k] + history[m..]
  }

  predicate EndsThere(events: seq<Event>) {
    |events| > 0 && events[|events| - 1].End? && !HasEnd(events[..|events| - 1])
  }

  ghost predicate StreamSound(history: seq<Event>, st: Stream) {
    match st.place
    case Walking(i) => i <= |history| && st.seen == history[..i] && !HasEnd(st.seen)
    case Opened => st.seen == []
    case Copied(copy, i) => copy <= history && i <= |copy| && st.seen == copy[..i] && !HasEnd(st.seen)
    case Following(k, m, queue) =>
      k <= m <= |history| && st.seen + queue == Given(history, k, m) && k <= |st.seen| && !HasEnd(st.seen)
    case Finished(k, m) =>
      k <= m <= |history| && st.seen <= Given(history, k, m) && EndsThere(st.seen) && (k == m || k < |st.seen|)
  }

  ghost predicate Sound(s: State) {
    AtMostOneEnd(s.history) && forall r :: r in s.streams ==> StreamSound(s.history, s.streams[r])
  }

  lemma HasEndAppend(events: seq<Event>, event: Event)
    ensures HasEnd(events + [event]) <==> HasEnd(events) || event.End?
  {
    var longer := events + [event];
    if HasEnd(events) {
      var i :| 0 <= i < |events| && events[i].End?;
      assert longer[i].End?;
    }
    if event.End? { assert longer[|events|].End?; }
    if HasEnd(longer) && !event.End? {
      var i :| 0 <= i < |longer| && longer[i].End?;
      assert events[i].End?;
    }
  }

  lemma ReadEnds(st: Stream, event: Event, k: nat, m: nat, next: Place)
    requires !HasEnd(st.seen)
    ensures event.End? ==> EndsThere(Read(st, event, k, m, next).seen)
    ensures !event.End? ==> !HasEnd(Read(st, event, k, m, next).seen)
  {
    HasEndAppend(st.seen, event);
    assert (st.seen + [event])[..|st.seen|] == st.seen;
  }

  lemma ResumeKeepsSound(history: seq<Event>, st: Stream)
    requires StreamSound(history, st)
    ensures StreamSound(history, ResumeStream(st, history))
  {
    match st.place
    case Walking(i) =>
      if i < |history| {
        ReadEnds(st, history[i], i + 1, i + 1, Walking(i + 1));
        assert history[..i + 1] == history[..i] + [history[i]];
        assert history[..i + 1] <= Given(history, i + 1, i + 1);
      } else {
        assert history[..i] == history && st.seen + [] == Given(history, i, i);
      }
    case Opened => CopyKeepsSound(history, st, history, 0);
    case Copied(copy, i) => CopyKeepsSound(history, st, copy, i);
    case Following(k, m, queue) =>
      if queue != [] {
        ReadEnds(st, queue[0], k, m, Following(k, m, queue[1..]));
        assert (st.seen + [queue[0]]) + queue[1..] == st.seen + queue;
      }
    case Finished(_, _) =>
  }

  lemma CopyKeepsSound(history: seq<Event>, st: Stream, copy: seq<Event>, i: nat)
    requires copy <= history && i <= |copy| && st.seen == copy[..i] && !HasEnd(st.seen)
    ensures StreamSound(history, FromCopy(st, history, copy, i))
  {
    if i < |copy| {
      ReadEnds(st, copy[i], |copy|, |copy|, Copied(copy, i + 1));
      assert copy[..i + 1] == copy[..i] + [copy[i]];
      assert history[..|copy|] == copy;
    } else {
      assert st.seen == copy == history[..|copy|];
      assert st.seen + [] == Given(history, |copy|, |history|);
    }
  }

  lemma EmitKeepsSound(history: seq<Event>, st: Stream, event: Event)
    requires StreamSound(history, st)
    ensures StreamSound(history + [event], Deliver(st, event))
  {
    var longer := history + [event];
    match st.place
    case Walking(i) => assert longer[..i] == history[..i];
    case Opened =>
    case Copied(copy, i) =>
    case Following(k, m, queue) =>
      assert Given(longer, k, m) == Given(history, k, m) + [event];
      assert st.seen + (queue + [event]) == (st.seen + queue) + [event];
    case Finished(k, m) => assert Given(longer, k, m) == Given(history, k, m) + [event];
  }

  lemma StepKeepsSound(s: State, l: Label)
    requires Sound(s)
    ensures Sound(Step(s, l))
  {
    match l
    case Emit(event) =>
      if Step(s, l) != s {
        AppendKeepsOneEnd(s.history, event);
        forall r | r in s.streams ensures StreamSound(s.history + [event], Deliver(s.streams[r], event)) {
          EmitKeepsSound(s.history, s.streams[r], event);
        }
      }
    case OpenLegacy(_) => assert s.history[..0] == [];
    case OpenConnect(_) =>
    case Resume(r) => if r in s.streams { ResumeKeepsSound(s.history, s.streams[r]); }
  }

  /** For every interleaving: a reader that follows the process has been given, read or still
      queued, its copy of the history and then everything from its subscription on; a finished
      stream ends with the first end event it was given; and there is at most one end. */
  lemma {:induction false} EveryReaderIsSound(run: seq<Label>)
    ensures Sound(Exec(Start, run))
  {
    if run == [] {
    } else {
      EveryReaderIsSound(run[..|run| - 1]);
      StepKeepsSound(Exec(Start, run[..|run| - 1]), run[|run| - 1]);
    }
  }

  // ----- The history is what was emitted -----

  /** The events the run emits, in order. */
  function Emissions(run: seq<Label>): seq<Event> {
    if run == [] then []
    else Emissions(run[..|run| - 1]) + (if run[|run| - 1].Emit? then [run[|run| - 1].event] else [])
  }

  /** Without data that is empty, and without any end after the first. */
  function Counted(events: seq<Event>): seq<Event> {
    if events == [] then []
    else
      var front, e := events[..|events| - 1], events[|events| - 1];
      Counted(front) + (match e
                        case Data(_, bytes) => if bytes == [] then [] else [e]
                        case End(_, _) => if exists i :: 0 <= i < |front| && front[i].End? then [] else [e])
  }

  lemma {:induction false} CountedKeepsEnds(events: seq<Event>)
    ensures HasEnd(Counted(events)) <==> HasEnd(events)
  {
    if events == [] {
    } else {
      var front, e := events[..|events| - 1], events[|events| - 1];
      CountedKeepsEnds(front);
      assert events == front + [e];
      HasEndAppend(front, e);
      HasEndAppend(Counted(front), e);
      assert Counted(front) + [] == Counted(front);
    }
  }

  /** For every run the history is exactly the events emitted, each as often as it was and in order,
      but for empty data and ends after the first. */
  lemma {:induction false} HistoryIsEmitted(run: seq<Label>)
    ensures Exec(Start, run).history == Counted(Emissions(run))
  {
    if run == [] {
    } else {
      var front, l := run[..|run| - 1], run[|run| - 1];
      HistoryIsEmitted(front);
      CountedKeepsEnds(Emissions(front));
      if l.Emit? {
        assert (Emissions(front) + [l.event])[..|Emissions(front)|] == Emissions(front);
      } else {
        assert Emissions(front) + [] == Emissions(front);
      }
    }
  }

  // ----- The legacy stream misses nothing -----

  ghost predicate Gapless(st: Stream) {
    st.place.Walking? || ((st.place.Following? || st.place.Finished?) && st.place.k == st.place.m)
  }

  lemma {:induction false} LegacyHasNoGap(run: seq<Label>, open: nat, r: Reader)
    requires open < |run| && run[open] == OpenLegacy(r) && r !in Exec(Start, run[..open]).streams
    ensures var s := Exec(Start, run); r in s.streams && Gapless(s.streams[r])
  {
    if open < |run| - 1 {
      var front := run[..|run| - 1];
      assert front[..open] == run[..open] && front[open] == run[open];
      LegacyHasNoGap(front, open, r);
    }
  }

  /** What a gapless reader has seen is the history from its beginning, once and in order. */
  ghost predicate SeesWholeHistory(history: seq<Event>, st: Stream) {
    && st.seen <= history
    && (st.place.Following? ==> st.seen + st.place.queue == history)
    && (st.place.Finished? <==> HasEnd(st.seen))
    && (st.place.Finished? ==> EndsThere(st.seen))
  }

  lemma GaplessSeesAll(history: seq<Event>, st: Stream)
    requires StreamSound(history, st) && Gapless(st)
    ensures SeesWholeHistory(history, st)
  {
    if st.place.Following? {
      assert Given(history, st.place.k, st.place.k) == history;
    } else if st.place.Finished? {
      assert Given(history, st.place.k, st.place.k) == history;
      assert st.seen[|st.seen| - 1].End?;
    }
  }

  /** The legacy stream, for every interleaving: at every point it has seen what the process emitted
      from the beginning; when it finishes it has seen it up to and including the end event. */
  lemma LegacySeesWholeHistory(run: seq<Label>, open: nat, r: Reader)
    requires open < |run| && run[open] == OpenLegacy(r) && r !in Exec(Start, run[..open]).streams
    ensures r in Exec(Start, run).streams
    ensures SeesWholeHistory(Counted(Emissions(run)), Exec(Start, run).streams[r])
  {
    HistoryIsEmitted(run);
    LegacyHasNoGap(run, open, r);
    EveryReaderIsSound(run);
    GaplessSeesAll(Exec(Start, run).history, Exec(Start, run).streams[r]);
  }

  // ----- The Connect stream misses exactly what was emitted while it replayed -----

  /** It is given the whole history exactly when nothing was emitted between its copy and its
      subscription. */
  lemma ConnectIsCompleteIff(run: seq<Label>, r: Reader)
    requires var s := Exec(Start, run); r in s.streams && s.streams[r].place.Following?
    ensures var s := Exec(Start, run); var st := s.streams[r];
            st.seen + st.place.queue == Counted(Emissions(run)) <==> st.place.k == st.place.m
  {
    EveryReaderIsSound(run);
    HistoryIsEmitted(run);
    var s := Exec(Start, run);
    var Following(k, m, _) := s.streams[r].place;
    assert |Given(s.history, k, m)| == k + (|s.history| - m);
    if k == m { assert Given(s.history, k, m) == s.history; }
  }

  /** And a stream that has finished has seen the history from its beginning up to the end, again
      exactly then. */
  lemma FinishedIsCompleteIff(run: seq<Label>, r: Reader)
    requires var s := Exec(Start, run); r in s.streams && s.streams[r].place.Finished?
    ensures var s := Exec(Start, run); var st := s.streams[r];
            EndsThere(st.seen) && (st.seen <= Counted(Emissions(run)) <==> st.place.k == st.place.m)
  {
    EveryReaderIsSound(run);
    HistoryIsEmitted(run);
    FinishedStream(Exec(Start, run).history, Exec(Start, run).streams[r]);
  }

  lemma FinishedStream(history: seq<Event>, st: Stream)
    requires AtMostOneEnd(history) && StreamSound(history, st) && st.place.Finished?
    ensures st.seen <= history <==> st.place.k == st.place.m
  {
    var Finished(k, m) := st.place;
    var n := |st.seen|;
    if k == m {
      assert Given(history, k, m) == history;
    } else {
      assert Given(history, k, m)[n - 1] == history[m + (n - 1 - k)];
      assert st.seen[n - 1] == Given(history, k, m)[n - 1];
      assert !history[n - 1].End?;
    }
  }

  /** The end event fell between the copy and the subscription. */
  ghost predicate LostEnd(s: State, r: Reader) {
    && r in s.streams && s.streams[r].place.Following?
    && s.streams[r].place.k <= s.streams[r].place.m <= |s.history|
    && HasEnd(s.history[s.streams[r].place.k..s.streams[r].place.m])
  }

  lemma NoSecondEnd(history: seq<Event>, k: nat, m: nat)
    requires AtMostOneEnd(history) && k <= m <= |history| && HasEnd(history[k..m])
    ensures !HasEnd(Given(history, k, m)) && HasEnd(history)
  {
    var i :| 0 <= i < m - k && history[k..m][i].End?;
    assert history[k + i].End?;
    forall j | 0 <= j < |Given(history, k, m)| ensures !Given(history, k, m)[j].End? {
      assert Given(history, k, m)[j] == history[if j < k then j else m + (j - k)];
    }
  }

  lemma StepKeepsLostEnd(s: State, l: Label, r: Reader)
    requires Sound(s) && LostEnd(s, r)
    ensures LostEnd(Step(s, l), r)
  {
    var Following(k, m, queue) := s.streams[r].place;
    NoSecondEnd(s.history, k, m);
    if l == Resume(r) && queue != [] {
      var given := s.streams[r].seen + queue;
      assert given[|s.streams[r].seen|] == queue[0];
    } else if l.Emit? && Step(s, l) != s {
      assert (s.history + [l.event])[k..m] == s.history[k..m];
    }
  }

  /** Then the stream never finishes, whatever happens later. */
  lemma {:induction false} LostEndNeverFinishes(run: seq<Label>, later: seq<Label>, r: Reader)
    requires LostEnd(Exec(Start, run), r)
    ensures LostEnd(Exec(Start, run + later), r)
  {
    if later == [] {
      assert run + later == run;
    } else {
      var front, last := later[..|later| - 1], later[|later| - 1];
      LostEndNeverFinishes(run, front, r);
      LostEndOneMore(run + front, last, r);
      assert run + later == (run + front) + [last];
    }
  }

  lemma LostEndOneMore(run: seq<Label>, l: Label, r: Reader)
    requires LostEnd(Exec(Start, run), r)
    ensures LostEnd(Exec(Start, run + [l]), r)
  {
    EveryReaderIsSound(run);
    StepKeepsLostEnd(Exec(Start, run), l, r);
    ExecAppend(Start, run, l);
  }

  lemma CopyIsRead(data: Event)
    requires data.Data? && data.bytes != []
    ensures Step(Step(Step(Start, Emit(data)), OpenConnect(0)), Resume(0))
            == State([data], map[0 := Stream(Copied([data], 1), [data])])
  {
    assert Step(Start, Emit(data)) == State([data], map[]);
    assert FromCopy(Stream(Opened, []), [data], [data], 0) == Stream(Copied([data], 1), [data]);
  }

  lemma EndIsMissed(data: Event, end: Event)
    requires data.Data? && end.End?
    ensures var s := State([data], map[0 := Stream(Copied([data], 1), [data])]);
            Step(Step(s, Emit(end)), Resume(0)) == State([data, end], map[0 := Stream(Following(1, 2, []), [data])])
  {
    var s := State([data], map[0 := Stream(Copied([data], 1), [data])]);
    assert Step(s, Emit(end)) == State([data, end], s.streams);
  }

  lemma FiveSteps(s: State, a: Label, b: Label, c: Label, d: Label, e: Label)
    ensures Exec(s, [a, b, c, d, e]) == Step(Step(Step(Step(Step(s, a), b), c), d), e)
  {
    ExecAppend(s, [], a);
    ExecAppend(s, [a], b);
    ExecAppend(s, [a, b], c);
    ExecAppend(s, [a, b, c], d);
    ExecAppend(s, [a, b, c, d], e);
    assert [] + [a] == [a] && [a] + [b] == [a, b] && [a, b] + [c] == [a, b, c] && [a, b, c] + [d] == [a, b, c, d]
           && [a, b, c, d] + [e] == [a, b, c, d, e];
  }

  /** And it does happen: a reader resumes into its copy, the process ends, and the reader
      subscribes after the end. */
  lemma EndCanBeLost() returns (run: seq<Label>)
    ensures LostEnd(Exec(Start, run), 0)
  {
    var data, end := Data(Stdout, [65]), End(0, "");
    run := [Emit(data), OpenConnect(0), Resume(0), Emit(end), Resume(0)];
    FiveSteps(Start, Emit(data), OpenConnect(0), Resume(0), Emit(end), Resume(0));
    CopyIsRead(data);
    EndIsMissed(data, end);
    assert [data, end][1..2] == [end];
    assert [end][0].End?;
  }

  lemma ExecAppend(s: State, run: seq<Label>, l: Label)
    ensures Exec(s, run + [l]) == Step(Exec(s, run), l)
  {
    assert (run + [l])[..|run|] == run;
  }

  // ----- Which streams can finish -----

  /** The process has ended, and the end is lost to the stream or will be when it subscribes. */
  ghost predicate DoomedStream(history: seq<Event>, st: Stream) {
    match st.place
    case Following(k, m, _) => k <= m <= |history| && HasEnd(history[k..m])
    case Copied(copy, _) => copy <= history && HasEnd(history) && !HasEnd(copy)
    case _ => false
  }

  ghost predicate Doomed(s: State, r: Reader) { r in s.streams && DoomedStream(s.history, s.streams[r]) }

  lemma HasEndConcat(a: seq<Event>, b: seq<Event>)
    ensures HasEnd(a + b) <==> HasEnd(a) || HasEnd(b)
  {
    if HasEnd(a) {
      var i :| 0 <= i < |a| && a[i].End?;
      assert (a + b)[i].End?;
    }
    if HasEnd(b) {
      var i :| 0 <= i < |b| && b[i].End?;
      assert (a + b)[|a| + i].End?;
    }
    if HasEnd(a + b) {
      var i :| 0 <= i < |a + b| && (a + b)[i].End?;
      assert if i < |a| then a[i].End? else b[i - |a|].End?;
    }
  }

  lemma EndBehind(history: seq<Event>, k: nat)
    requires k <= |history| && HasEnd(history) && !HasEnd(history[..k])
    ensures HasEnd(history[k..])
  {
    HasEndConcat(history[..k], history[k..]);
    assert history[..k] + history[k..] == history;
  }

  lemma StepKeepsDoomed(s: State, l: Label, r: Reader)
    requires Sound(s) && Doomed(s, r)
    ensures Doomed(Step(s, l), r)
  {
    if LostEnd(s, r) {
      StepKeepsLostEnd(s, l, r);
    } else if l == Resume(r) {
      var Copied(copy, i) := s.streams[r].place;
      if i < |copy| {
        assert !copy[i].End?;
      } else {
        assert s.history[..|copy|] == copy;
        EndBehind(s.history, |copy|);
        assert s.history[|copy|..|s.history|] == s.history[|copy|..];
      }
    } else if l.Emit? && Step(s, l) != s {
      HasEndAppend(s.history, l.event);
    }
  }

  /** What is still ahead of a reader. */
  function Ahead(history: seq<Event>, st: Stream): int {
    match st.place
    case Walking(i) => |history| - i
    case Opened => |history| + 1
    case Copied(copy, i) => |copy| - i
    case Following(_, _, queue) => |queue|
    case Finished(_, _) => 0
  }

  lemma EndInQueue(history: seq<Event>, st: Stream)
    requires StreamSound(history, st) && st.place.Following? && HasEnd(history) && !DoomedStream(history, st)
    ensures HasEnd(st.place.queue)
  {
    var Following(k, m, queue) := st.place;
    assert st.seen[..k] + st.seen[k..] == st.seen;
    HasEndConcat(st.seen[..k], st.seen[k..]);
    assert (st.seen + queue)[..k] == st.seen[..k] && Given(history, k, m)[..k] == history[..k];
    EndBehind(history, k);
    assert history[k..m] + history[m..] == history[k..];
    HasEndConcat(history[k..m], history[m..]);
    HasEndConcat(history[..k], history[m..]);
    HasEndConcat(st.seen, queue);
  }

  ghost predicate Nearer(history: seq<Event>, st: Stream, st': Stream) {
    !DoomedStream(history, st') && (st'.place.Finished? || 0 <= Ahead(history, st') < Ahead(history, st))
  }

  lemma WalkComesNearer(history: seq<Event>, st: Stream)
    requires StreamSound(history, st) && HasEnd(history) && (st.place.Walking? || st.place.Opened?)
    ensures Nearer(history, st, ResumeStream(st, history))
  {
    assert history[..|history|] == history;
  }

  lemma CopyComesNearer(history: seq<Event>, st: Stream)
    requires StreamSound(history, st) && HasEnd(history) && st.place.Copied? && !DoomedStream(history, st)
    ensures Nearer(history, st, ResumeStream(st, history))
  {
    assert st.place.copy[..|st.place.copy|] == st.place.copy;
  }

  lemma QueueComesNearer(history: seq<Event>, st: Stream)
    requires StreamSound(history, st) && HasEnd(history) && st.place.Following? && !DoomedStream(history, st)
    ensures Nearer(history, st, ResumeStream(st, history))
  {
    EndInQueue(history, st);
  }

  /** A reader that is not doomed comes nearer to the end each time it resumes. */
  lemma ResumeComesNearer(history: seq<Event>, st: Stream)
    requires StreamSound(history, st) && HasEnd(history) && !DoomedStream(history, st) && !st.place.Finished?
    ensures Nearer(history, st, ResumeStream(st, history))
  {
    match st.place
    case Walking(_) => WalkComesNearer(history, st);
    case Opened => WalkComesNearer(history, st);
    case Copied(_, _) => CopyComesNearer(history, st);
    case Following(_, _, _) => QueueComesNearer(history, st);
  }

  lemma {:induction false} ResumesFinish(s: State, r: Reader) returns (more: seq<Label>)
    requires Sound(s) && r in s.streams && HasEnd(s.history) && !Doomed(s, r)
    ensures r in Exec(s, more).streams && Exec(s, more).streams[r].place.Finished?
    decreases if s.streams[r].place.Finished? then 0 else 1, Ahead(s.history, s.streams[r])
  {
    if s.streams[r].place.Finished? {
      more := [];
    } else {
      var next := Step(s, Resume(r));
      ResumeComesNearer(s.history, s.streams[r]);
      StepKeepsSound(s, Resume(r));
      var rest := ResumesFinish(next, r);
      more := [Resume(r)] + rest;
      ExecConcat(s, [Resume(r)], rest);
      ExecAppend(s, [], Resume(r));
      assert [] + [Resume(r)] == [Resume(r)];
    }
  }

  lemma {:induction false} ExecConcat(s: State, run: seq<Label>, more: seq<Label>)
    ensures Exec(s, run + more) == Exec(Exec(s, run), more)
  {
    if more == [] {
      assert run + more == run;
    } else {
      assert (run + more)[..|run + more| - 1] == run + more[..|more| - 1];
      ExecConcat(s, run, more[..|more| - 1]);
    }
  }

  lemma {:induction false} DoomedForever(s: State, r: Reader, more: seq<Label>)
    requires Sound(s) && Doomed(s, r)
    ensures Sound(Exec(s, more)) && Doomed(Exec(s, more), r)
  {
    if more == [] {
    } else {
      DoomedForever(s, r, more[..|more| - 1]);
      StepKeepsSound(Exec(s, more[..|more| - 1]), more[|more| - 1]);
      StepKeepsDoomed(Exec(s, more[..|more| - 1]), more[|more| - 1], r);
    }
  }

  /** Once the process has ended, a stream can still finish exactly when the end is neither lost to
      it nor missing from the copy it walks. */
  lemma CanFinishIff(run: seq<Label>, r: Reader)
    requires var s := Exec(Start, run); r in s.streams && HasEnd(s.history)
    ensures (exists more: seq<Label> :: Finishes(Exec(Start, run + more), r)) <==> !Doomed(Exec(Start, run), r)
  {
    var s := Exec(Start, run);
    EveryReaderIsSound(run);
    if Doomed(s, r) {
      forall more: seq<Label> ensures !Finishes(Exec(Start, run + more), r) {
        ExecConcat(Start, run, more);
        DoomedForever(s, r, more);
      }
    } else {
      var more := ResumesFinish(s, r);
      ExecConcat(Start, run, more);
      assert Finishes(Exec(Start, run + more), r);
    }
  }

  predicate Finishes(s: State, r: Reader) { r in s.streams && s.streams[r].place.Finished? }

  /** A reader with an event in front of it reads that event when it resumes, and no other. */
  lemma ResumeReadsNext(s: State, r: Reader)
    requires Sound(s) && r in s.streams
    ensures var before, after := s.streams[r], Step(s, Resume(r)).streams[r];
            match before.place
            case Walking(i) => after.seen == if i < |s.history| then before.seen + [s.history[i]] else before.seen
            case Opened => after.seen == if s.history != [] then [s.history[0]] else []
            case Copied(copy, i) => after.seen == if i < |copy| then before.seen + [copy[i]] else before.seen
            case Following(_, _, queue) => after.seen == if queue != [] then before.seen + [queue[0]] else before.seen
            case Finished(_, _) => after == before
    ensures forall other :: other in s.streams && other != r ==> Step(s, Resume(r)).streams[other] == s.streams[other]
  {
  }

}
