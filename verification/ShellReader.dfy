/**
  One command's output, cut out of a shared shell's event stream by the markers that its script
  prints before and after the command.
 */
module ShellReader {
  import opened Text

  datatype Event = Out(text: string) | Err(text: string) | Other | Ended

  /** The command's result, or the errors for a shell that exited and a stream that closed. */
  datatype Outcome = Completed(exitCode: int, stdout: string, stderr: string) | ShellExited | StreamClosed

  datatype Markers = Markers(start: string, end: string)

  function LeadingNewline(s: string): (k: nat)
    ensures k <= |s|
  {
    if "\r\n" <= s then 2 else if "\n" <= s then 1 else 0
  }

  function StripOneLeadingNewline(s: string): string { s[LeadingNewline(s)..] }

  /** The longest run of digits at the front. */
  function DigitRun(s: string): (d: string)
    ensures forall i :: 0 <= i < |d| ==> IsDigit(d[i])
  {
    if s != "" && IsDigit(s[0]) then [s[0]] + DigitRun(s[1..]) else ""
  }

  /** The number after the end marker, or zero when there is none. */
  function ExitCode(tail: string): int {
    var s := Strip(tail);
    if s != "" && s[0] == '-' then 0 - (ToNat(DigitRun(s[1..])) as int) else ToNat(DigitRun(s))
  }

  datatype Reader = Reader(accum: string, seen: bool, errors: string)

  datatype Progress = Reading(reader: Reader) | Stopped(outcome: Outcome)

  /** The text after the first start marker. */
  function Body(text: string, m: Markers): string
    requires Find(text, m.start) >= 0
  {
    text[Find(text, m.start) + |m.start|..]
  }

  function OnOut(r: Reader, text: string, m: Markers): Progress {
    var grown := r.accum + text;
    if r.seen then AwaitEnd(grown, m, r.errors)
    else if Find(grown, m.start) >= 0 then AwaitEnd(StripOneLeadingNewline(Body(grown, m)), m, r.errors)
    else Reading(Reader(grown, false, r.errors))
  }

  function AwaitEnd(accum: string, m: Markers, errors: string): Progress {
    var end := Find(accum, m.end);
    if end >= 0 then Stopped(Completed(ExitCode(accum[end + |m.end|..]), accum[..end], errors))
    else Reading(Reader(accum, true, errors))
  }

  function OnEvent(r: Reader, e: Event, m: Markers): Progress {
    match e
    case Out(text) => if text == "" then Reading(r) else OnOut(r, text, m)
    case Err(text) => if r.seen then Reading(r.(errors := r.errors + text)) else Reading(r)
    case Other => Reading(r)
    case Ended => Stopped(ShellExited)
  }

  function After(events: seq<Event>, m: Markers): Progress {
    if events == [] then Reading(Reader("", false, ""))
    else
      match After(events[..|events| - 1], m)
      case Reading(r) => OnEvent(r, events[|events| - 1], m)
      case Stopped(o) => Stopped(o)
  }

  /** The read loop. */
  method CollectShellCommandResult(events: seq<Event>, startMarker: string,
      endMarker: string) returns (outcome: Outcome)
    ensures var p := After(events, Markers(startMarker, endMarker));
            outcome == if p.Stopped? then p.outcome else StreamClosed
  {
    var stdoutAccum, stderrChunks, seenStart := "", "", false;
    var m := Markers(startMarker, endMarker);
    for i := 0 to |events|
      invariant After(events[..i], m) == Reading(Reader(stdoutAccum, seenStart, stderrChunks))
    {
      ghost var r := Reader(stdoutAccum, seenStart, stderrChunks);
      AfterOneMore(events, i, m, r);
      if events[i].Out? && events[i].text != "" {
        stdoutAccum := stdoutAccum + events[i].text;
        if !seenStart {
          var idx := Find(stdoutAccum, startMarker);
          if idx >= 0 {
            seenStart := true;
            stdoutAccum := StripOneLeadingNewline(Body(stdoutAccum, m));
          }
        }
        if seenStart {
          assert OnEvent(r, events[i], m) == AwaitEnd(stdoutAccum, m, stderrChunks);
          var awaited := AwaitEnd(stdoutAccum, m, stderrChunks);
          if awaited.Stopped? {
            return awaited.outcome;
          }
        }
      }
      if events[i].Err? && seenStart {
        stderrChunks := stderrChunks + events[i].text;
      }
      if events[i].Ended? {
        return ShellExited;
      }
    }
    assert events[..|events|] == events;
    return StreamClosed;
  }

  lemma AfterOneMore(events: seq<Event>, i: nat, m: Markers, r: Reader)
    requires i < |events| && After(events[..i], m) == Reading(r)
    ensures After(events[..i + 1], m) == OnEvent(r, events[i], m)
    ensures OnEvent(r, events[i], m).Stopped? ==> After(events, m) == OnEvent(r, events[i], m)
  {
    assert events[..i + 1][..i] == events[..i] && events[..i + 1][i] == events[i];
    AfterStops(events, i + 1, m);
  }

  lemma {:induction false} AfterStops(events: seq<Event>, n: nat, m: Markers)
    requires n <= |events|
    ensures After(events[..n], m).Stopped? ==> After(events, m) == After(events[..n], m)
  {
    if n < |events| {
      AfterStops(events[..|events| - 1], n, m);
      assert events[..|events| - 1][..n] == events[..n];
    } else {
      assert events[..n] == events;
    }
  }

  // ----- The text between the markers -----

  /** Markers are not empty, and the end marker does not start with a newline. */
  predicate Proper(m: Markers) { m.start != "" && m.end != "" && m.end[0] !in {'\r', '\n'} }

  /** Where in the body the first end marker is, or -1. */
  function EndPos(text: string, m: Markers): (j: int)
    ensures j >= 0 ==> Find(text, m.start) >= 0 && OccursAt(Body(text, m), m.end, j)
  {
    if Find(text, m.start) >= 0 then Find(Body(text, m), m.end) else -1
  }

  /** What follows the first end marker. */
  function Tail(text: string, m: Markers): string
    requires EndPos(text, m) >= 0
  {
    Body(text, m)[EndPos(text, m) + |m.end|..]
  }

  predicate Newlines(s: string) { forall i :: 0 <= i < |s| ==> s[i] in {'\r', '\n'} }

  /** What the reader holds after the text: all of it, or the body less `k` newline characters. */
  predicate Tracks(text: string, k: nat, m: Markers, r: Reader) {
    && r.seen == (Find(text, m.start) >= 0)
    && (!r.seen ==> r.accum == text)
    && (r.seen ==> k <= |Body(text, m)| && Newlines(Body(text, m)[..k]) && r.accum == Body(text, m)[k..])
    && EndPos(text, m) < 0
  }

  /** The result from the text: what lies between the markers, less `k` newline characters, and
      the number after the end marker. */
  predicate Cut(text: string, k: nat, m: Markers, exitCode: int, stdout: string) {
    var j := EndPos(text, m);
    k <= j && stdout == Body(text, m)[k..j] && exitCode == ExitCode(Tail(text, m))
  }

  lemma BodyGrows(text: string, more: string, m: Markers)
    requires Find(text, m.start) >= 0
    ensures Find(text + more, m.start) == Find(text, m.start)
    ensures Body(text + more, m) == Body(text, m) + more
    ensures EndPos(text, m) >= 0 ==> EndPos(text + more, m) == EndPos(text, m)
  {
    FindGrows(text, more, m.start);
    if EndPos(text, m) >= 0 { FindGrows(Body(text, m), more, m.end); }
  }

  lemma EndPosGrows(arrived: string, text: string, m: Markers)
    requires arrived <= text && EndPos(arrived, m) >= 0
    ensures EndPos(text, m) == EndPos(arrived, m)
    ensures Body(arrived, m) <= Body(text, m)
  {
    var more := text[|arrived|..];
    assert text == arrived + more;
    BodyGrows(arrived, more, m);
  }

  lemma TailGrows(arrived: string, text: string, m: Markers)
    requires arrived <= text && EndPos(arrived, m) >= 0
    ensures EndPos(text, m) >= 0 && Tail(text, m) == Tail(arrived, m) + text[|arrived|..]
  {
    var more := text[|arrived|..];
    assert text == arrived + more;
    BodyGrows(arrived, more, m);
    var n := EndPos(arrived, m) + |m.end|;
    assert (Body(arrived, m) + more)[n..] == Body(arrived, m)[n..] + more;
  }

  /** Dropping newline characters moves the end marker, and hides none. */
  lemma DropKeepsEnd(body: string, k: nat, m: Markers)
    requires Proper(m) && k <= |body| && Newlines(body[..k])
    ensures Find(body, m.end) == if Find(body[k..], m.end) < 0 then -1 else k + Find(body[k..], m.end)
  {
    var head, tail := body[..k], body[k..];
    assert body == head + tail;
    forall i: nat | i < k ensures !OccursAt(head + tail, m.end, i) {
      if i + |m.end| <= |body| { assert body[i..i + |m.end|][0] == head[i]; }
    }
    FindBehind(head, tail, m.end);
  }

  /** Looking for the end marker in the body less its dropped newline. */
  lemma AwaitMeaning(text: string, k: nat, m: Markers, errors: string)
    requires Proper(m) && Find(text, m.start) >= 0 && k <= |Body(text, m)| && Newlines(Body(text, m)[..k])
    ensures match AwaitEnd(Body(text, m)[k..], m, errors)
            case Reading(r) => Tracks(text, k, m, r) && r.errors == errors
            case Stopped(o) => o.Completed? && Cut(text, k, m, o.exitCode, o.stdout) && o.stderr == errors
  {
    var body := Body(text, m);
    DropKeepsEnd(body, k, m);
    var end := Find(body[k..], m.end);
    if end >= 0 {
      assert body[k..][..end] == body[k..k + end];
      assert body[k..][end + |m.end|..] == body[k + end + |m.end|..];
    }
  }

  /** The newline that one more piece of text drops, if it completes the start marker. */
  function DropNow(text: string, m: Markers): nat {
    if Find(text, m.start) >= 0 then LeadingNewline(Body(text, m)) else 0
  }

  /** More text, once the start marker is there. */
  lemma MoreBody(text: string, k: nat, m: Markers, r: Reader, more: string)
    requires Proper(m) && Tracks(text, k, m, r) && r.seen
    ensures match OnOut(r, more, m)
            case Reading(r') => Tracks(text + more, k, m, r') && r'.errors == r.errors
            case Stopped(o) => o.Completed? && Cut(text + more, k, m, o.exitCode, o.stdout) && o.stderr == r.errors
  {
    BodyGrows(text, more, m);
    var body := Body(text, m);
    assert (body + more)[..k] == body[..k] && (body + more)[k..] == body[k..] + more;
    AwaitMeaning(text + more, k, m, r.errors);
  }

  lemma DroppedAreNewlines(s: string)
    ensures Newlines(s[..LeadingNewline(s)])
  {
  }

  /** More text, while the start marker is awaited. */
  lemma MoreText(text: string, k: nat, m: Markers, r: Reader, more: string)
    requires Proper(m) && Tracks(text, k, m, r) && !r.seen
    ensures match OnOut(r, more, m)
            case Reading(r') => Tracks(text + more, DropNow(text + more, m), m, r') && r'.errors == r.errors
            case Stopped(o) =>
              o.Completed? && Cut(text + more, DropNow(text + more, m), m, o.exitCode, o.stdout) && o.stderr == r.errors
  {
    var grown := text + more;
    assert r.accum + more == grown;
    if Find(grown, m.start) >= 0 {
      DroppedAreNewlines(Body(grown, m));
      AwaitMeaning(grown, DropNow(grown, m), m, r.errors);
      assert OnOut(r, more, m) == AwaitEnd(Body(grown, m)[DropNow(grown, m)..], m, r.errors);
    } else {
      assert OnOut(r, more, m) == Reading(Reader(grown, false, r.errors));
    }
  }

  // ----- Over the events -----

  function OutOf(e: Event): string { if e.Out? then e.text else "" }

  function OutText(events: seq<Event>): string {
    if events == [] then "" else OutText(events[..|events| - 1]) + OutOf(events[|events| - 1])
  }

  /** The stdout text that had arrived when the start marker was complete. */
  function AtStart(events: seq<Event>, m: Markers): string {
    if events == [] || Find(OutText(events[..|events| - 1]), m.start) < 0 then OutText(events)
    else AtStart(events[..|events| - 1], m)
  }

  /** The stdout text that had arrived when the end marker was complete too. */
  function AtEnd(events: seq<Event>, m: Markers): string {
    if events == [] || EndPos(OutText(events[..|events| - 1]), m) < 0 then OutText(events)
    else AtEnd(events[..|events| - 1], m)
  }

  /** The error text that arrived after the start marker was complete and before the end marker was. */
  function ErrBetween(events: seq<Event>, m: Markers): string {
    if events == [] then ""
    else
      var front, e := events[..|events| - 1], events[|events| - 1];
      ErrBetween(front, m)
      + (if e.Err? && Find(OutText(front), m.start) >= 0 && EndPos(OutText(front), m) < 0 then e.text else "")
  }

  /** The shell exited before the end marker was complete. */
  predicate ExitedFirst(events: seq<Event>, m: Markers) {
    exists n :: 0 <= n < |events| && events[n].Ended? && EndPos(OutText(events[..n]), m) < 0
  }

  lemma {:induction false} ArrivedIsPrefix(events: seq<Event>, m: Markers)
    ensures AtStart(events, m) <= OutText(events) && AtEnd(events, m) <= OutText(events)
    ensures Find(OutText(events), m.start) >= 0 ==> Find(AtStart(events, m), m.start) >= 0
    ensures EndPos(OutText(events), m) >= 0 ==> EndPos(AtEnd(events, m), m) >= 0
  {
    if events == [] {
    } else {
      ArrivedIsPrefix(events[..|events| - 1], m);
    }
  }

  ghost predicate Meaning(events: seq<Event>, m: Markers, p: Progress) {
    var k := DropNow(AtStart(events, m), m);
    match p
    case Reading(r) => Tracks(OutText(events), k, m, r) && r.errors == ErrBetween(events, m) && !ExitedFirst(events, m)
    case Stopped(Completed(exitCode, stdout, stderr)) =>
      Cut(AtEnd(events, m), k, m, exitCode, stdout) && stderr == ErrBetween(events, m) && !ExitedFirst(events, m)
    case Stopped(ShellExited) => ExitedFirst(events, m)
    case Stopped(StreamClosed) => false
  }

  lemma ExitedFirstAppend(events: seq<Event>, e: Event, m: Markers)
    ensures ExitedFirst(events + [e], m) <==> ExitedFirst(events, m) || (e.Ended? && EndPos(OutText(events), m) < 0)
  {
    var longer := events + [e];
    assert longer[..|events|] == events && longer[|events|] == e;
    forall n | 0 <= n < |events| ensures longer[..n] == events[..n] && longer[n] == events[n] {}
    if ExitedFirst(events, m) {
      var n :| 0 <= n < |events| && events[n].Ended? && EndPos(OutText(events[..n]), m) < 0;
      assert longer[n].Ended? && longer[..n] == events[..n];
    }
  }

  lemma ReadingMeaning(front: seq<Event>, e: Event, m: Markers, r: Reader)
    requires Proper(m) && Meaning(front, m, Reading(r))
    ensures Meaning(front + [e], m, OnEvent(r, e, m))
  {
    var events := front + [e];
    assert events[..|front|] == front && events[|front|] == e;
    ExitedFirstAppend(front, e, m);
    var text := OutText(front);
    if e.Out? && e.text != "" {
      if r.seen {
        MoreBody(text, DropNow(AtStart(front, m), m), m, r, e.text);
      } else {
        MoreText(text, DropNow(AtStart(front, m), m), m, r, e.text);
      }
    } else {
      assert text + "" == text;
    }
  }

  /** For every split of the shell's output into events: the read loop reports that the shell
      exited exactly when it did before both markers had arrived; otherwise it completes exactly
      when they are both in the text, with the cut between them. */
  lemma {:induction false} EveryProgressMeans(events: seq<Event>, m: Markers)
    requires Proper(m)
    ensures Meaning(events, m, After(events, m))
  {
    if events == [] {
    } else {
      var front, e := events[..|events| - 1], events[|events| - 1];
      assert events == front + [e];
      EveryProgressMeans(front, m);
      match After(front, m)
      case Reading(r) => ReadingMeaning(front, e, m, r);
      case Stopped(o) =>
        ExitedFirstAppend(front, e, m);
        ArrivedIsPrefix(front, m);
        if o.Completed? { StaysCut(front, m); }
    }
  }

  /** Once the end marker has arrived, nothing that follows is looked at. */
  lemma StaysCut(front: seq<Event>, m: Markers)
    requires EndPos(AtEnd(front, m), m) >= 0
    ensures EndPos(OutText(front), m) >= 0
  {
    ArrivedIsPrefix(front, m);
    EndPosGrows(AtEnd(front, m), OutText(front), m);
  }

  lemma CutGrows(arrived: string, text: string, k: nat, m: Markers, exitCode: int, stdout: string)
    requires arrived <= text && Cut(arrived, k, m, exitCode, stdout)
    ensures var j := EndPos(text, m); k <= j && stdout == Body(text, m)[k..j]
  {
    EndPosGrows(arrived, text, m);
    assert Body(text, m)[..|Body(arrived, m)|] == Body(arrived, m);
  }

  /** The result depends only on the text: it is complete exactly when the text holds a start
      marker and an end marker after it, and its stdout is what lies between the first of each,
      up to a leading newline, whatever the split. */
  lemma ResultIsBetweenMarkers(events: seq<Event>, m: Markers)
    requires Proper(m) && !ExitedFirst(events, m)
    ensures After(events, m).Stopped? <==> EndPos(OutText(events), m) >= 0
    ensures After(events, m).Stopped? ==>
              var j := EndPos(OutText(events), m);
              var k := DropNow(AtStart(events, m), m);
              && After(events, m).outcome.Completed? && k <= j
              && After(events, m).outcome.stdout == Body(OutText(events), m)[k..j]
              && After(events, m).outcome.stderr == ErrBetween(events, m)
  {
    EveryProgressMeans(events, m);
    var p := After(events, m);
    if p.Stopped? {
      ArrivedIsPrefix(events, m);
      CutGrows(AtEnd(events, m), OutText(events), DropNow(AtStart(events, m), m), m, p.outcome.exitCode,
          p.outcome.stdout);
    }
  }

  /** One newline in front is dropped, in either form, and nothing else. */
  lemma OneNewlineIsDropped(s: string)
    ensures StripOneLeadingNewline("\r\n" + s) == s && StripOneLeadingNewline("\n" + s) == s
    ensures (s == "" || s[0] !in {'\r', '\n'}) ==> StripOneLeadingNewline(s) == s
    ensures |s| >= 2 && s[0] == '\r' && s[1] != '\n' ==> StripOneLeadingNewline(s) == s
  {
    assert ("\n" + s)[0] == '\n';
    assert ("\n" + s)[1..] == s && ("\r\n" + s)[2..] == s;
  }

  lemma {:induction false} AllDigits(d: string)
    requires forall k :: 0 <= k < |d| ==> IsDigit(d[k])
    ensures DigitRun(d) == d
  {
    if d == "" {
    } else {
      AllDigits(d[1..]);
      assert [d[0]] + d[1..] == d;
    }
  }

  /** A number with a minus sign is a negative exit code, and a tail that starts with no number is zero. */
  lemma NegativeExitCode(n: nat, tail: string)
    ensures ExitCode("-" + FromNat(n)) + n == 0
    ensures Strip(tail) == "" || (!IsDigit(Strip(tail)[0]) && Strip(tail)[0] != '-') ==> ExitCode(tail) == 0
  {
    var d := FromNat(n);
    assert ("-" + d)[0] == '-' && ("-" + d)[|d|] == d[|d| - 1] && ("-" + d)[1..] == d;
    StripIsTrimmed("-" + d);
    AllDigits(d);
  }

}
