/**
  Commands run one after the other in one shell: what their scripts print, and that each reader
  gets its own command's output and exit code from the shared text.
 */
module ShellSession {
  import opened Text
  import opened ShellReader

  /** One command: its identifier, what it prints and the status it ends with. */
  datatype Command = Command(id: string, output: string, status: nat)

  const START_PREFIX := "__DAYTONA_CMD_START_"
  const END_PREFIX := "__DAYTONA_CMD_END_"

  function StartMarker(id: string): string { START_PREFIX + id + "__" }

  function EndMarker(id: string): string { END_PREFIX + id + "__" + ":" }

  function MarkersOf(c: Command): Markers { Markers(StartMarker(c.id), EndMarker(c.id)) }

  /** The line that carries the end marker and the status. */
  function LastLine(c: Command): string { c.output + EndMarker(c.id) + FromNat(c.status) }

  /** What the script of a command prints. */
  function Printed(c: Command): string { StartMarker(c.id) + "\n" + LastLine(c) + "\n" }

  function Transcript(commands: seq<Command>): string {
    if commands == [] then "" else Transcript(commands[..|commands| - 1]) + Printed(commands[|commands| - 1])
  }

  /** Identifiers are a fixed prefix and hexadecimal digits. */
  predicate PlainId(id: string) { '\n' !in id && ':' !in id }

  lemma MarkerFacts(id: string)
    requires PlainId(id)
    ensures '\n' !in StartMarker(id)
    ensures EndMarker(id)[|EndMarker(id)| - 1] == ':' && ':' !in EndMarker(id)[..|EndMarker(id)| - 1]
    ensures EndMarker(id)[0] == '_'
    ensures Proper(Markers(StartMarker(id), EndMarker(id)))
  {
    assert EndMarker(id)[..|EndMarker(id)| - 1] == END_PREFIX + id + "__";
    assert '\n' !in START_PREFIX && ':' !in END_PREFIX && '\n' !in "__" && ':' !in "__";
  }

  // ----- The exit code -----

  lemma {:induction false} DigitRunIs(s: string, d: string)
    requires d <= s && (forall i :: 0 <= i < |d| ==> IsDigit(d[i])) && (|d| < |s| ==> !IsDigit(s[|d|]))
    ensures DigitRun(s) == d
  {
    if d == "" {
    } else {
      DigitRunIs(s[1..], d[1..]);
    }
  }

  lemma {:induction false} RStripKeeps(s: string, i: nat)
    requires i < |s| && !IsSpace(s[i])
    ensures i < |RStrip(s)|
  {
    if IsSpace(s[|s| - 1]) {
      RStripKeeps(s[..|s| - 1], i);
    }
  }

  lemma ExitCodeOfDigits(tail: string, d: string)
    requires d <= tail && Digits(d) && (|d| < |tail| ==> !IsDigit(tail[|d|]))
    ensures ExitCode(tail) == ToNat(d)
  {
    assert tail[0] == d[0] && LStrip(tail) == tail;
    RStripPrefix(tail);
    RStripKeeps(tail, |d| - 1);
    DigitRunIs(Strip(tail), d);
  }

  /** The exit code is the printed status exactly when all of its digits had arrived together
      with the end marker, or it is zero. */
  lemma ExitCodeIsStatusIff(tail: string, status: nat, more: string)
    requires tail <= FromNat(status) + "\n" + more
    ensures ExitCode(tail) == status <==> |tail| >= |FromNat(status)| || status == 0
  {
    var digits := FromNat(status);
    var whole := digits + "\n" + more;
    if |tail| >= |digits| {
      assert whole[..|digits|] == digits;
      assert tail[..|digits|] == digits;
      if |digits| < |tail| { assert tail[|digits|] == whole[|digits|] == '\n'; }
      ExitCodeOfDigits(tail, digits);
    } else {
      assert tail == whole[..|tail|] == digits[..|tail|];
      ToNatMonotone(digits, |tail|);
      if tail == "" {
        assert ExitCode(tail) == 0;
      } else {
        ExitCodeOfDigits(tail, tail);
      }
    }
  }

  // ----- One command's text inside the shell's -----

  lemma StartIsFirst(before: string, id: string, rest: string)
    requires PlainId(id) && !Contains(before, StartMarker(id))
    requires before == "" || before[|before| - 1] == '\n'
    ensures Find(before + (StartMarker(id) + rest), StartMarker(id)) == |before|
  {
    var m, tail := StartMarker(id), StartMarker(id) + rest;
    MarkerFacts(id);
    forall i: nat | i < |before| ensures !OccursAt(before + tail, m, i) {
      if i + |m| <= |before| {
        OccursInExtension(before, tail, m, i);
      } else {
        OccursChars(before + tail, m, i, |before| - 1);
      }
    }
    FindBehind(before, tail, m);
    assert tail[0..|m|] == m;
    FirstIsFound(tail, m, 0);
  }

  lemma EndIsFirst(output: string, id: string, rest: string)
    requires PlainId(id) && !Contains(output, EndMarker(id))
    ensures Find("\n" + output + (EndMarker(id) + rest), EndMarker(id)) == 1 + |output|
  {
    var m, head, tail := EndMarker(id), "\n" + output, EndMarker(id) + rest;
    MarkerFacts(id);
    forall i: nat | i < |head| ensures !OccursAt(head + tail, m, i) {
      var whole := head + tail;
      OccursChars(whole, m, i, i);
      if i + |m| <= |head| {
        OccursInExtension(head, tail, m, i);
        if i > 0 { OccursBehind("\n", output, m, i - 1); }
      } else if i + |m| <= |whole| {
        var last := i + |m| - 1;
        OccursChars(whole, m, i, last);
        assert whole[last] == m[last - |head|] == m[..|m| - 1][last - |head|];
      }
    }
    FindBehind(head, tail, m);
    assert tail[0..|m|] == m;
    FirstIsFound(tail, m, 0);
  }

  /** The text after a command's start marker, in the shell's whole text. */
  function RestOf(c: Command, later: string): string {
    "\n" + c.output + (EndMarker(c.id) + (FromNat(c.status) + "\n" + later))
  }

  lemma Regroup(before: string, c: Command, later: string)
    ensures before + Printed(c) + later == before + (StartMarker(c.id) + RestOf(c, later))
  {
    var s, e, d := StartMarker(c.id), EndMarker(c.id), FromNat(c.status);
    assert (c.output + e + d) + "\n" + later == c.output + (e + (d + "\n" + later));
    assert Printed(c) + later == s + ("\n" + ((c.output + e + d) + "\n" + later));
    assert "\n" + (c.output + (e + (d + "\n" + later))) == RestOf(c, later);
  }

  /** The text before a command is whole lines, none with its start marker; and the command does
      not print its end marker itself. */
  ghost predicate Isolated(before: string, c: Command) {
    && PlainId(c.id) && !Contains(before, StartMarker(c.id)) && !Contains(c.output, EndMarker(c.id))
    && (before == "" || before[|before| - 1] == '\n')
  }

  /** Where the markers of a command are in the shell's whole text. */
  lemma CommandPlace(before: string, c: Command, later: string)
    requires Isolated(before, c)
    ensures var text, m := before + Printed(c) + later, MarkersOf(c);
            && Find(text, m.start) == |before|
            && Body(text, m) == RestOf(c, later)
            && EndPos(text, m) == 1 + |c.output|
  {
    Regroup(before, c, later);
    StartIsFirst(before, c.id, RestOf(c, later));
    BodyBehind(before, MarkersOf(c), RestOf(c, later));
    EndIsFirst(c.output, c.id, FromNat(c.status) + "\n" + later);
  }

  lemma BodyBehind(before: string, m: Markers, rest: string)
    requires Find(before + (m.start + rest), m.start) == |before|
    ensures Body(before + (m.start + rest), m) == rest
  {
    Assoc(before, m.start, rest);
    DropFront(before + m.start, rest);
  }

  /** The text that had arrived with the end marker reaches this far. */
  function ReachOfStatus(before: string, c: Command): nat {
    |before| + |StartMarker(c.id)| + 1 + |LastLine(c)|
  }

  /** For every split of the shell's text into events: the reader of this command gets its
      output, with the newline after the start marker in front exactly when an event ended
      between the two. */
  lemma CommandGetsItsOutput(events: seq<Event>, before: string, c: Command, later: string)
    requires Isolated(before, c)
    requires OutText(events) == before + Printed(c) + later && !ExitedFirst(events, MarkersOf(c))
    ensures var m := MarkersOf(c); var p := After(events, m);
            && p.Stopped? && p.outcome.Completed?
            && p.outcome.stdout == (if |AtStart(events, m)| > |before| + |m.start| then c.output else "\n" + c.output)
  {
    var m := MarkersOf(c);
    MarkerFacts(c.id);
    CommandPlace(before, c, later);
    ResultIsBetweenMarkers(events, m);
    ArrivedIsPrefix(events, m);
    StartArrived(before, c, later, AtStart(events, m));
    RestStarts(c, later);
  }

  /** And its exit code exactly when the status arrived whole with the end marker, or is zero. */
  lemma CommandGetsItsStatusIff(events: seq<Event>, before: string, c: Command, later: string)
    requires Isolated(before, c)
    requires OutText(events) == before + Printed(c) + later && !ExitedFirst(events, MarkersOf(c))
    ensures var m := MarkersOf(c); var p := After(events, m);
            && p.Stopped? && p.outcome.Completed?
            && (p.outcome.exitCode == c.status <==> |AtEnd(events, m)| >= ReachOfStatus(before, c) || c.status == 0)
  {
    var m := MarkersOf(c);
    MarkerFacts(c.id);
    CommandGetsItsOutput(events, before, c, later);
    EveryProgressMeans(events, m);
    ArrivedIsPrefix(events, m);
    var o := After(events, m).outcome;
    StatusArrived(before, c, later, AtEnd(events, m), DropNow(AtStart(events, m), m), o.exitCode, o.stdout);
  }

  lemma StatusArrived(before: string, c: Command, later: string, arrived: string, k: nat, exitCode: int, stdout: string)
    requires Isolated(before, c) && arrived <= before + Printed(c) + later
    requires Cut(arrived, k, MarkersOf(c), exitCode, stdout)
    ensures exitCode == c.status <==> |arrived| >= ReachOfStatus(before, c) || c.status == 0
  {
    var m := MarkersOf(c);
    EndArrived(before, c, later, arrived);
    ExitCodeIsStatusIff(Tail(arrived, m), c.status, later);
  }

  lemma RestStarts(c: Command, later: string)
    ensures RestOf(c, later)[0..1 + |c.output|] == "\n" + c.output
    ensures RestOf(c, later)[1..1 + |c.output|] == c.output
  {
    var head, tail := "\n" + c.output, EndMarker(c.id) + (FromNat(c.status) + "\n" + later);
    assert (head + tail)[0..|head|] == head && (head + tail)[1..|head|] == head[1..] == c.output;
  }

  lemma StartArrived(before: string, c: Command, later: string, arrived: string)
    requires Isolated(before, c)
    requires arrived <= before + Printed(c) + later && Find(arrived, StartMarker(c.id)) >= 0
    ensures DropNow(arrived, MarkersOf(c)) == if |arrived| > |before| + |StartMarker(c.id)| then 1 else 0
  {
    var m, text := MarkersOf(c), before + Printed(c) + later;
    CommandPlace(before, c, later);
    assert text == arrived + text[|arrived|..];
    BodyGrows(arrived, text[|arrived|..], m);
    assert Body(arrived, m) <= Body(text, m);
    if |Body(arrived, m)| > 0 { assert Body(arrived, m)[0] == Body(text, m)[0] == '\n'; }
  }

  lemma EndArrived(before: string, c: Command, later: string, arrived: string)
    requires Isolated(before, c)
    requires arrived <= before + Printed(c) + later && EndPos(arrived, MarkersOf(c)) >= 0
    ensures var m := MarkersOf(c);
            && Tail(arrived, m) <= FromNat(c.status) + "\n" + later
            && (|Tail(arrived, m)| >= |FromNat(c.status)| <==> |arrived| >= ReachOfStatus(before, c))
  {
    CommandTail(before, c, later);
    TailGrows(arrived, before + Printed(c) + later, MarkersOf(c));
  }

  lemma CommandTail(before: string, c: Command, later: string)
    requires Isolated(before, c)
    ensures var text, m := before + Printed(c) + later, MarkersOf(c);
            && |text| == ReachOfStatus(before, c) + 1 + |later|
            && EndPos(text, m) >= 0 && Tail(text, m) == FromNat(c.status) + "\n" + later
  {
    CommandPlace(before, c, later);
    RestEnds(c, later);
  }

  lemma RestEnds(c: Command, later: string)
    ensures RestOf(c, later)[1 + |c.output| + |EndMarker(c.id)|..] == FromNat(c.status) + "\n" + later
  {
    var head, e, d := "\n" + c.output, EndMarker(c.id), FromNat(c.status) + "\n" + later;
    assert (head + (e + d))[|head| + |e|..] == d;
  }

  // ----- Many commands in one shell -----

  /** Identifiers are plain, of one length and different, no command prints its own end marker,
      and none prints another's start marker on a line of its own output. */
  ghost predicate Separate(commands: seq<Command>) {
    && (forall i :: 0 <= i < |commands| ==>
        PlainId(commands[i].id) && !Contains(commands[i].output, EndMarker(commands[i].id)))
    && (forall i, j :: 0 <= i < j < |commands| ==>
          && |commands[i].id| == |commands[j].id| && commands[i].id != commands[j].id
          && !Contains(LastLine(commands[i]), StartMarker(commands[j].id)))
  }

  lemma OneCommandHasNoOther(c: Command, id: string)
    requires PlainId(id) && |c.id| == |id| && c.id != id && !Contains(LastLine(c), StartMarker(id))
    ensures !Contains(Printed(c), StartMarker(id))
  {
    var m := StartMarker(id);
    MarkerFacts(id);
    assert m[|START_PREFIX|..|START_PREFIX| + |id|] == id;
    assert StartMarker(c.id)[|START_PREFIX|..|START_PREFIX| + |id|] == c.id;
    if Contains(Printed(c), m) {
      assert Printed(c) == StartMarker(c.id) + ['\n'] + (LastLine(c) + "\n");
      ContainsAcross(StartMarker(c.id), '\n', LastLine(c) + "\n", m);
      if Contains(StartMarker(c.id), m) {
        ContainsSameLength(StartMarker(c.id), m);
      } else {
        assert LastLine(c) + "\n" == LastLine(c) + ['\n'] + "";
        ContainsAcross(LastLine(c), '\n', "", m);
      }
    }
  }

  lemma {:induction false} EarlierCommandsHaveNoOther(commands: seq<Command>, id: string)
    requires PlainId(id)
    requires forall i :: 0 <= i < |commands| ==>
               |commands[i].id| == |id| && commands[i].id != id && !Contains(LastLine(commands[i]), StartMarker(id))
    ensures !Contains(Transcript(commands), StartMarker(id))
    ensures Transcript(commands) == "" || Transcript(commands)[|Transcript(commands)| - 1] == '\n'
  {
    MarkerFacts(id);
    if commands == [] {
    } else {
      var front, c := commands[..|commands| - 1], commands[|commands| - 1];
      EarlierCommandsHaveNoOther(front, id);
      OneCommandHasNoOther(c, id);
      JoinedHasNoOther(Transcript(front), Printed(c), StartMarker(id));
    }
  }

  lemma JoinedHasNoOther(a: string, b: string, m: string)
    requires m != "" && '\n' !in m && !Contains(a, m) && !Contains(b, m)
    requires a == "" || a[|a| - 1] == '\n'
    ensures !Contains(a + b, m)
  {
    if a == "" {
      assert a + b == b;
    } else if Contains(a + b, m) {
      var s := a[..|a| - 1];
      assert a + b == s + ['\n'] + b;
      ContainsAcross(s, '\n', b, m);
      var i: nat :| i <= |s| && OccursAt(s, m, i);
      assert a == s + ['\n'];
      OccursInExtension(s, ['\n'], m, i);
    }
  }

  lemma {:induction false} TranscriptSplits(commands: seq<Command>, n: nat) returns (later: string)
    requires n < |commands|
    ensures Transcript(commands) == Transcript(commands[..n]) + Printed(commands[n]) + later
  {
    var front, last := commands[..|commands| - 1], Printed(commands[|commands| - 1]);
    if n == |commands| - 1 {
      later := "";
      assert Transcript(front) + last == Transcript(front) + last + "";
    } else {
      var rest := TranscriptSplits(front, n);
      assert front[..n] == commands[..n];
      Assoc(Transcript(commands[..n]) + Printed(commands[n]), rest, last);
      later := rest + last;
    }
  }

  /** In a shared shell every command gets its own output: the reader of the n-th command, given
      the whole transcript in any split, returns what that command printed, with a newline in front
      exactly when an event ended between the start marker and its newline, and its status exactly
      when that arrived whole with the end marker, or is zero. */
  lemma EachCommandGetsItsOwn(commands: seq<Command>, n: nat, events: seq<Event>)
    requires Separate(commands) && n < |commands|
    requires OutText(events) == Transcript(commands) && !ExitedFirst(events, MarkersOf(commands[n]))
    ensures var c, before := commands[n], Transcript(commands[..n]);
            var m := MarkersOf(c);
            var p := After(events, m);
            && p.Stopped? && p.outcome.Completed?
            && p.outcome.stdout == (if |AtStart(events, m)| > |before| + |m.start| then c.output else "\n" + c.output)
            && (p.outcome.exitCode == c.status <==> |AtEnd(events, m)| >= ReachOfStatus(before, c) || c.status == 0)
  {
    var c := commands[n];
    EarlierCommandsHaveNoOther(commands[..n], c.id);
    var later := TranscriptSplits(commands, n);
    CommandGetsItsOutput(events, Transcript(commands[..n]), c, later);
    CommandGetsItsStatusIff(events, Transcript(commands[..n]), c, later);
  }

  // ----- Splits that go wrong -----

  lemma TwoEvents(a: string, b: string, m: Markers)
    ensures var events := [Out(a), Out(b)];
            events[..1] == [Out(a)] && OutText(events) == a + b && OutText([Out(a)]) == a && !ExitedFirst(events, m)
  {
    var events := [Out(a), Out(b)];
    assert events[..1] == [Out(a)] && [Out(a)][..0] == [];
    assert OutText([Out(a)]) == "" + a == a;
  }

  /** When an event ends inside the digits of a status, the exit code is another one. */
  lemma ExitCodeCanBeCut(c: Command, digits: nat)
    requires Isolated("", c) && c.status > 0 && digits < |FromNat(c.status)|
    ensures var first := StartMarker(c.id) + ("\n" + c.output + (EndMarker(c.id) + FromNat(c.status)[..digits]));
            var p := After([Out(first), Out(FromNat(c.status)[digits..] + "\n")], MarkersOf(c));
            p.Stopped? && p.outcome.Completed? && p.outcome.exitCode != c.status
  {
    var d, m := FromNat(c.status)[..digits], MarkersOf(c);
    var first, rest := StartMarker(c.id) + ("\n" + c.output + (EndMarker(c.id) + d)), FromNat(c.status)[digits..]
        + "\n";
    var events := [Out(first), Out(rest)];
    TwoEvents(first, rest, m);
    CutText(c, digits);
    StartIsFirst("", c.id, "\n" + c.output + (EndMarker(c.id) + d));
    assert "" + first == first;
    assert first[|StartMarker(c.id)|..] == "\n" + c.output + (EndMarker(c.id) + d);
    EndIsFirst(c.output, c.id, d);
    assert AtEnd([Out(first)], m) == first by { assert [Out(first)][..0] == []; EmptyHasNoEnd(m, c.id); }
    CommandGetsItsStatusIff(events, "", c, "");
  }

  lemma EmptyHasNoEnd(m: Markers, id: string)
    requires m == Markers(StartMarker(id), EndMarker(id))
    ensures EndPos("", m) < 0
  {
    FindMeaning("", m.start);
    assert |m.start| > 0;
  }

  lemma CutText(c: Command, digits: nat)
    requires digits < |FromNat(c.status)|
    ensures var d := FromNat(c.status);
            (StartMarker(c.id) + ("\n" + c.output + (EndMarker(c.id) + d[..digits]))) + (d[digits..] + "\n")
            == "" + Printed(c) + ""
  {
    var s, e, d, x := StartMarker(c.id), EndMarker(c.id), FromNat(c.status), "\n" + c.output;
    var d0, r := d[..digits], d[digits..] + "\n";
    Regroup("", c, "");
    assert d0 + r == d + "\n" + "";
    Assoc(e, d0, r);
    Assoc(x, e + d0, r);
    Assoc(s, x + (e + d0), r);
    assert "" + (s + RestOf(c, "")) == s + RestOf(c, "");
  }

  lemma StartsAtOnce(a: string, b: string, m: Markers)
    requires Find(a, m.start) >= 0 && m.start != ""
    ensures AtStart([Out(a), Out(b)], m) == a
  {
    TwoEvents(a, b, m);
    FindMeaning("", m.start);
    assert [Out(a)][..0] == [];
  }

  lemma PrintedAfterStart(c: Command)
    ensures StartMarker(c.id) + ("\n" + LastLine(c) + "\n") == "" + Printed(c) + ""
    ensures Find(StartMarker(c.id), StartMarker(c.id)) == 0
  {
    var s := StartMarker(c.id);
    assert s[0..|s|] == s;
    FirstIsFound(s, s, 0);
  }

  /** When an event ends right after the start marker, the output keeps a newline in front. */
  lemma NewlineCanStay(c: Command)
    requires Isolated("", c)
    ensures var p := After([Out(StartMarker(c.id)), Out("\n" + LastLine(c) + "\n")], MarkersOf(c));
            p.Stopped? && p.outcome.Completed? && p.outcome.stdout == "\n" + c.output
  {
    var start, rest, m := StartMarker(c.id), "\n" + LastLine(c) + "\n", MarkersOf(c);
    TwoEvents(start, rest, m);
    PrintedAfterStart(c);
    StartsAtOnce(start, rest, m);
    CommandGetsItsOutput([Out(start), Out(rest)], "", c, "");
  }

}
