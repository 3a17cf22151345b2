/**
  The document backend's compare-and-set loops as a state machine: any number of actors, each
  with a program counter and the values its last read gave it, one database call a step.

  A run is any sequence of labels; a label whose actor cannot take that step changes nothing.
  The state carries a log of the transactions that have taken effect, written at the step
  where each of them does.
 */
module SegmentProtocol {
  import opened Wrappers
  import opened WarmPoolSegments

  const MAX_TRIES: nat := 8

  datatype Call = Call(key: string, tx: Tx)

  /** Where an actor is. `start` is the length of the log when its call began, `at` the log index
      of the transaction its call turned into; a call that gave up has none. */
  datatype Pc =
    | Idle
    | Finding(call: Call, start: nat, tries: nat)
    | Clamping(call: Call, start: nat, tries: nat, desired: int, inflight: nat)
    | Taking(call: Call, start: nat, tries: nat, desired: int, inflight: nat, grant: nat)
    | Releasing(call: Call, start: nat, tries: nat, inflight: nat)
    | Returned(call: Call, start: nat, reply: Reply, at: Option<nat>)

  datatype State = State(segments: Table, pcs: map<Actor, Pc>, log: seq<Entry>)

  datatype Label = Begin(actor: Actor, call: Call) | Proceed(actor: Actor)

  function PcOf(s: State, a: Actor): Pc { if a in s.pcs then s.pcs[a] else Idle }

  function Goto(s: State, a: Actor, pc: Pc): State { s.(pcs := s.pcs[a := pc]) }

  function Refusal(tx: Tx): Reply { if tx.Reserve? then Slots(0) else Changed(false) }

  /** The call's transaction takes effect here and leaves the given row; `seen` is the desired
      size it was computed from. */
  function Commit(s: State, a: Actor, call: Call, start: nat, seen: int, row: Option<Segment>, reply: Reply): State {
    var pc := Returned(call, start, reply, Some(|s.log|));
    State(Store(s.segments, call.key, row), s.pcs[a := pc], s.log + [Entry(a, call.key, call.tx, seen, reply)])
  }

  function Retry(s: State, a: Actor, call: Call, start: nat, tries: nat): State {
    Goto(s, a, if tries + 1 < MAX_TRIES then Finding(call, start, tries + 1)
        else Returned(call, start, Refusal(call.tx), None))
  }

  /** A call starts. Reset, disable, upsert and hand-off are one database update each. */
  function BeginStep(s: State, a: Actor, call: Call): State {
    var row := Row(s.segments, call.key);
    var start := |s.log|;
    match call.tx
    case Reserve(_, batchMax, _) =>
      if call.key == "" || batchMax <= 0 then Commit(s, a, call, start, 0, row, Slots(0))
      else Goto(s, a, Finding(call, start, 0))
    case Complete(count, _, _) =>
      if call.key == "" || count <= 0 then Commit(s, a, call, start, 0, row, Changed(false))
      else Goto(s, a, Finding(call, start, 0))
    case _ =>
      if call.key == "" then s
      else
        var (post, reply) := RunTx(call.tx, row);
        Commit(s, a, call, start, 0, post, reply)
  }

  function FindStep(s: State, a: Actor, pc: Pc): State
    requires pc.Finding?
  {
    var row := Row(s.segments, pc.call.key);
    if row.None? then Commit(s, a, pc.call, pc.start, 0, None, Refusal(pc.call.tx))
    else
      var seg := row.value;
      var inflight := Max(0, seg.inflight);
      match pc.call.tx
      case Reserve(ready, batchMax, _) =>
        if inflight > Useful(seg.desired, ready)
            then Goto(s, a, Clamping(pc.call, pc.start, pc.tries, seg.desired, inflight))
        else
          var grant := Grant(Max(0, batchMax), seg.desired, ready, inflight);
          if grant == 0 then Commit(s, a, pc.call, pc.start, seg.desired, row, Slots(0))
          else Goto(s, a, Taking(pc.call, pc.start, pc.tries, seg.desired, inflight, grant))
      case _ => Goto(s, a, Releasing(pc.call, pc.start, pc.tries, inflight))
  }

  /** True when the filter on `inflight_count` finds the document. */
  predicate Matches(s: State, key: string, inflight: int) {
    key in s.segments && s.segments[key].inflight == inflight
  }

  function ClampStep(s: State, a: Actor, pc: Pc): State
    requires pc.Clamping? && pc.call.tx.Reserve?
  {
    var Reserve(ready, batchMax, now) := pc.call.tx;
    if !Matches(s, pc.call.key, pc.inflight) then Retry(s, a, pc.call, pc.start, pc.tries)
    else
      var useful := Useful(pc.desired, ready);
      var post := s.segments[pc.call.key].(inflight := useful, inflightUpdatedAt := Some(now), updatedAt := now);
      var grant := Grant(Max(0, batchMax), pc.desired, ready, useful);
      var committed := Commit(s, a, pc.call, pc.start, pc.desired, Some(post), Slots(0));
      if grant == 0 then committed
      else Goto(committed, a, Taking(pc.call, pc.start, pc.tries, pc.desired, useful, grant))
  }

  function TakeStep(s: State, a: Actor, pc: Pc): State
    requires pc.Taking? && pc.call.tx.Reserve?
  {
    var now := pc.call.tx.now;
    if !Matches(s, pc.call.key, pc.inflight) then Retry(s, a, pc.call, pc.start, pc.tries)
    else
      var post := s.segments[pc.call.key].(inflight := pc.inflight + pc.grant, inflightUpdatedAt := Some(now),
                                           lastRefillAt := Some(now), updatedAt := now);
      Commit(s, a, pc.call, pc.start, pc.desired, Some(post), Slots(pc.grant))
  }

  function ReleaseStep(s: State, a: Actor, pc: Pc): State
    requires pc.Releasing? && pc.call.tx.Complete?
  {
    var Complete(count, success, now) := pc.call.tx;
    if !Matches(s, pc.call.key, pc.inflight) then Retry(s, a, pc.call, pc.start, pc.tries)
    else
      var seg := s.segments[pc.call.key];
      var left := Max(0, pc.inflight - Max(0, count));
      var post := seg.(inflight := left, inflightUpdatedAt := if left > 0 then Some(now) else None, updatedAt := now,
                       failed := seg.failed + (if success then 0 else Max(0, count)));
      Commit(s, a, pc.call, pc.start, 0, Some(post), Changed(true))
  }

  function Step(s: State, l: Label): State {
    var pc := PcOf(s, l.actor);
    match l
    case Begin(a, call) => if pc.Idle? || pc.Returned? then BeginStep(s, a, call) else s
    case Proceed(a) =>
      if pc.Finding? then FindStep(s, a, pc)
      else if pc.Clamping? && pc.call.tx.Reserve? then ClampStep(s, a, pc)
      else if pc.Taking? && pc.call.tx.Reserve? then TakeStep(s, a, pc)
      else if pc.Releasing? && pc.call.tx.Complete? then ReleaseStep(s, a, pc)
      else s
  }

  function Exec(s: State, run: seq<Label>): State {
    if run == [] then s else Step(Exec(s, run[..|run| - 1]), run[|run| - 1])
  }

  function Start(table: Table): State { State(table, map[], []) }

  // ----- Every call is one transaction -----

  /** `a` put nothing into the log from index `from` on, except possibly at `at`. */
  ghost predicate Silent(log: seq<Entry>, a: Actor, from: nat, at: Option<nat>) {
    forall i :: from <= i < |log| && at != Some(i) ==> log[i].actor != a
  }

  /** A call that is still running: nothing of it is in the log. */
  ghost predicate Running(log: seq<Entry>, a: Actor, call: Call, start: nat) {
    && start <= |log| && Silent(log, a, start, None)
    && call.key != ""
    && ((call.tx.Reserve? && call.tx.batchMax > 0) || (call.tx.Complete? && call.tx.count > 0))
  }

  ghost predicate PcSound(log: seq<Entry>, a: Actor, pc: Pc) {
    match pc
    case Idle => true
    case Finding(call, start, _) => Running(log, a, call, start)
    case Clamping(call, start, _, desired, inflight) =>
      Running(log, a, call, start) && call.tx.Reserve? && inflight > Useful(desired, call.tx.ready)
    case Taking(call, start, _, desired, inflight, grant) =>
      && Running(log, a, call, start) && call.tx.Reserve?
      && inflight <= Useful(desired, call.tx.ready)
      && grant == Grant(call.tx.batchMax, desired, call.tx.ready, inflight) > 0
    case Releasing(call, start, _, _) => Running(log, a, call, start) && call.tx.Complete?
    case Returned(call, start, reply, at) =>
      && start <= |log| && Silent(log, a, start, at)
      && (match at
          case None => reply == Refusal(call.tx)
          case Some(i) => start <= i < |log| && log[i] == Entry(a, call.key, call.tx, log[i].seen, reply))
  }

  ghost predicate Sound(table: Table, s: State) {
    && "" !in s.segments
    && s.segments == Replay(table, s.log)
    && Truthful(table, s.log)
    && forall a :: a in s.pcs ==> PcSound(s.log, a, s.pcs[a])
  }

  lemma OthersStaySound(log: seq<Entry>, e: Entry, b: Actor, pc: Pc)
    requires PcSound(log, b, pc) && e.actor != b
    ensures PcSound(log + [e], b, pc)
  {
    if pc.Returned? && pc.at.Some? {
      assert (log + [e])[pc.at.value] == log[pc.at.value];
    }
  }

  lemma CommitKeepsSound(table: Table, s: State, a: Actor, call: Call, start: nat, seen: int, row: Option<Segment>,
      reply: Reply)
    requires Sound(table, s) && start <= |s.log| && Silent(s.log, a, start, None)
    requires (row, reply) == RunSeen(call.tx, seen, Row(s.segments, call.key))
    requires row.Some? ==> call.key != ""
    ensures Sound(table, Commit(s, a, call, start, seen, row, reply))
  {
    var e := Entry(a, call.key, call.tx, seen, reply);
    var s' := Commit(s, a, call, start, seen, row, reply);
    ReplayAppend(table, s.log, e);
    assert s'.segments == Replay(table, s'.log) && "" !in s'.segments;
    forall b | b in s'.pcs ensures PcSound(s'.log, b, s'.pcs[b]) {
      if b != a { OthersStaySound(s.log, e, b, s.pcs[b]); }
    }
  }

  lemma BeginKeepsSound(table: Table, s: State, a: Actor, call: Call)
    requires Sound(table, s)
    ensures Sound(table, BeginStep(s, a, call))
  {
    var row := Row(s.segments, call.key);
    if call.tx.Reserve? {
      if call.key == "" || call.tx.batchMax <= 0 {
        CommitKeepsSound(table, s, a, call, |s.log|, 0, row, Slots(0));
      }
    } else if call.tx.Complete? {
      if call.key == "" || call.tx.count <= 0 {
        CommitKeepsSound(table, s, a, call, |s.log|, 0, row, Changed(false));
      }
    } else if call.key != "" {
      CommitKeepsSound(table, s, a, call, |s.log|, 0, RunTx(call.tx, row).0, RunTx(call.tx, row).1);
    }
  }

  lemma FindKeepsSound(table: Table, s: State, a: Actor)
    requires Sound(table, s) && PcOf(s, a).Finding?
    ensures Sound(table, FindStep(s, a, PcOf(s, a)))
  {
    var pc := PcOf(s, a);
    var row := Row(s.segments, pc.call.key);
    if row.None? {
      CommitKeepsSound(table, s, a, pc.call, pc.start, 0, None, Refusal(pc.call.tx));
    } else if pc.call.tx.Reserve? {
      var seg := row.value;
      var inflight := Max(0, seg.inflight);
      if inflight <= Useful(seg.desired, pc.call.tx.ready)
         && Grant(Max(0, pc.call.tx.batchMax), seg.desired, pc.call.tx.ready, inflight) == 0 {
        assert seg.(desired := seg.desired) == seg;
        CommitKeepsSound(table, s, a, pc.call, pc.start, seg.desired, row, Slots(0));
      }
    }
  }

  lemma ClampKeepsSound(table: Table, s: State, a: Actor)
    requires Sound(table, s) && PcOf(s, a).Clamping?
    ensures Sound(table, ClampStep(s, a, PcOf(s, a)))
  {
    var pc := PcOf(s, a);
    var Reserve(ready, batchMax, now) := pc.call.tx;
    if Matches(s, pc.call.key, pc.inflight) {
      var seg := s.segments[pc.call.key];
      ClampIsReserve(seg, pc.desired, ready, batchMax, now);
      var post := seg.(inflight := Useful(pc.desired, ready), inflightUpdatedAt := Some(now), updatedAt := now);
      CommitKeepsSound(table, s, a, pc.call, pc.start, pc.desired, Some(post), Slots(0));
    }
  }

  lemma TakeKeepsSound(table: Table, s: State, a: Actor)
    requires Sound(table, s) && PcOf(s, a).Taking?
    ensures Sound(table, TakeStep(s, a, PcOf(s, a)))
  {
    var pc := PcOf(s, a);
    if Matches(s, pc.call.key, pc.inflight) {
      var now := pc.call.tx.now;
      var post := s.segments[pc.call.key].(inflight := pc.inflight + pc.grant, inflightUpdatedAt := Some(now),
                                           lastRefillAt := Some(now), updatedAt := now);
      TakeIsReserve(s.segments[pc.call.key], pc.desired, pc.call.tx.ready, pc.call.tx.batchMax, now);
      CommitKeepsSound(table, s, a, pc.call, pc.start, pc.desired, Some(post), Slots(pc.grant));
    }
  }

  lemma ReleaseKeepsSound(table: Table, s: State, a: Actor)
    requires Sound(table, s) && PcOf(s, a).Releasing?
    ensures Sound(table, ReleaseStep(s, a, PcOf(s, a)))
  {
    var pc := PcOf(s, a);
    if Matches(s, pc.call.key, pc.inflight) {
      var Complete(count, success, now) := pc.call.tx;
      var seg := s.segments[pc.call.key];
      ReleaseIsComplete(seg, count, success, now);
      var left := Max(0, pc.inflight - count);
      var post := seg.(inflight := left, inflightUpdatedAt := if left > 0 then Some(now) else None, updatedAt := now,
                       failed := seg.failed + (if success then 0 else count));
      CommitKeepsSound(table, s, a, pc.call, pc.start, 0, Some(post), Changed(true));
    }
  }

  lemma StepKeepsSound(table: Table, s: State, l: Label)
    requires Sound(table, s)
    ensures Sound(table, Step(s, l))
  {
    var pc := PcOf(s, l.actor);
    if l.Begin? {
      if pc.Idle? || pc.Returned? { BeginKeepsSound(table, s, l.actor, l.call); }
    } else if pc.Finding? {
      FindKeepsSound(table, s, l.actor);
    } else if pc.Clamping? {
      ClampKeepsSound(table, s, l.actor);
    } else if pc.Taking? {
      TakeKeepsSound(table, s, l.actor);
    } else if pc.Releasing? {
      ReleaseKeepsSound(table, s, l.actor);
    }
  }

  /** Linearisability, for every interleaving: the collection is what the logged transactions
      leave when run one after the other, each with the answer it gave. A call that returned
      took effect as exactly one transaction between its start and its return, with the answer
      it returned; or it ran out of tries, was refused and wrote nothing. */
  lemma {:induction false} EveryCallIsOneTransaction(table: Table, run: seq<Label>)
    requires "" !in table
    ensures Sound(table, Exec(Start(table), run))
  {
    if run == [] {
    } else {
      EveryCallIsOneTransaction(table, run[..|run| - 1]);
      StepKeepsSound(table, Exec(Start(table), run[..|run| - 1]), run[|run| - 1]);
    }
  }

  // ----- The row-locked backend is the same machine when no desired size goes stale -----

  /** The same log run by the row-locked backend. */
  function Transact(table: Table, log: seq<Entry>): Table {
    if log == [] then table
    else
      var before := Transact(table, log[..|log| - 1]);
      var e := log[|log| - 1];
      Store(before, e.key, RunTx(e.tx, Row(before, e.key)).0)
  }

  ghost predicate Fresh(table: Table, e: Entry) {
    e.tx.Reserve? && e.key in table ==> e.seen == table[e.key].desired || e.tx.batchMax <= 0
  }

  lemma {:induction false} FreshLogsAreTransactions(table: Table, log: seq<Entry>)
    requires FreshLog(table, log)
    ensures Replay(table, log) == Transact(table, log)
  {
    if log == [] {
    } else {
      var front, e := log[..|log| - 1], log[|log| - 1];
      forall i | 0 <= i < |front| ensures front[..i] == log[..i] {}
      FreshLogsAreTransactions(table, front);
      FreshEntryIsTransaction(Replay(table, front), e);
      assert log[..|front|] == front && log[|front|] == e;
    }
  }

  lemma FreshEntryIsTransaction(table: Table, e: Entry)
    requires Fresh(table, e)
    ensures RunSeen(e.tx, e.seen, Row(table, e.key)) == RunTx(e.tx, Row(table, e.key))
  {
    if e.key in table && e.tx.Reserve? {
      if e.tx.batchMax > 0 { SeenIsCurrent(e.tx, Row(table, e.key)); }
    }
  }

  ghost predicate FreshLog(table: Table, log: seq<Entry>) {
    forall i {:trigger log[i]} :: 0 <= i < |log| ==> Fresh(Replay(table, log[..i]), log[i])
  }

  lemma FreshReply(table: Table, log: seq<Entry>, i: nat)
    requires i < |log| && Truthful(table, log) && FreshLog(table, log)
    ensures log[i].reply == RunTx(log[i].tx, Row(Transact(table, log[..i]), log[i].key)).1
  {
    forall j | 0 <= j < i ensures log[..i][..j] == log[..j] && log[..i][j] == log[j] {}
    TruthfulAt(table, log, i);
    FreshLogsAreTransactions(table, log[..i]);
    FreshEntryIsTransaction(Replay(table, log[..i]), log[i]);
  }

  /** Refinement: in every run whose reservations committed against the desired size they had
      read, the collection and every answer are those of the row-locked backend. */
  lemma FreshRunsRefineTransactions(table: Table, run: seq<Label>)
    requires "" !in table && FreshLog(table, Exec(Start(table), run).log)
    ensures var s := Exec(Start(table), run);
            && s.segments == Transact(table, s.log)
            && forall i {:trigger s.log[i]} :: 0 <= i < |s.log| ==>
                 s.log[i].reply == RunTx(s.log[i].tx, Row(Transact(table, s.log[..i]), s.log[i].key)).1
  {
    EveryCallIsOneTransaction(table, run);
    var log := Exec(Start(table), run).log;
    FreshLogsAreTransactions(table, log);
    forall i | 0 <= i < |log|
      ensures log[i].reply == RunTx(log[i].tx, Row(Transact(table, log[..i]), log[i].key)).1
    {
      FreshReply(table, log, i);
    }
  }

  // ----- What one step does to the log -----

  /** The call a label is about. */
  function Current(s: State, l: Label): Option<Call> {
    var pc := PcOf(s, l.actor);
    if l.Begin? && !Open(pc) then Some(l.call) else if pc.Idle? then None else Some(pc.call)
  }

  predicate Open(pc: Pc) { !pc.Idle? && !pc.Returned? }

  /** A step moves one actor; it either leaves the log alone, or appends its call's entry and
      that call returns. */
  ghost predicate Shape(s: State, l: Label, s': State) {
    && (forall b :: b != l.actor ==> PcOf(s', b) == PcOf(s, b))
    && (s'.pcs == s.pcs || s'.pcs == s.pcs[l.actor := PcOf(s', l.actor)])
    && (s'.log == s.log ==>
          Open(PcOf(s', l.actor)) ==> Current(s, l) == Some(PcOf(s', l.actor).call))
    && (s'.log != s.log ==>
          && |s'.log| == |s.log| + 1 && s'.log[..|s.log|] == s.log
          && !Open(PcOf(s', l.actor)) && s'.log[|s.log|].actor == l.actor
          && Current(s, l) == Some(Call(s'.log[|s.log|].key, s'.log[|s.log|].tx)))
    && (s'.log != s.log && l.Proceed? ==> Open(PcOf(s, l.actor)))
    && (s'.log != s.log && l.Begin? && l.call.tx.Complete? ==> s'.log[|s.log|].reply == Changed(false))
  }

  lemma CommitShape(s: State, l: Label, call: Call, start: nat, seen: int, row: Option<Segment>, reply: Reply)
    requires Current(s, l) == Some(call) && (l.Proceed? ==> Open(PcOf(s, l.actor)))
    requires l.Begin? && l.call.tx.Complete? ==> reply == Changed(false)
    ensures Shape(s, l, Commit(s, l.actor, call, start, seen, row, reply))
  {
  }

  lemma BeginShape(s: State, a: Actor, call: Call)
    requires !Open(PcOf(s, a))
    ensures Shape(s, Begin(a, call), BeginStep(s, a, call))
  {
    var row := Row(s.segments, call.key);
    CommitShape(s, Begin(a, call), call, |s.log|, 0, row, Refusal(call.tx));
    if !call.tx.Complete? {
      var (post, reply) := RunTx(call.tx, row);
      CommitShape(s, Begin(a, call), call, |s.log|, 0, post, reply);
    }
  }

  lemma ProceedShape(table: Table, s: State, a: Actor)
    requires Sound(table, s) && Open(PcOf(s, a))
    ensures Shape(s, Proceed(a), Step(s, Proceed(a)))
  {
    var pc := PcOf(s, a);
    assert PcSound(s.log, a, pc);
    if pc.Clamping? {
      if Matches(s, pc.call.key, pc.inflight) {
        ClampIsReserve(s.segments[pc.call.key], pc.desired, pc.call.tx.ready, pc.call.tx.batchMax, pc.call.tx.now);
      }
    }
  }

  lemma StepShape(table: Table, s: State, l: Label)
    requires Sound(table, s)
    ensures Shape(s, l, Step(s, l))
  {
    if Open(PcOf(s, l.actor)) {
      if l.Proceed? { ProceedShape(table, s, l.actor); }
    } else if l.Begin? {
      BeginShape(s, l.actor, l.call);
    }
  }

  // ----- Refusals -----

  /** The transactions on `key` from a log index on. */
  function OnKey(log: seq<Entry>, start: nat, key: string): nat {
    if |log| <= start then 0
    else OnKey(log[..|log| - 1], start, key) + (if log[|log| - 1].key == key then 1 else 0)
  }

  lemma OnKeyAppend(log: seq<Entry>, e: Entry, start: nat, key: string)
    requires start <= |log|
    ensures OnKey(log + [e], start, key) == OnKey(log, start, key) + (if e.key == key then 1 else 0)
  {
    assert (log + [e])[..|log|] == log;
  }

  ghost predicate NonNegative(table: Table) { forall k :: k in table ==> table[k].inflight >= 0 }

  /** The counter an actor has read and not yet tried to replace. */
  function Captured(pc: Pc): Option<int> {
    match pc
    case Clamping(_, _, _, _, inflight) => Some(inflight)
    case Taking(_, _, _, _, inflight, _) => Some(inflight)
    case Releasing(_, _, _, inflight) => Some(inflight)
    case _ => None
  }

  /** Each try that was lost was lost to a transaction on the key, and so is one about to be. */
  ghost predicate Tried(s: State, pc: Pc) {
    Open(pc) ==>
      && pc.start <= |s.log| && pc.tries < MAX_TRIES
      && OnKey(s.log, pc.start, pc.call.key)
         >= pc.tries + (if Captured(pc).Some? && !Matches(s, pc.call.key, Captured(pc).value) then 1 else 0)
  }

  ghost predicate AllTried(s: State) { NonNegative(s.segments) && forall a :: a in s.pcs ==> Tried(s, s.pcs[a]) }

  lemma StepKeepsNonNegative(table: Table, s: State, l: Label)
    requires Sound(table, s) && NonNegative(s.segments)
    ensures NonNegative(Step(s, l).segments)
  {
    StepKeepsSound(table, s, l);
    StepShape(table, s, l);
    var s' := Step(s, l);
    if s'.log != s.log {
      var e := s'.log[|s.log|];
      assert s'.log == s.log + [e];
      ReplayAppend(table, s.log, e);
      CounterStep(e.tx, e.seen, Row(s.segments, e.key), e.actor, e.key);
    }
  }

  lemma OthersStayTried(table: Table, s: State, s': State, pc: Pc)
    requires Sound(table, s) && Sound(table, s') && Tried(s, pc)
    requires s'.log == s.log || (|s'.log| == |s.log| + 1 && s'.log[..|s.log|] == s.log)
    ensures Tried(s', pc)
  {
    if s'.log != s.log && Open(pc) {
      var e := s'.log[|s.log|];
      assert s'.log == s.log + [e];
      ReplayAppend(table, s.log, e);
      OnKeyAppend(s.log, e, pc.start, pc.call.key);
    }
  }

  /** What a step does for its own actor: a refusal for want of tries has seen as many transactions. */
  ghost predicate OwnTried(s: State, a: Actor, s': State) {
    var pc := PcOf(s', a);
    && Tried(s', pc)
    && (Open(PcOf(s, a)) && pc.Returned? && pc.at.None? ==>
          && s'.log == s.log && pc.start <= |s.log| && PcOf(s, a).tries == MAX_TRIES - 1
          && OnKey(s.log, pc.start, pc.call.key) >= MAX_TRIES)
  }

  lemma FindTried(s: State, a: Actor)
    requires AllTried(s) && PcOf(s, a).Finding?
    ensures OwnTried(s, a, FindStep(s, a, PcOf(s, a)))
  {
  }

  lemma RetryTried(s: State, a: Actor)
    requires AllTried(s) && Captured(PcOf(s, a)).Some?
    requires var pc := PcOf(s, a); !Matches(s, pc.call.key, Captured(pc).value)
    ensures var pc := PcOf(s, a); OwnTried(s, a, Retry(s, a, pc.call, pc.start, pc.tries))
  {
  }

  /** An update that matches ends the call. */
  lemma MatchEnds(table: Table, s: State, a: Actor)
    requires Sound(table, s) && Captured(PcOf(s, a)).Some?
    requires var pc := PcOf(s, a); Matches(s, pc.call.key, Captured(pc).value)
    ensures var pc := PcOf(Step(s, Proceed(a)), a); pc.Returned? && pc.at.Some?
  {
    var pc := PcOf(s, a);
    assert PcSound(s.log, a, pc);
    if pc.Clamping? {
      ClampIsReserve(s.segments[pc.call.key], pc.desired, pc.call.tx.ready, pc.call.tx.batchMax, pc.call.tx.now);
    }
  }

  lemma OwnStaysTried(table: Table, s: State, l: Label)
    requires Sound(table, s) && AllTried(s)
    ensures OwnTried(s, l.actor, Step(s, l))
  {
    var pc := PcOf(s, l.actor);
    assert PcSound(s.log, l.actor, pc);
    if l.Proceed? && pc.Finding? {
      FindTried(s, l.actor);
    } else if l.Proceed? && Captured(pc).Some? {
      if Matches(s, pc.call.key, Captured(pc).value) {
        MatchEnds(table, s, l.actor);
      } else {
        RetryTried(s, l.actor);
      }
    }
  }

  lemma {:induction false} RunsStayTried(table: Table, run: seq<Label>)
    requires "" !in table && NonNegative(table)
    ensures AllTried(Exec(Start(table), run))
  {
    if run == [] {
    } else {
      var s, l := Exec(Start(table), run[..|run| - 1]), run[|run| - 1];
      RunsStayTried(table, run[..|run| - 1]);
      EveryCallIsOneTransaction(table, run[..|run| - 1]);
      EveryCallIsOneTransaction(table, run);
      StepKeepsNonNegative(table, s, l);
      StepShape(table, s, l);
      OwnStaysTried(table, s, l);
      forall a | a in Step(s, l).pcs ensures Tried(Step(s, l), Step(s, l).pcs[a]) {
        if a != l.actor {
          assert PcOf(Step(s, l), a) == PcOf(s, a);
          OthersStayTried(table, s, Step(s, l), s.pcs[a]);
        }
      }
    }
  }

  /** A call that is refused for want of tries has lost eight of them: at least eight transactions
      of others took effect on its key between its start and its return. */
  lemma RefusedAfterEightRivals(table: Table, run: seq<Label>, l: Label)
    requires "" !in table && NonNegative(table) && Open(PcOf(Exec(Start(table), run), l.actor))
    requires var pc := PcOf(Exec(Start(table), run + [l]), l.actor); pc.Returned? && pc.at.None?
    ensures PcOf(Exec(Start(table), run), l.actor).tries == 7
    ensures var s := Exec(Start(table), run + [l]); var pc := PcOf(s, l.actor);
            pc.start <= |s.log| && OnKey(s.log, pc.start, pc.call.key) >= 8
                && Silent(s.log, l.actor, pc.start, None)
  {
    ExecMore(Start(table), run, l);
    RunsStayTried(table, run);
    EveryCallIsOneTransaction(table, run);
    EveryCallIsOneTransaction(table, run + [l]);
    OwnStaysTried(table, Exec(Start(table), run), l);
  }

  // ----- Conservation over every interleaving -----

  /** The slots a call in progress is giving back on `key`. */
  function Giving(pc: Pc, key: string): nat {
    if Open(pc) && pc.call.tx.Complete? && pc.call.key == key then Max(0, pc.call.tx.count) else 0
  }

  ghost function GivingBack(pcs: map<Actor, Pc>, actors: set<Actor>, key: string): nat
    requires actors <= pcs.Keys
  {
    if actors == {} then 0
    else
      var a :| a in actors;
      Giving(pcs[a], key) + GivingBack(pcs, actors - {a}, key)
  }

  lemma {:induction false} GivingBackWithout(pcs: map<Actor, Pc>, actors: set<Actor>, a: Actor, key: string)
    requires a in actors && actors <= pcs.Keys
    ensures GivingBack(pcs, actors, key) == Giving(pcs[a], key) + GivingBack(pcs, actors - {a}, key)
    decreases actors
  {
    var b :| b in actors && GivingBack(pcs, actors, key) == Giving(pcs[b], key) + GivingBack(pcs, actors - {b}, key);
    if a != b {
      GivingBackWithout(pcs, actors - {b}, a, key);
      GivingBackWithout(pcs, actors - {a}, b, key);
      assert actors - {b} - {a} == actors - {a} - {b};
    }
  }

  lemma {:induction false} GivingBackFrame(p: map<Actor, Pc>, q: map<Actor, Pc>, actors: set<Actor>, key: string)
    requires actors <= p.Keys && actors <= q.Keys && forall a :: a in actors ==> p[a] == q[a]
    ensures GivingBack(p, actors, key) == GivingBack(q, actors, key)
    decreases actors
  {
    if actors == {} {
    } else {
      var a :| a in actors;
      GivingBackFrame(p, q, actors - {a}, key);
      GivingBackWithout(p, actors, a, key);
      GivingBackWithout(q, actors, a, key);
    }
  }

  lemma GivingBackUpdate(pcs: map<Actor, Pc>, a: Actor, pc: Pc, key: string)
    ensures var after := pcs[a := pc]; var before := if a in pcs then Giving(pcs[a], key) else 0;
            GivingBack(after, after.Keys, key) == GivingBack(pcs, pcs.Keys, key) - before + Giving(pc, key)
  {
    var after := pcs[a := pc];
    var others := pcs.Keys - {a};
    assert after.Keys - {a} == others;
    GivingBackWithout(after, after.Keys, a, key);
    GivingBackFrame(pcs, after, others, key);
    if a in pcs {
      GivingBackWithout(pcs, pcs.Keys, a, key);
    } else {
      assert others == pcs.Keys;
    }
  }

  /** A completion starts only for slots that were won and that no other completion, finished or
      in progress, gives back. Whoever won them may have handed them on. */
  ghost predicate EachSlotOnce(s: State, l: Label, key: string) {
    l.Begin? && !Open(PcOf(s, l.actor)) && l.call.tx.Complete? && l.call.key == key ==>
      Max(0, l.call.tx.count) + GivingBack(s.pcs, s.pcs.Keys, key) <= Outstanding(s.log, key, {})
  }

  ghost predicate SlotsGivenBackOnce(s: State, run: seq<Label>, key: string) {
    run == [] ||
    (SlotsGivenBackOnce(s, run[..|run| - 1], key) && EachSlotOnce(Exec(s, run[..|run| - 1]), run[|run| - 1], key))
  }

  ghost predicate PoolKept(s: State, key: string) {
    Pooled(s.log, key) && GivingBack(s.pcs, s.pcs.Keys, key) <= Outstanding(s.log, key, {})
  }

  /** What a step does to the slots being given back: none but its own call's, and those are settled
      when the call returns. */
  lemma StepGivingBack(table: Table, s: State, l: Label, key: string)
    requires Sound(table, s)
    ensures var s' := Step(s, l); var own := Giving(PcOf(s, l.actor), key);
            && GivingBack(s'.pcs, s'.pcs.Keys, key)
                == GivingBack(s.pcs, s.pcs.Keys, key) - own + Giving(PcOf(s', l.actor), key)
            && own <= GivingBack(s.pcs, s.pcs.Keys, key)
  {
    var s' := Step(s, l);
    StepShape(table, s, l);
    GivingBackUpdate(s.pcs, l.actor, PcOf(s', l.actor), key);
    if l.actor in s.pcs { GivingBackWithout(s.pcs, s.pcs.Keys, l.actor, key); }
  }

  lemma AppendKeepsPool(log: seq<Entry>, e: Entry, key: string, givingBack: nat)
    requires Pooled(log, key) && givingBack <= Outstanding(log, key, {})
    requires e.key == key && e.tx.Complete? && e.reply == Changed(true) ==> e.tx.count <= givingBack
    ensures Pooled(log + [e], key)
    ensures Outstanding(log + [e], key, {}) ==
              Outstanding(log, key, {})
              + (if e.key != key then 0 else if e.reply.Slots? then e.reply.n else if e.tx.Complete?
                  && e.reply.ok then -e.tx.count else 0)
  {
    assert (log + [e])[..|log|] == log;
  }

  /** What the step's own call gives back, against the entry it writes. */
  lemma OwnGiving(table: Table, s: State, l: Label, key: string)
    requires Sound(table, s)
    ensures var s' := Step(s, l);
            var own, after := Giving(PcOf(s, l.actor), key), Giving(PcOf(s', l.actor), key);
            && (s'.log == s.log ==> after <= own || (l.Begin? && !Open(PcOf(s, l.actor)) && l.call.tx.Complete?
                                                     && l.call.key == key && after == Max(0, l.call.tx.count)))
            && (s'.log != s.log ==>
                  var e := s'.log[|s'.log| - 1];
                  after == 0 && (e.key == key && e.tx.Complete? && e.reply == Changed(true) ==>
                      own == Max(0, e.tx.count)))
  {
    StepShape(table, s, l);
  }

  lemma StepKeepsPool(table: Table, s: State, l: Label, key: string)
    requires Sound(table, s) && PoolKept(s, key) && EachSlotOnce(s, l, key)
    ensures PoolKept(Step(s, l), key)
  {
    var s' := Step(s, l);
    StepGivingBack(table, s, l, key);
    OwnGiving(table, s, l, key);
    if s'.log != s.log {
      StepShape(table, s, l);
      var e := s'.log[|s.log|];
      assert s'.log == s.log + [e];
      AppendKeepsPool(s.log, e, key, GivingBack(s.pcs, s.pcs.Keys, key));
    }
  }

  lemma {:induction false} RunsKeepPool(table: Table, run: seq<Label>, key: string)
    requires "" !in table && SlotsGivenBackOnce(Start(table), run, key)
    ensures PoolKept(Exec(Start(table), run), key)
  {
    if run == [] {
    } else {
      var front := run[..|run| - 1];
      RunsKeepPool(table, front, key);
      EveryCallIsOneTransaction(table, front);
      StepKeepsPool(table, Exec(Start(table), front), run[|run| - 1], key);
    }
  }

  /** Conservation, for every interleaving with clamps, resets, disables and upserts, when each slot
      won is given back at most once, by whichever actor: the counter never goes below zero nor
      above the slots outstanding, and is equal to them as long as only completions lowered it. */
  lemma SlotsAreConserved(table: Table, run: seq<Label>, key: string)
    requires "" !in table && AllIdle(table) && SlotsGivenBackOnce(Start(table), run, key)
    ensures var s := Exec(Start(table), run);
            && 0 <= Inflight(s.segments, key) <= Outstanding(s.log, key, {})
            && (Undisturbed(table, s.log, key) ==> Inflight(s.segments, key) == Outstanding(s.log, key, {}))
  {
    RunsKeepPool(table, run, key);
    PooledRunConserves(table, run, key);
  }

  lemma PooledRunConserves(table: Table, run: seq<Label>, key: string)
    requires "" !in table && AllIdle(table) && Pooled(Exec(Start(table), run).log, key)
    ensures var s := Exec(Start(table), run);
            && 0 <= Inflight(s.segments, key) <= Outstanding(s.log, key, {})
            && (Undisturbed(table, s.log, key) ==> Inflight(s.segments, key) == Outstanding(s.log, key, {}))
  {
    var s := Exec(Start(table), run);
    EveryCallIsOneTransaction(table, run);
    InflightWithinOutstanding(table, s.log, key);
    if Undisturbed(table, s.log, key) {
      InflightIsOutstanding(table, s.log, key);
    }
  }

  /** In every run, right after a call was granted slots: ready and in-flight sandboxes reach the
      size read or the batch, and fit the stored size exactly when one of those does. */
  lemma GrantFitsInEveryRun(table: Table, run: seq<Label>, i: nat)
    requires "" !in table
    requires var log := Exec(Start(table), run).log;
             i < |log| && log[i].tx.Reserve? && log[i].reply.Slots? && log[i].reply.n > 0
    ensures var log := Exec(Start(table), run).log;
            var e, before, after := log[i], Replay(table, log[..i]), Replay(table, log[..i + 1]);
            e.key in before && e.key in after && Granted(e, before[e.key], after[e.key])
  {
    EveryCallIsOneTransaction(table, run);
    GrantFitsDesiredSizeIff(table, Exec(Start(table), run).log, i);
  }

  /** And it can be lowered: a reservation reads the size 5, an upsert lowers it to 1, and the
      compare-and-set still matches. */
  lemma SizeCanBeLoweredUnseen(seg: Segment, now: Time) returns (run: seq<Label>)
    requires seg.desired == 5 && seg.inflight == 0
    ensures var s := Exec(Start(map["k" := seg]), run);
            && "k" in s.segments && s.segments["k"].inflight == 5 && s.segments["k"].desired == 1
            && PcOf(s, 1) == Returned(Call("k", Reserve(0, 5, now)), 0, Slots(5), Some(1))
  {
    var table := map["k" := seg];
    var reserve, upsert := Call("k", Reserve(0, 5, now)), Call("k", Upsert(seg.config, 1, now));
    var labels := [Begin(1, reserve), Proceed(1), Begin(2, upsert), Proceed(1)];
    var s1 := Step(Start(table), labels[0]);
    assert s1 == State(table, map[1 := Finding(reserve, 0, 0)], []);
    var s2 := Step(s1, labels[1]);
    assert s2 == State(table, map[1 := Taking(reserve, 0, 0, 5, 0, 5)], []);
    var s3 := Step(s2, labels[2]);
    assert s3.segments["k"].inflight == 0 && s3.segments["k"].desired == 1 && |s3.log| == 1 && s3.pcs[1] == s2.pcs[1];
    run := labels;
    ExecMore(Start(table), [], labels[0]);
    ExecMore(Start(table), labels[..1], labels[1]);
    ExecMore(Start(table), labels[..2], labels[2]);
    ExecMore(Start(table), labels[..3], labels[3]);
    assert [] + [labels[0]] == labels[..1] && labels[..1] + [labels[1]] == labels[..2];
    assert labels[..2] + [labels[2]] == labels[..3] && labels[..3] + [labels[3]] == labels;
  }

  lemma ExecMore(s: State, run: seq<Label>, l: Label)
    ensures Exec(s, run + [l]) == Step(Exec(s, run), l)
  {
    assert (run + [l])[..|run|] == run;
  }

  // ----- Workers that give back what they hold themselves -----

  /** Each completion that starts gives back no more than its worker holds at that moment. */
  ghost predicate HonestWorkers(s: State, run: seq<Label>) {
    forall i {:trigger run[i]} :: 0 <= i < |run| ==> HonestLabel(Exec(s, run[..i]), run[i])
  }

  ghost predicate HonestLabel(s: State, l: Label) {
    l.Begin? && l.call.tx.Complete? ==> l.call.tx.count <= Held(s.log, l.call.key, l.actor)
  }

  ghost predicate Honest(s: State) {
    && Disciplined(s.log)
    && forall a :: a in s.pcs && Open(s.pcs[a]) && s.pcs[a].call.tx.Complete? ==>
         s.pcs[a].call.tx.count <= Held(s.log, s.pcs[a].call.key, a)
  }

  lemma HeldOfOthers(log: seq<Entry>, e: Entry, key: string, a: Actor)
    requires e.actor != a
    ensures Held(log + [e], key, a) == Held(log, key, a)
  {
    assert (log + [e])[..|log|] == log;
  }

  lemma StepKeepsHonest(table: Table, s: State, l: Label)
    requires Sound(table, s) && Honest(s) && HonestLabel(s, l)
    ensures Honest(Step(s, l))
  {
    var s' := Step(s, l);
    StepShape(table, s, l);
    if s'.log != s.log {
      var e := s'.log[|s.log|];
      assert s'.log == s.log + [e];
      forall i | 0 <= i < |s.log| ensures s'.log[..i] == s.log[..i] {}
      forall b | b in s'.pcs && b != l.actor ensures Held(s'.log, PcKey(s'.pcs[b]), b) == Held(s.log,
          PcKey(s'.pcs[b]), b) {
        HeldOfOthers(s.log, e, PcKey(s'.pcs[b]), b);
      }
      forall b | b in s'.pcs && Open(s'.pcs[b]) && s'.pcs[b].call.tx.Complete?
        ensures s'.pcs[b].call.tx.count <= Held(s'.log, s'.pcs[b].call.key, b)
      {
        assert b != l.actor && PcOf(s', b) == PcOf(s, b);
      }
    } else {
      forall b | b in s'.pcs && Open(s'.pcs[b]) && s'.pcs[b].call.tx.Complete?
        ensures s'.pcs[b].call.tx.count <= Held(s'.log, s'.pcs[b].call.key, b)
      {
        if b != l.actor { assert PcOf(s', b) == PcOf(s, b); }
      }
    }
  }

  function PcKey(pc: Pc): string { if pc.Idle? then "" else pc.call.key }

  lemma {:induction false} HonestRunsStayHonest(table: Table, run: seq<Label>)
    requires "" !in table && HonestWorkers(Start(table), run)
    ensures Honest(Exec(Start(table), run))
  {
    if run == [] {
    } else {
      var front := run[..|run| - 1];
      forall i | 0 <= i < |front| ensures front[..i] == run[..i] && front[i] == run[i] {}
      assert run[..|front|] == front && run[|front|] == run[|run| - 1];
      HonestRunsStayHonest(table, front);
      EveryCallIsOneTransaction(table, front);
      StepKeepsHonest(table, Exec(Start(table), front), run[|run| - 1]);
    }
  }

  /** So workers that each give back only what they won themselves conserve the slots too. */
  lemma WorkersConserveSlots(table: Table, run: seq<Label>, key: string)
    requires "" !in table && AllIdle(table) && HonestWorkers(Start(table), run)
    ensures var s := Exec(Start(table), run);
            && 0 <= Inflight(s.segments, key) <= Outstanding(s.log, key, {})
            && (Undisturbed(table, s.log, key) ==> Inflight(s.segments, key) == Outstanding(s.log, key, {}))
  {
    HonestRunsStayHonest(table, run);
    DisciplinedIsPooled(Exec(Start(table), run).log, key);
    PooledRunConserves(table, run, key);
  }

}
