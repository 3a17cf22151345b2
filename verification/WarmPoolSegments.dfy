/**
  The counters of one warm-pool segment, the row-locked transactions that change them, and
  what a log of such transactions conserves.

  Times are microseconds; where a filter compares their texts, the comparison is that of texts.
  A transaction is the atomic specification shared by both database backends. A log entry
  also remembers the desired size its caller had read: the document backend's
  compare-and-set does not test that field.
 */
module WarmPoolSegments {
  import opened Wrappers
  import opened Timestamps

  type Time = int
  type Actor = nat

  datatype PoolConfig = PoolConfig(
    templateId: string, cpuLimit: string, memoryLimit: string, timeout: int,
    preferredGateway: Option<string>, lastError: Option<string>)

  datatype Segment = Segment(
    config: PoolConfig, desired: int,
    inflight: int, inflightUpdatedAt: Option<Time>,
    handoffs: int, failed: int,
    lastHandoffAt: Option<Time>, lastRefillAt: Option<Time>,
    createdAt: Time, updatedAt: Time)

  datatype Tx =
    | Reserve(ready: int, batchMax: int, now: Time)
    | Complete(count: int, success: bool, now: Time)
    | Reset(cutoff: Time, now: Time)
    | Disable(message: Option<string>, now: Time)
    | Upsert(config: PoolConfig, size: int, now: Time)
    | Handoff(now: Time)

  /** What a transaction answers: a number of slots, or whether a row changed. */
  datatype Reply = Slots(n: nat) | Changed(ok: bool)

  function Max(a: int, b: int): int { if a < b then b else a }
  function Min(a: int, b: int): int { if a < b then a else b }

  /** In-flight work beyond this many slots is useless when `ready` sandboxes already wait. */
  function Useful(desired: int, ready: int): nat { Max(0, Max(0, desired) - Max(0, ready)) }

  /** The slots granted on top of `inflight` slots already being filled. */
  function Grant(want: nat, desired: int, ready: int, inflight: int): nat {
    Max(0, Min(want, Max(0, desired) - Max(0, ready) - inflight))
  }

  function ReserveRow(seg: Segment, ready: int, want: nat, now: Time): (Segment, nat) {
    var stored := Max(0, seg.inflight);
    var useful := Useful(seg.desired, ready);
    var clamped := if stored > useful
                   then seg.(inflight := useful, inflightUpdatedAt := Some(now), updatedAt := now) else seg;
    var inflight := Min(stored, useful);
    var n := Grant(want, seg.desired, ready, inflight);
    if n > 0
    then
      (clamped.(inflight := inflight + n, inflightUpdatedAt := Some(now), lastRefillAt := Some(now), updatedAt := now),
       n)
    else (clamped, 0)
  }

  function CompleteRow(seg: Segment, release: nat, success: bool, now: Time): Segment {
    var left := Max(0, Max(0, seg.inflight) - release);
    seg.(inflight := left, inflightUpdatedAt := if left > 0 then Some(now) else None,
         failed := seg.failed + (if success then 0 else release), updatedAt := now)
  }

  predicate Stale(seg: Segment, cutoff: Time) {
    seg.inflight != 0
    && AtOrBeforeAsText(match seg.inflightUpdatedAt case Some(t) => t case None => seg.createdAt, cutoff)
  }

  function FreshSegment(config: PoolConfig, size: int, now: Time): Segment {
    Segment(config, Max(0, size), 0, None, 0, 0, None, None, now, now)
  }

  /** One transaction on the row of one segment, if the row exists. */
  function RunTx(tx: Tx, row: Option<Segment>): (Option<Segment>, Reply) {
    match tx
    case Reserve(ready, batchMax, now) =>
      if row.None? || batchMax <= 0 then (row, Slots(0))
      else
        var (seg, n) := ReserveRow(row.value, ready, batchMax, now);
        (Some(seg), Slots(n))
    case Complete(count, success, now) =>
      if row.None? || count <= 0 then (row, Changed(false))
      else (Some(CompleteRow(row.value, count, success, now)), Changed(true))
    case Reset(cutoff, now) =>
      if row.None? || !Stale(row.value, cutoff) then (row, Changed(false))
      else (Some(row.value.(inflight := 0, inflightUpdatedAt := None, updatedAt := now)), Changed(true))
    case Disable(message, now) =>
      if row.None? then (row, Changed(false))
      else
        var config := row.value.config.(preferredGateway := None, lastError := message);
        (Some(row.value.(config := config, desired := 0, inflight := 0, inflightUpdatedAt := None, updatedAt := now)),
         Changed(true))
    case Upsert(config, size, now) =>
      (match row
       case None => Some(FreshSegment(config, size, now))
       case Some(seg) => Some(seg.(config := config, desired := Max(0, size), updatedAt := now)),
       Changed(true))
    case Handoff(now) =>
      if row.None? then (row, Changed(false))
      else (Some(row.value.(handoffs := row.value.handoffs + 1, lastHandoffAt := Some(now), updatedAt := now)),
            Changed(true))
  }

  // ----- What a reservation means -----

  /** The granted slots are the most the caller may take: within its batch, within the desired
      size, and short of the batch only when the segment is then full. A clamp never raises. */
  lemma ReserveIsMaximal(seg: Segment, ready: int, want: nat, now: Time)
    requires want > 0 && seg.inflight >= 0
    ensures var (post, n) := ReserveRow(seg, ready, want, now);
            && n <= want
            && (n > 0 ==> post.inflight == seg.inflight + n && Max(0, ready) + post.inflight <= seg.desired)
            && (n < want ==> post.inflight >= Useful(seg.desired, ready))
            && (n == 0 ==> post.inflight == Min(seg.inflight, Useful(seg.desired, ready)))
            && post == seg.(inflight := post.inflight, inflightUpdatedAt := post.inflightUpdatedAt,
                            lastRefillAt := post.lastRefillAt, updatedAt := post.updatedAt)
  {
  }

  /** A row that has to be clamped never grants a slot in the same transaction. */
  lemma ClampGrantsNothing(seg: Segment, ready: int, want: nat, now: Time)
    requires seg.inflight > Useful(seg.desired, ready)
    ensures ReserveRow(seg, ready, want, now).1 == 0
    ensures ReserveRow(seg, ready, want, now).0.inflight == Useful(seg.desired, ready)
  {
  }

  // ----- Transactions whose caller had read another desired size -----

  /** The effect of `tx` when its caller computed with the desired size `seen`. */
  function RunSeen(tx: Tx, seen: int, row: Option<Segment>): (Option<Segment>, Reply) {
    if tx.Reserve? && row.Some?
    then
      var (post, reply) := RunTx(tx, Some(row.value.(desired := seen)));
      (Some(post.value.(desired := row.value.desired)), reply)
    else RunTx(tx, row)
  }

  lemma SeenIsCurrent(tx: Tx, row: Option<Segment>)
    requires row.Some?
    ensures RunSeen(tx, row.value.desired, row) == RunTx(tx, row)
  {
    assert row.value.(desired := row.value.desired) == row.value;
    if tx.Reserve? && tx.batchMax > 0 {
      assert ReserveRow(row.value, tx.ready, tx.batchMax, tx.now).0.desired == row.value.desired;
    }
  }

  /** A grant computed from a stale desired size is the transaction's own grant exactly when
      the free room, cut at the batch size, came out the same. */
  lemma StaleGrantAgreesIff(seg: Segment, seen: int, ready: int, want: nat, now: Time)
    requires want > 0 && seg.inflight >= 0
    requires ReserveRow(seg.(desired := seen), ready, want, now).1 > 0
    ensures var tx := Reserve(ready, want, now);
            RunSeen(tx, seen, Some(seg)) == RunTx(tx, Some(seg)) <==>
              Min(want, Useful(seen, ready) - seg.inflight) == Min(want, Useful(seg.desired, ready) - seg.inflight)
  {
  }

  /** A clamp computed from a stale desired size is the transaction's own exactly when both
      sizes leave the same number of useful slots. */
  lemma StaleClampAgreesIff(seg: Segment, seen: int, ready: int, want: nat, now: Time)
    requires want > 0 && seg.inflight > Useful(seen, ready)
    ensures var tx := Reserve(ready, want, now);
            RunSeen(tx, seen, Some(seg)) == RunTx(tx, Some(seg)) <==>
              Useful(seen, ready) == Useful(seg.desired, ready)
  {
    var tx := Reserve(ready, want, now);
    ClampGrantsNothing(seg.(desired := seen), ready, want, now);
    assert RunSeen(tx, seen, Some(seg)).0.value.inflight == Useful(seen, ready);
    if seg.inflight > Useful(seg.desired, ready) {
      ClampGrantsNothing(seg, ready, want, now);
    } else {
      ReserveIsMaximal(seg, ready, want, now);
    }
  }

  // ----- The single updates a caller makes, as transactions -----

  lemma TakeIsReserve(seg: Segment, desired: int, ready: int, batchMax: int, now: Time)
    requires batchMax > 0 && 0 <= seg.inflight <= Useful(desired, ready)
    ensures var n := Grant(batchMax, desired, ready, seg.inflight);
            n > 0 ==>
              RunSeen(Reserve(ready, batchMax, now), desired, Some(seg)) ==
                (Some(seg.(inflight := seg.inflight + n, inflightUpdatedAt := Some(now),
                           lastRefillAt := Some(now), updatedAt := now)), Slots(n))
  {
  }

  lemma ClampIsReserve(seg: Segment, desired: int, ready: int, batchMax: int, now: Time)
    requires batchMax > 0 && seg.inflight > Useful(desired, ready)
    ensures RunSeen(Reserve(ready, batchMax, now), desired, Some(seg)) ==
              (Some(seg.(inflight := Useful(desired, ready), inflightUpdatedAt := Some(now), updatedAt := now)),
                  Slots(0))
  {
    ClampGrantsNothing(seg.(desired := desired), ready, batchMax, now);
  }

  lemma ReleaseIsComplete(seg: Segment, count: int, success: bool, now: Time)
    requires count > 0 && seg.inflight >= 0
    ensures var left := Max(0, seg.inflight - count);
            RunSeen(Complete(count, success, now), 0, Some(seg)) ==
              (Some(seg.(inflight := left, inflightUpdatedAt := if left > 0 then Some(now) else None,
                         updatedAt := now, failed := seg.failed + (if success then 0 else count))), Changed(true))
  {
  }

  // ----- Logs of transactions -----

  datatype Entry = Entry(actor: Actor, key: string, tx: Tx, seen: int, reply: Reply)

  type Table = map<string, Segment>

  function Row(table: Table, key: string): Option<Segment> {
    if key in table then Some(table[key]) else None
  }

  function Store(table: Table, key: string, row: Option<Segment>): Table {
    if row.Some? then table[key := row.value] else table
  }

  function Apply(table: Table, e: Entry): Table {
    Store(table, e.key, RunSeen(e.tx, e.seen, Row(table, e.key)).0)
  }

  function Replay(table: Table, log: seq<Entry>): Table {
    if log == [] then table else Apply(Replay(table, log[..|log| - 1]), log[|log| - 1])
  }

  /** Every entry's recorded answer is the one its transaction gives at its place in the log. */
  ghost predicate Truthful(table: Table, log: seq<Entry>) {
    log == [] ||
    var front, e := log[..|log| - 1], log[|log| - 1];
    Truthful(table, front) && e.reply == RunSeen(e.tx, e.seen, Row(Replay(table, front), e.key)).1
  }

  lemma ReplayAppend(table: Table, log: seq<Entry>, e: Entry)
    ensures Replay(table, log + [e]) == Apply(Replay(table, log), e)
    ensures Truthful(table, log) && e.reply == RunSeen(e.tx, e.seen, Row(Replay(table, log), e.key)).1
            ==> Truthful(table, log + [e])
  {
    assert (log + [e])[..|log|] == log;
  }

  lemma {:induction false} TruthfulAt(table: Table, log: seq<Entry>, i: nat)
    requires Truthful(table, log) && i < |log|
    ensures log[i].reply == RunSeen(log[i].tx, log[i].seen, Row(Replay(table, log[..i]), log[i].key)).1
  {
    if i < |log| - 1 {
      TruthfulAt(table, log[..|log| - 1], i);
      assert log[..|log| - 1][..i] == log[..i];
    }
  }

  // ----- Conservation of in-flight slots -----

  /** Slots won minus slots given back on `key`, by every actor outside `except`. */
  function Outstanding(log: seq<Entry>, key: string, except: set<Actor>): int {
    if log == [] then 0
    else Outstanding(log[..|log| - 1], key, except) + Weight(log[|log| - 1], key, except)
  }

  function Weight(e: Entry, key: string, except: set<Actor>): int {
    if e.key != key || e.actor in except then 0
    else if e.reply.Slots? then e.reply.n
    else if e.tx.Complete? && e.reply.ok then -e.tx.count
    else 0
  }

  /** No completion that takes effect gives back more than is outstanding on its key, whoever had
      reserved it. */
  ghost predicate Pooled(log: seq<Entry>, key: string) {
    log == [] ||
    var front, e := log[..|log| - 1], log[|log| - 1];
    Pooled(front, key) && (e.key == key && e.tx.Complete? && e.reply == Changed(true) ==>
        e.tx.count <= Outstanding(front, key, {}))
  }

  ghost predicate AllIdle(table: Table) {
    forall k :: k in table ==> table[k].inflight == 0
  }

  lemma {:induction false} PooledIsNonNegative(log: seq<Entry>, key: string)
    requires Pooled(log, key)
    ensures Outstanding(log, key, {}) >= 0
  {
    if log == [] {
    } else {
      PooledIsNonNegative(log[..|log| - 1], key);
    }
  }

  /** How one transaction moves the stored counter, against the weight it has in the log. */
  lemma CounterStep(tx: Tx, seen: int, row: Option<Segment>, actor: Actor, key: string)
    requires row.Some? ==> row.value.inflight >= 0
    ensures var (post, reply) := RunSeen(tx, seen, row);
            var weight := Weight(Entry(actor, key, tx, seen, reply), key, {});
            && (post.None? ==> row.None? && weight == 0)
            && (post.Some? && row.None? ==> post.value.inflight == weight == 0)
            && (post.Some? && row.Some? ==>
                  && 0 <= post.value.inflight <= Max(0, row.value.inflight + weight)
                  && (weight >= 0 && post.value.inflight >= row.value.inflight && !tx.Complete? ==>
                        post.value.inflight == row.value.inflight + weight)
                  && (tx.Complete? ==> post.value.inflight == Max(0, row.value.inflight + weight)))
  {
    if row.Some? && tx.Reserve? && tx.batchMax > 0 {
      ReserveIsMaximal(row.value.(desired := seen), tx.ready, tx.batchMax, tx.now);
    }
  }

  /** In every such log the stored counter is between zero and the slots outstanding; a segment that
      does not exist has no slots outstanding. */
  lemma {:induction false} InflightWithinOutstanding(table: Table, log: seq<Entry>, key: string)
    requires AllIdle(table) && Pooled(log, key) && Truthful(table, log)
    ensures match Row(Replay(table, log), key)
            case Some(seg) => 0 <= seg.inflight <= Outstanding(log, key, {})
            case None => Outstanding(log, key, {}) == 0
  {
    if log == [] {
    } else {
      var front, e := log[..|log| - 1], log[|log| - 1];
      InflightWithinOutstanding(table, front, key);
      PooledIsNonNegative(log, key);
      if e.key == key {
        CounterStep(e.tx, e.seen, Row(Replay(table, front), key), e.actor, key);
      }
    }
  }

  /** No entry of the log lowers the counter of `key`, except by giving slots back. */
  ghost predicate Undisturbed(table: Table, log: seq<Entry>, key: string) {
    log == [] ||
    var front, e := log[..|log| - 1], log[|log| - 1];
    && Undisturbed(table, front, key)
    && (e.key == key && !e.tx.Complete? ==> Inflight(Replay(table, front), key) <= Inflight(Replay(table, log), key))
  }

  function Inflight(table: Table, key: string): int {
    if key in table then table[key].inflight else 0
  }

  /** When nothing but completions ever lowered the counter (no clamp, reset or disable took
      effect), the counter is exactly the number of slots outstanding. */
  lemma {:induction false} InflightIsOutstanding(table: Table, log: seq<Entry>, key: string)
    requires AllIdle(table) && Pooled(log, key) && Truthful(table, log) && Undisturbed(table, log, key)
    ensures Inflight(Replay(table, log), key) == Outstanding(log, key, {})
  {
    if log == [] {
    } else {
      var front, e := log[..|log| - 1], log[|log| - 1];
      InflightIsOutstanding(table, front, key);
      InflightWithinOutstanding(table, front, key);
      PooledIsNonNegative(log, key);
      if e.key == key {
        CounterStep(e.tx, e.seen, Row(Replay(table, front), key), e.actor, key);
      }
    }
  }

  // ----- Workers that give back what they hold themselves -----

  /** What `actor` still holds on `key`. */
  function Held(log: seq<Entry>, key: string, actor: Actor): int {
    Outstanding(log, key, {}) - Outstanding(log, key, {actor})
  }

  /** Workers give back only what they hold. */
  ghost predicate Disciplined(log: seq<Entry>) {
    log == [] ||
    var front, e := log[..|log| - 1], log[|log| - 1];
    Disciplined(front) && (e.tx.Complete? && e.reply == Changed(true) ==> e.tx.count <= Held(front, e.key, e.actor))
  }

  lemma {:induction false} ExceptOneMore(log: seq<Entry>, key: string, except: set<Actor>, actor: Actor)
    requires actor !in except
    ensures Outstanding(log, key, except) - Outstanding(log, key, except + {actor}) == Held(log, key, actor)
  {
    if log == [] {
    } else {
      ExceptOneMore(log[..|log| - 1], key, except, actor);
    }
  }

  /** No set of disciplined workers ever holds a negative number of slots. */
  lemma {:induction false} OutstandingNonNegative(log: seq<Entry>, key: string, except: set<Actor>)
    requires Disciplined(log)
    ensures Outstanding(log, key, except) >= 0
  {
    if log == [] {
    } else {
      var front, e := log[..|log| - 1], log[|log| - 1];
      OutstandingNonNegative(front, key, except);
      if Weight(e, key, except) < 0 {
        OutstandingNonNegative(front, key, except + {e.actor});
        ExceptOneMore(front, key, except, e.actor);
      }
    }
  }

  /** So their completions never exceed what is outstanding. */
  lemma {:induction false} DisciplinedIsPooled(log: seq<Entry>, key: string)
    requires Disciplined(log)
    ensures Pooled(log, key)
  {
    if log == [] {
    } else {
      var front, e := log[..|log| - 1], log[|log| - 1];
      DisciplinedIsPooled(front, key);
      OutstandingNonNegative(front, key, {e.actor});
    }
  }

  // ----- Conservation of failures -----

  /** The slots given back as failed on `key`. */
  function Failures(log: seq<Entry>, key: string): int {
    if log == [] then 0
    else
      var e := log[|log| - 1];
      Failures(log[..|log| - 1], key)
      + (if e.key == key && e.tx.Complete? && e.reply == Changed(true) && !e.tx.success then e.tx.count else 0)
  }

  lemma TxCounts(tx: Tx, seen: int, seg: Segment)
    ensures var (post, reply) := RunSeen(tx, seen, Some(seg));
            && post.Some?
            && post.value.failed == seg.failed
                + (if tx.Complete? && reply == Changed(true) && !tx.success then tx.count else 0)
            && post.value.handoffs == seg.handoffs + (if tx.Handoff? then 1 else 0)
            && post.value.createdAt == seg.createdAt
  {
  }

  /** Whatever else happens to a segment, its failure count grows by exactly the slots given back
      as failed, its hand-off count by the hand-offs, and it keeps its time of creation. */
  lemma {:induction false} FailuresAreConserved(table: Table, log: seq<Entry>, key: string)
    requires key in table && Truthful(table, log)
    ensures var after := Replay(table, log);
            && key in after && after[key].failed == table[key].failed + Failures(log, key)
            && after[key].handoffs == table[key].handoffs + HandoffsIn(log, key)
            && after[key].createdAt == table[key].createdAt
  {
    if log == [] {
    } else {
      var front, e := log[..|log| - 1], log[|log| - 1];
      FailuresAreConserved(table, front, key);
      TxCounts(e.tx, e.seen, Replay(table, front)[key]);
    }
  }

  function HandoffsIn(log: seq<Entry>, key: string): nat {
    if log == [] then 0
    else HandoffsIn(log[..|log| - 1], key) + (if log[|log| - 1].key == key && log[|log| - 1].tx.Handoff? then 1 else 0)
  }

  // ----- The desired size right after a grant -----

  /** What granting the slots of an entry left of its segment: ready and in-flight sandboxes up to the
      size its caller had read or to its batch, whichever is less; so they fit the stored size
      exactly when that is not below the one read, or the batch alone fits. */
  predicate Granted(e: Entry, before: Segment, after: Segment)
    requires e.tx.Reserve?
  {
    var ready, full := Max(0, e.tx.ready), Max(0, e.tx.ready) + Max(0, before.inflight) + e.tx.batchMax;
    && after.desired == before.desired
    && ready + after.inflight == Min(e.seen, full)
    && (ready + after.inflight <= after.desired <==> e.seen <= after.desired || full <= after.desired)
  }

  /** So it is of every entry of a log that granted slots. */
  lemma GrantFitsDesiredSizeIff(table: Table, log: seq<Entry>, i: nat)
    requires Truthful(table, log) && i < |log| && log[i].tx.Reserve? && log[i].reply.Slots? && log[i].reply.n > 0
    ensures var e, before, after := log[i], Replay(table, log[..i]), Replay(table, log[..i + 1]);
            e.key in before && e.key in after && Granted(e, before[e.key], after[e.key])
  {
    TruthfulAt(table, log, i);
    assert log[..i + 1] == log[..i] + [log[i]];
    ReplayAppend(table, log[..i], log[i]);
    var before := Replay(table, log[..i]);
    GrantIsMin(before[log[i].key].(desired := log[i].seen), log[i].tx.ready, log[i].tx.batchMax, log[i].tx.now);
  }

  lemma GrantIsMin(seg: Segment, ready: int, want: nat, now: Time)
    requires want > 0 && ReserveRow(seg, ready, want, now).1 > 0
    ensures var post := ReserveRow(seg, ready, want, now).0;
            && post.desired == seg.desired
            && Max(0, ready) + post.inflight == Min(seg.desired, Max(0, ready) + Max(0, seg.inflight) + want)
  {
  }

  /** In particular they fit the size that was read, for whoever has no more sandboxes ready. */
  lemma GrantFitsDesiredSize(table: Table, log: seq<Entry>, i: nat, trulyReady: nat)
    requires Truthful(table, log) && i < |log| && log[i].tx.Reserve? && log[i].reply.Slots? && log[i].reply.n > 0
    requires trulyReady <= Max(0, log[i].tx.ready)
    ensures var after := Replay(table, log[..i + 1]);
            && log[i].key in after
            && trulyReady + after[log[i].key].inflight <= log[i].seen
            && (log[i].seen <= after[log[i].key].desired ==>
                  trulyReady + after[log[i].key].inflight <= after[log[i].key].desired)
  {
    GrantFitsDesiredSizeIff(table, log, i);
  }

  // ----- Which reservations a reset clears -----

  /** The entry does not touch the reservations of the key. */
  predicate Leaves(e: Entry, key: string) {
    e.key != key || e.tx.Upsert? || e.tx.Handoff? || e.reply == Changed(false)
  }

  lemma StepLeaves(tx: Tx, seen: int, seg: Segment)
    ensures var (post, reply) := RunSeen(tx, seen, Some(seg));
            tx.Upsert? || tx.Handoff? || reply == Changed(false) ==>
              post.Some? && post.value.inflight == seg.inflight && post.value.inflightUpdatedAt == seg.inflightUpdatedAt
  {
  }

  lemma {:induction false} Untouched(table: Table, log: seq<Entry>, key: string, j: nat)
    requires Truthful(table, log) && j <= |log| && key in Replay(table, log[..j])
    requires forall k :: j <= k < |log| ==> Leaves(log[k], key)
    ensures var before, after := Replay(table, log[..j]), Replay(table, log);
            && key in after && after[key].inflight == before[key].inflight
            && after[key].inflightUpdatedAt == before[key].inflightUpdatedAt
  {
    if |log| == j {
      assert log[..j] == log;
    } else {
      var front, e := log[..|log| - 1], log[|log| - 1];
      assert front[..j] == log[..j];
      forall k | j <= k < |front| ensures Leaves(front[k], key) { assert front[k] == log[k]; }
      Untouched(table, front, key, j);
      StepLeaves(e.tx, e.seen, Replay(table, front)[key]);
    }
  }

  /** What the counter was last given: granted slots at the caller's time, or what a completion left
      over, at its time. */
  lemma GivenTime(e: Entry, before: Option<Segment>)
    requires e.reply == RunSeen(e.tx, e.seen, before).1
    requires (e.tx.Reserve? && e.reply != Slots(0)) || (e.tx.Complete? && e.reply == Changed(true))
    ensures var post := RunSeen(e.tx, e.seen, before).0;
            && post.Some?
            && (e.tx.Reserve? ==> post.value.inflight > 0)
            && (post.value.inflight > 0 ==> post.value.inflightUpdatedAt == Some(e.tx.now))
            && post.value.inflight >= 0
  {
  }

  /** A reset finds what a grant or a completion last left of the reservations of its key: it clears
      them exactly when some are left and the text of their time is at or before its cutoff's. */
  lemma ResetClearsIff(table: Table, log: seq<Entry>, j: nat, i: nat)
    requires Truthful(table, log) && j < i < |log| && log[j].key == log[i].key && log[i].tx.Reset?
    requires (log[j].tx.Reserve? && log[j].reply != Slots(0)) || (log[j].tx.Complete? && log[j].reply == Changed(true))
    requires forall k :: j < k < i ==> Leaves(log[k], log[j].key)
    ensures var key, before, after := log[i].key, Replay(table, log[..j + 1]), Replay(table, log[..i + 1]);
            && key in before && key in after
            && (log[j].tx.Reserve? ==> before[key].inflight > 0)
            && (log[i].reply == Changed(true) <==>
                  before[key].inflight > 0 && AtOrBeforeAsText(log[j].tx.now, log[i].tx.cutoff))
            && after[key].inflight == if log[i].reply == Changed(true) then 0 else before[key].inflight
  {
    var key := log[i].key;
    EntryAt(table, log, j);
    EntryAt(table, log, i);
    GivenTime(log[j], Row(Replay(table, log[..j]), key));
    TruthfulPrefix(table, log, i);
    assert log[..i][..j + 1] == log[..j + 1];
    Untouched(table, log[..i], key, j + 1);
    ResetOfRow(log[i], Replay(table, log[..i])[key], log[j].tx.now);
  }

  /** An entry's answer and what it leaves of its row. */
  lemma EntryAt(table: Table, log: seq<Entry>, i: nat)
    requires Truthful(table, log) && i < |log|
    ensures (Row(Replay(table, log[..i + 1]), log[i].key), log[i].reply)
            == RunSeen(log[i].tx, log[i].seen, Row(Replay(table, log[..i]), log[i].key))
  {
    TruthfulAt(table, log, i);
    assert log[..i + 1] == log[..i] + [log[i]];
    ReplayAppend(table, log[..i], log[i]);
    RowsStay(log[i].tx, log[i].seen, Row(Replay(table, log[..i]), log[i].key));
  }

  lemma RowsStay(tx: Tx, seen: int, row: Option<Segment>)
    ensures row.Some? ==> RunSeen(tx, seen, row).0.Some?
  {
  }

  lemma ResetOfRow(e: Entry, seg: Segment, given: Time)
    requires e.tx.Reset? && seg.inflight >= 0 && (seg.inflight > 0 ==> seg.inflightUpdatedAt == Some(given))
    ensures var (post, reply) := RunSeen(e.tx, e.seen, Some(seg));
            && post.Some?
            && (reply == Changed(true) <==> seg.inflight > 0 && AtOrBeforeAsText(given, e.tx.cutoff))
            && post.value.inflight == if reply == Changed(true) then 0 else seg.inflight
  {
  }

  /** Reservations that were there from the start are cleared by their own time or, failing that, by
      their segment's. */
  lemma ResetClearsInitialIff(table: Table, log: seq<Entry>, i: nat)
    requires Truthful(table, log) && i < |log| && log[i].tx.Reset? && log[i].key in table
    requires forall k :: 0 <= k < i ==> Leaves(log[k], log[i].key)
    ensures var seg := table[log[i].key];
            log[i].reply == Changed(true) <==>
              && seg.inflight != 0
              && (seg.inflightUpdatedAt.Some? ==> AtOrBeforeAsText(seg.inflightUpdatedAt.value, log[i].tx.cutoff))
              && (seg.inflightUpdatedAt.None? ==> AtOrBeforeAsText(seg.createdAt, log[i].tx.cutoff))
  {
    TruthfulAt(table, log, i);
    TruthfulPrefix(table, log, i);
    assert log[..i][..0] == [];
    Untouched(table, log[..i], log[i].key, 0);
    FailuresAreConserved(table, log[..i], log[i].key);
  }

  lemma {:induction false} TruthfulPrefix(table: Table, log: seq<Entry>, n: nat)
    requires Truthful(table, log) && n <= |log|
    ensures Truthful(table, log[..n])
  {
    if n == |log| {
      assert log[..n] == log;
    } else {
      TruthfulPrefix(table, log[..|log| - 1], n);
      assert log[..|log| - 1][..n] == log[..n];
    }
  }

  /** So no reservation is cleared that is younger than the cutoff by a second, and all are that are
      older by one. */
  lemma ResetIsRightToTheSecond(table: Table, log: seq<Entry>, j: nat, i: nat)
    requires Truthful(table, log) && j < i < |log| && log[j].key == log[i].key && log[i].tx.Reset?
    requires log[j].tx.Reserve? && log[j].reply != Slots(0)
    requires forall k :: j < k < i ==> Leaves(log[k], log[j].key)
    ensures log[i].reply == Changed(true) ==> log[j].tx.now < log[i].tx.cutoff + SECOND
    ensures log[j].tx.now + SECOND <= log[i].tx.cutoff ==> log[i].reply == Changed(true)
  {
    ResetClearsIff(table, log, j, i);
  }

  // ----- What the other fields hold -----

  /** The size last asked for: that of the last upsert, or none since a disable. */
  function LastSize(table: Table, log: seq<Entry>, key: string): Option<int> {
    if log == [] then (if key in table then Some(table[key].desired) else None)
    else
      var e := log[|log| - 1];
      if e.key == key && e.tx.Upsert? then Some(if e.tx.size > 0 then e.tx.size else 0)
      else if e.key == key && e.tx.Disable? && e.reply == Changed(true) then Some(0)
      else LastSize(table, log[..|log| - 1], key)
  }

  function LastConfig(table: Table, log: seq<Entry>, key: string): Option<PoolConfig> {
    if log == [] then (if key in table then Some(table[key].config) else None)
    else
      var e, earlier := log[|log| - 1], LastConfig(table, log[..|log| - 1], key);
      if e.key == key && e.tx.Upsert? then Some(e.tx.config)
      else if e.key == key && e.tx.Disable? && e.reply == Changed(true) && earlier.Some? then
        Some(PoolConfig(earlier.value.templateId, earlier.value.cpuLimit, earlier.value.memoryLimit,
                        earlier.value.timeout, None, e.tx.message))
      else earlier
  }

  /** The time of the last grant. */
  function LastGrant(table: Table, log: seq<Entry>, key: string): Option<Time> {
    if log == [] then (if key in table then table[key].lastRefillAt else None)
    else
      var e := log[|log| - 1];
      if e.key == key && e.tx.Reserve? && e.reply != Slots(0) then Some(e.tx.now)
      else LastGrant(table, log[..|log| - 1], key)
  }

  /** The time of the last hand-off. */
  function LastHandoff(table: Table, log: seq<Entry>, key: string): Option<Time> {
    if log == [] then (if key in table then table[key].lastHandoffAt else None)
    else
      var e := log[|log| - 1];
      if e.key == key && e.tx.Handoff? && e.reply == Changed(true) then Some(e.tx.now)
      else LastHandoff(table, log[..|log| - 1], key)
  }

  /** The time of the last entry that changed the row, other than by a clamp alone. */
  predicate Stamps(e: Entry, key: string) { e.key == key && e.reply != Slots(0) && e.reply != Changed(false) }

  ghost predicate Describes(seg: Segment, table: Table, log: seq<Entry>, key: string) {
    && Some(seg.desired) == LastSize(table, log, key) && Some(seg.config) == LastConfig(table, log, key)
    && seg.lastRefillAt == LastGrant(table, log, key) && seg.lastHandoffAt == LastHandoff(table, log, key)
    && (log != [] && Stamps(log[|log| - 1], key) ==> seg.updatedAt == log[|log| - 1].tx.now)
  }

  lemma EntryDescribes(table: Table, front: seq<Entry>, e: Entry, row: Option<Segment>)
    requires e.reply == RunSeen(e.tx, e.seen, row).1
    requires match row
             case Some(seg) => Describes(seg, table, front, e.key)
             case None => LastSize(table, front, e.key) == None && LastConfig(table, front, e.key) == None
                          && LastGrant(table, front, e.key) == None && LastHandoff(table, front, e.key) == None
    ensures var post := RunSeen(e.tx, e.seen, row).0;
            match post
            case Some(seg) => Describes(seg, table, front + [e], e.key)
            case None => LastSize(table, front + [e], e.key) == None && LastConfig(table, front + [e], e.key) == None
                         && LastGrant(table, front + [e], e.key) == None
                             && LastHandoff(table, front + [e], e.key) == None
  {
    assert (front + [e])[..|front|] == front;
  }

  /** In every log the segment's size and configuration are those of the last upsert or disable, its
      refill and hand-off times those of the last grant and hand-off, and it is there exactly when
      it was at the start or was upserted. */
  lemma {:induction false} FieldsAreLastSet(table: Table, log: seq<Entry>, key: string)
    requires Truthful(table, log)
    ensures match Row(Replay(table, log), key)
            case Some(seg) => Describes(seg, table, log, key)
            case None => LastSize(table, log, key) == None && LastConfig(table, log, key) == None
                         && LastGrant(table, log, key) == None && LastHandoff(table, log, key) == None
  {
    if log == [] {
    } else {
      var front, e := log[..|log| - 1], log[|log| - 1];
      assert log == front + [e];
      FieldsAreLastSet(table, front, key);
      if e.key == key { EntryDescribes(table, front, e, Row(Replay(table, front), key)); }
    }
  }

}
