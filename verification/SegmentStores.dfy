/**
  The segment operations of both backends in their own form: bounded compare-and-set loops over
  documents, and transactions over a locked row.

  A document operation is interleaved with other callers' transactions: `others(n)` is what
  they run just before this call's n-th database access, and may be anything.
 */
module SegmentStores {
  import opened Wrappers
  import opened Timestamps
  import opened WarmPoolSegments
  import opened SegmentProtocol

  datatype Foreign = Foreign(actor: Actor, call: Call, seen: int)

  predicate NotBy(actor: Actor, turns: seq<Foreign>) {
    forall i :: 0 <= i < |turns| ==> turns[i].actor != actor && turns[i].call.key != ""
  }

  ghost predicate Quiet(others: nat -> seq<Foreign>) {
    forall n :: others(n) == []
  }

  /** The call that began at log index `start` has returned `reply`. */
  ghost predicate Finished(log: seq<Entry>, actor: Actor, call: Call, start: nat, reply: Reply, at: Option<nat>) {
    PcSound(log, actor, Returned(call, start, reply, at))
  }

  /** Run alone, the call did what the row-locked transaction does. */
  ghost predicate Transacted(before: Table, after: Table, call: Call, reply: Reply) {
    var (row, answer) := RunTx(call.tx, Row(before, call.key));
    after == Store(before, call.key, row) && reply == answer
  }

  lemma EntryFinishes(log: seq<Entry>, e: Entry, start: nat)
    requires start <= |log| && Silent(log, e.actor, start, None)
    ensures Finished(log + [e], e.actor, Call(e.key, e.tx), start, e.reply, Some(|log|))
  {
  }

  class MongoSegments {
    var documents: Table
    /** The transactions that have taken effect, and the collection they started from. */
    ghost var log: seq<Entry>
    ghost const initial: Table

    ghost predicate Valid()
      reads this
    {
      "" !in documents && documents == Replay(initial, log) && Truthful(initial, log)
    }

    constructor (table: Table)
      requires "" !in table
      ensures Valid() && initial == table && log == []
    {
      documents, log, initial := table, [], table;
    }

    method Others(actor: Actor, turns: seq<Foreign>)
      requires Valid() && NotBy(actor, turns)
      modifies this
      ensures Valid() && old(log) <= log && Silent(log, actor, |old(log)|, None)
      ensures turns == [] ==> documents == old(documents) && log == old(log)
    {
      for i := 0 to |turns|
        invariant Valid() && old(log) <= log && Silent(log, actor, |old(log)|, None)
        invariant turns == [] ==> documents == old(documents) && log == old(log)
      {
        var Foreign(other, call, seen) := turns[i];
        var (row, reply) := RunSeen(call.tx, seen, Row(documents, call.key));
        ghost var _ := Record(other, call, 0, seen, row, reply);
      }
    }

    /** An update that amounts to the given transaction. */
    method Record(actor: Actor, call: Call, ghost start: nat, seen: int, row: Option<Segment>, reply: Reply)
      returns (ghost at: Option<nat>)
      requires Valid() && (row.Some? ==> call.key != "")
      requires (row, reply) == RunSeen(call.tx, seen, Row(documents, call.key))
      modifies this
      ensures Valid() && log == old(log) + [Entry(actor, call.key, call.tx, seen, reply)]
      ensures documents == Store(old(documents), call.key, row)
      ensures start <= |old(log)| && Silent(old(log), actor, start, None) ==>
          Finished(log, actor, call, start, reply, at)
    {
      at := Some(|log|);
      ReplayAppend(initial, log, Entry(actor, call.key, call.tx, seen, reply));
      if start <= |log| && Silent(log, actor, start, None) {
        EntryFinishes(log, Entry(actor, call.key, call.tx, seen, reply), start);
      }
      documents := Store(documents, call.key, row);
      log := log + [Entry(actor, call.key, call.tx, seen, reply)];
    }

    /** update_one on the segment's id and the counter that was read: lower it to the useful slots. */
    method ClampInflight(actor: Actor, call: Call, ghost start: nat, desired: int, inflight: nat)
      returns (matched: bool, ghost at: Option<nat>)
      requires Valid() && start <= |log| && Silent(log, actor, start, None)
      requires call.tx.Reserve? && call.key != "" && call.tx.batchMax > 0 && inflight > Useful(desired, call.tx.ready)
      modifies this
      ensures Valid() && old(log) <= log
      ensures matched <==> call.key in old(documents) && old(documents)[call.key].inflight == inflight
      ensures matched ==> Finished(log, actor, call, start, Slots(0), at)
      ensures matched && old(documents)[call.key].desired == desired ==>
                Transacted(old(documents), documents, call, Slots(0))
      ensures !matched ==> log == old(log) && documents == old(documents)
    {
      if call.key !in documents || documents[call.key].inflight != inflight {
        return false, None;
      }
      var seg, now := documents[call.key], call.tx.now;
      var clamped := seg.(inflight := Useful(desired, call.tx.ready), inflightUpdatedAt := Some(now), updatedAt := now);
      ClampIsReserve(seg, desired, call.tx.ready, call.tx.batchMax, now);
      SeenIsCurrent(call.tx, Some(seg));
      at := Record(actor, call, start, desired, Some(clamped), Slots(0));
      return true, at;
    }

    /** update_one on the segment's id and the counter that was read: add the granted slots. */
    method AddInflight(actor: Actor, call: Call, ghost start: nat, desired: int, inflight: nat, reserve: nat)
      returns (matched: bool, ghost at: Option<nat>)
      requires Valid() && start <= |log| && Silent(log, actor, start, None)
      requires call.tx.Reserve? && call.key != "" && call.tx.batchMax > 0 && inflight <= Useful(desired, call.tx.ready)
      requires reserve == Grant(call.tx.batchMax, desired, call.tx.ready, inflight) > 0
      modifies this
      ensures Valid() && old(log) <= log
      ensures matched <==> call.key in old(documents) && old(documents)[call.key].inflight == inflight
      ensures matched ==> Finished(log, actor, call, start, Slots(reserve), at)
      ensures matched && old(documents)[call.key].desired == desired ==>
                Transacted(old(documents), documents, call, Slots(reserve))
      ensures !matched ==> log == old(log) && documents == old(documents)
    {
      if call.key !in documents || documents[call.key].inflight != inflight {
        return false, None;
      }
      var seg, now := documents[call.key], call.tx.now;
      var taken := seg.(inflight := inflight + reserve, inflightUpdatedAt := Some(now),
                        lastRefillAt := Some(now), updatedAt := now);
      TakeIsReserve(seg, desired, call.tx.ready, call.tx.batchMax, now);
      SeenIsCurrent(call.tx, Some(seg));
      at := Record(actor, call, start, desired, Some(taken), Slots(reserve));
      return true, at;
    }

    /** The call ends without writing: its transaction changes nothing here. */
    method Nothing(actor: Actor, call: Call, ghost start: nat, reply: Reply) returns (ghost at: Option<nat>)
      requires Valid() && start <= |log| && Silent(log, actor, start, None)
      requires RunTx(call.tx, Row(documents, call.key)) == (Row(documents, call.key), reply)
      modifies this
      ensures Valid() && old(log) <= log && Finished(log, actor, call, start, reply, at)
      ensures Transacted(old(documents), documents, call, reply)
    {
      var row := Row(documents, call.key);
      if row.Some? { SeenIsCurrent(call.tx, row); }
      at := Record(actor, call, start, if row.Some? then row.value.desired else 0, row, reply);
    }

    /** One turn of the loop: read, clamp the counter if it is beyond the useful slots, add the
        granted ones. It is over unless an update found another counter than the one read. */
    method ReserveOnce(actor: Actor, call: Call, ghost start: nat, others: nat -> seq<Foreign>, turn: nat)
      returns (over: bool, reserved: nat, ghost at: Option<nat>)
      requires Valid() && start <= |log| && Silent(log, actor, start, None) && forall n :: NotBy(actor, others(n))
      requires call.tx.Reserve? && call.key != "" && call.tx.batchMax > 0
      modifies this
      ensures Valid() && old(log) <= log
      ensures if over then Finished(log, actor, call, start, Slots(reserved), at) else Silent(log, actor, start, None)
      ensures Quiet(others) && !over ==> documents == old(documents)
      ensures Quiet(others) && Inflight(old(documents), call.key) >= 0 ==>
                over && Transacted(old(documents), documents, call, Slots(reserved))
    {
      over, reserved, at := true, 0, None;
      Others(actor, others(turn));
      if call.key !in documents {
        at := Nothing(actor, call, start, Slots(0));
        return;
      }
      var desired := documents[call.key].desired;
      var inflight := Max(0, documents[call.key].inflight);
      var maxUsefulInflight := Useful(desired, call.tx.ready);
      var matched := false;
      if inflight > maxUsefulInflight {
        Others(actor, others(turn + 1));
        matched, at := ClampInflight(actor, call, start, desired, inflight);
        if !matched {
          return false, 0, at;
        }
        inflight := maxUsefulInflight;
      }
      var reserve := Grant(call.tx.batchMax, desired, call.tx.ready, inflight);
      if reserve <= 0 {
        if !matched {
          at := Nothing(actor, call, start, Slots(0));
        }
        return;
      }
      Others(actor, others(turn + 2));
      over, at := AddInflight(actor, call, start, desired, inflight, reserve);
      reserved := if over then reserve else 0;
    }

    /** Whatever the others do, the call ends as exactly one transaction with the answer it
        gives, or refuses after eight tries having written nothing. Run alone on a counter that
        is not negative it is the row-locked transaction. */
    method ReserveWarmPoolSlots(actor: Actor, key: string, readyCount: int, batchMax: int, now: Time,
                                others: nat -> seq<Foreign>)
      returns (reserved: nat, ghost at: Option<nat>)
      requires Valid() && forall n :: NotBy(actor, others(n))
      modifies this
      ensures Valid() && old(log) <= log
      ensures Finished(log, actor, Call(key, Reserve(readyCount, batchMax, now)), |old(log)|, Slots(reserved), at)
      ensures Quiet(others) && Inflight(old(documents), key) >= 0 ==>
                Transacted(old(documents), documents, Call(key, Reserve(readyCount, batchMax, now)), Slots(reserved))
    {
      ghost var start := |log|;
      var call := Call(key, Reserve(readyCount, batchMax, now));
      var want := Max(0, batchMax);
      if key == "" || want <= 0 {
        at := Nothing(actor, call, start, Slots(0));
        return 0, at;
      }
      for try := 0 to MAX_TRIES
        invariant Valid() && old(log) <= log && Silent(log, actor, start, None)
        invariant Quiet(others) ==> documents == old(documents)
        invariant Quiet(others) && Inflight(old(documents), key) >= 0 ==> try == 0
      {
        var over: bool;
        over, reserved, at := ReserveOnce(actor, call, start, others, 3 * try);
        if over {
          return;
        }
      }
      return 0, None;
    }

    /** update_one on the segment's id and the counter that was read: take the given slots off. */
    method SubtractInflight(actor: Actor, call: Call, ghost start: nat, inflight: nat)
      returns (matched: bool, ghost at: Option<nat>)
      requires Valid() && start <= |log| && Silent(log, actor, start, None)
      requires call.tx.Complete? && call.key != "" && call.tx.count > 0
      modifies this
      ensures Valid() && old(log) <= log
      ensures matched <==> call.key in old(documents) && old(documents)[call.key].inflight == inflight
      ensures matched ==> Finished(log, actor, call, start, Changed(true), at)
      ensures matched ==> Transacted(old(documents), documents, call, Changed(true))
      ensures !matched ==> log == old(log) && documents == old(documents)
    {
      if call.key !in documents || documents[call.key].inflight != inflight {
        return false, None;
      }
      var seg, now := documents[call.key], call.tx.now;
      var nextInflight := Max(0, inflight - call.tx.count);
      var next := seg.(inflight := nextInflight, inflightUpdatedAt := if nextInflight > 0 then Some(now) else None,
                       updatedAt := now, failed := seg.failed + (if call.tx.success then 0 else call.tx.count));
      ReleaseIsComplete(seg, call.tx.count, call.tx.success, now);
      at := Record(actor, call, start, 0, Some(next), Changed(true));
      return true, at;
    }

    method CompleteWarmPoolSlots(actor: Actor, key: string, count: int, success: bool, now: Time,
                                 others: nat -> seq<Foreign>)
      returns (ok: bool, ghost at: Option<nat>)
      requires Valid() && forall n :: NotBy(actor, others(n))
      modifies this
      ensures Valid() && old(log) <= log
      ensures Finished(log, actor, Call(key, Complete(count, success, now)), |old(log)|, Changed(ok), at)
      ensures Quiet(others) && Inflight(old(documents), key) >= 0 ==>
                Transacted(old(documents), documents, Call(key, Complete(count, success, now)), Changed(ok))
    {
      ghost var start := |log|;
      var call := Call(key, Complete(count, success, now));
      var release := Max(0, count);
      if key == "" || release <= 0 {
        at := Nothing(actor, call, start, Changed(false));
        return false, at;
      }
      for try := 0 to MAX_TRIES
        invariant Valid() && old(log) <= log && Silent(log, actor, |old(log)|, None)
        invariant Quiet(others) ==> documents == old(documents)
        invariant Quiet(others) && Inflight(old(documents), key) >= 0 ==> try == 0
      {
        Others(actor, others(2 * try));
        if key !in documents {
          at := Nothing(actor, call, start, Changed(false));
          return false, at;
        }
        var inflight := Max(0, documents[key].inflight);
        Others(actor, others(2 * try + 1));
        ok, at := SubtractInflight(actor, call, start, inflight);
        if ok {
          return;
        }
      }
      return false, None;
    }

    /** One update_one whose filter asks for a non-zero counter, and for its time or, failing that,
        the segment's creation not to be after the cutoff. */
    method ResetWarmPoolInflight(actor: Actor, key: string, cutoff: Time, now: Time)
        returns (ok: bool, ghost at: Option<nat>)
      requires Valid()
      modifies this
      ensures Valid() && Transacted(old(documents), documents, Call(key, Reset(cutoff, now)), Changed(ok))
      ensures key != "" ==> Finished(log, actor, Call(key, Reset(cutoff, now)), |old(log)|, Changed(ok), at)
    {
      ok, at := false, None;
      if key == "" {
        return;
      }
      ghost var start := |log|;
      var row := Row(documents, key);
      if row.Some? {
        var seg := row.value;
        ok := seg.inflight != 0
              && ((seg.inflightUpdatedAt.Some? && AtOrBeforeAsText(seg.inflightUpdatedAt.value, cutoff))
                  || (seg.inflightUpdatedAt.None? && AtOrBeforeAsText(seg.createdAt, cutoff)));
        if ok {
          row := Some(seg.(inflight := 0, inflightUpdatedAt := None, updatedAt := now));
        }
      }
      at := Record(actor, Call(key, Reset(cutoff, now)), start, 0, row, Changed(ok));
    }

    method DisableWarmPoolSegment(actor: Actor, key: string, message: Option<string>, now: Time)
      returns (ok: bool, ghost at: Option<nat>)
      requires Valid()
      modifies this
      ensures Valid() && Transacted(old(documents), documents, Call(key, Disable(message, now)), Changed(ok))
      ensures key != "" ==> Finished(log, actor, Call(key, Disable(message, now)), |old(log)|, Changed(ok), at)
    {
      ok, at := false, None;
      if key == "" {
        return;
      }
      ghost var start := |log|;
      var row := Row(documents, key);
      ok := row.Some?;
      if ok {
        var seg := row.value;
        row := Some(seg.(desired := 0, inflight := 0, inflightUpdatedAt := None, updatedAt := now,
                         config := seg.config.(preferredGateway := None, lastError := message)));
      }
      at := Record(actor, Call(key, Disable(message, now)), start, 0, row, Changed(ok));
    }
  }

  /** The relational backend: each method holds the row's lock from its SELECT to its COMMIT. */
  class PostgresSegments {
    var rows: Table

    constructor (table: Table)
      ensures rows == table
    {
      rows := table;
    }

    method ReserveWarmPoolSlots(key: string, readyCount: int, batchMax: int, now: Time) returns (reserve: nat)
      requires "" !in rows
      modifies this
      ensures rows == Store(old(rows), key, RunTx(Reserve(readyCount, batchMax, now), Row(old(rows), key)).0)
      ensures Slots(reserve) == RunTx(Reserve(readyCount, batchMax, now), Row(old(rows), key)).1
    {
      var want := Max(0, batchMax);
      if key == "" || want <= 0 || key !in rows {
        return 0;
      }
      var desired := Max(0, rows[key].desired);
      var inflight := Max(0, rows[key].inflight);
      var ready := Max(0, readyCount);
      var maxUsefulInflight := Max(0, desired - ready);
      if inflight > maxUsefulInflight {
        inflight := maxUsefulInflight;
        rows := rows[key := rows[key].(inflight := inflight, inflightUpdatedAt := Some(now), updatedAt := now)];
      }
      reserve := Max(0, Min(want, desired - ready - inflight));
      if reserve > 0 {
        rows := rows[key := rows[key].(inflight := inflight + reserve, inflightUpdatedAt := Some(now),
                                       lastRefillAt := Some(now), updatedAt := now)];
      }
    }

    method CompleteWarmPoolSlots(key: string, count: int, success: bool, now: Time) returns (ok: bool)
      requires "" !in rows
      modifies this
      ensures rows == Store(old(rows), key, RunTx(Complete(count, success, now), Row(old(rows), key)).0)
      ensures Changed(ok) == RunTx(Complete(count, success, now), Row(old(rows), key)).1
    {
      var release := Max(0, count);
      if key == "" || release <= 0 || key !in rows {
        return false;
      }
      var inflight := Max(0, rows[key].inflight);
      var next := Max(0, inflight - release);
      rows := rows[key := rows[key].(inflight := next, inflightUpdatedAt := if next > 0 then Some(now) else None,
                                     failed := rows[key].failed + (if success then 0 else release), updatedAt := now)];
      return true;
    }

    /** COALESCE(inflight_updated_at, created_at) <= cutoff on a non-zero counter. */
    method ResetWarmPoolInflight(key: string, cutoff: Time, now: Time) returns (ok: bool)
      requires "" !in rows
      modifies this
      ensures rows == Store(old(rows), key, RunTx(Reset(cutoff, now), Row(old(rows), key)).0)
      ensures Changed(ok) == RunTx(Reset(cutoff, now), Row(old(rows), key)).1
    {
      if key == "" || key !in rows {
        return false;
      }
      var seg := rows[key];
      var since := if seg.inflightUpdatedAt.Some? then seg.inflightUpdatedAt.value else seg.createdAt;
      ok := seg.inflight != 0 && AtOrBeforeAsText(since, cutoff);
      if ok {
        rows := rows[key := seg.(inflight := 0, inflightUpdatedAt := None, updatedAt := now)];
      }
    }

    method DisableWarmPoolSegment(key: string, message: Option<string>, now: Time) returns (ok: bool)
      requires "" !in rows
      modifies this
      ensures rows == Store(old(rows), key, RunTx(Disable(message, now), Row(old(rows), key)).0)
      ensures Changed(ok) == RunTx(Disable(message, now), Row(old(rows), key)).1
    {
      ok := key in rows;
      if ok {
        var config := rows[key].config.(preferredGateway := None, lastError := message);
        rows := rows[key := rows[key].(config := config, desired := 0, inflight := 0, inflightUpdatedAt :=
            None, updatedAt := now)];
      }
    }

    method UpsertWarmPoolSegment(key: string, config: PoolConfig, size: int, now: Time) returns (raised: bool)
      requires "" !in rows
      modifies this
      ensures raised == (key == "")
      ensures rows == if raised then old(rows)
          else Store(old(rows), key, RunTx(Upsert(config, size, now), Row(old(rows), key)).0)
    {
      if key == "" {
        return true;
      }
      if key in rows {
        rows := rows[key := rows[key].(config := config, desired := Max(0, size), updatedAt := now)];
      } else {
        rows := rows[key := FreshSegment(config, size, now)];
      }
      return false;
    }
  }

}
