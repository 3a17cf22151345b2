/**
  Rival claimers on the document backend, step by step: read a waiting row, then mark it lost
  or hand it out with a conditional update, then count the hand-off. In between, anything else
  in the service may create, change or delete sandboxes, but nothing puts a sandbox back into
  a warm pool and identifiers are never used twice.
 */
module ClaimProtocol {
  import opened Wrappers
  import opened WarmPoolSegments
  import opened WarmSandboxes

  datatype Pc =
    | Idle
    | Finding(claim: Claim, tries: nat)
    | Losing(claim: Claim, tries: nat, id: Id)
    | Taking(claim: Claim, tries: nat, id: Id, seen: Sandbox)
    | Counting(claim: Claim, id: Id)
    | Returned(got: Option<Id>)

  datatype Win = Win(actor: Actor, id: Id, key: string)

  /** `used` holds every identifier ever created; `won` and `lost` list the conditional updates
      that matched, and `missed` the hand-offs that found no segment to count them in. */
  datatype State = State(
    rows: Sandboxes, segments: Table, pcs: map<Actor, Pc>,
    used: set<Id>, won: seq<Win>, lost: seq<Id>, missed: seq<string>)

  datatype Label =
    | Begin(actor: Actor, claim: Claim)
    | Proceed(actor: Actor)
    | Create(id: Id, row: Sandbox)
    | Change(id: Id, row: Sandbox)
    | Delete(id: Id)
    | Segments(key: string, tx: Tx)

  function PcOf(s: State, a: Actor): Pc { if a in s.pcs then s.pcs[a] else Idle }

  function Goto(s: State, a: Actor, pc: Pc): State { s.(pcs := s.pcs[a := pc]) }

  function Again(c: Claim, tries: nat): Pc { if tries + 1 < CLAIM_TRIES then Finding(c, tries + 1) else Returned(None) }

  function FindStep(s: State, a: Actor, c: Claim, tries: nat): State {
    var pick := Oldest(s.rows, c);
    if pick.None? then Goto(s, a, Returned(None))
    else if Unhealthy(s.rows[pick.value].metadata) then Goto(s, a, Losing(c, tries, pick.value))
    else Goto(s, a, Taking(c, tries, pick.value, s.rows[pick.value]))
  }

  /** The filter asks only that the row is still waiting in some pool. */
  function LoseStep(s: State, a: Actor, c: Claim, tries: nat, id: Id): State {
    var s' := Goto(s, a, Again(c, tries));
    if id in s.rows && s.rows[id].isWarm
    then s'.(rows := s.rows[id := Lost(s.rows[id], c.now)], lost := s.lost + [id])
    else s'
  }

  function TakeStep(s: State, a: Actor, c: Claim, tries: nat, id: Id, seen: Sandbox): State {
    if id in s.rows && s.rows[id].state == "running" && s.rows[id].isWarm && s.rows[id].warmKey == Some(c.key)
    then Goto(s, a, Counting(c, id)).(rows := s.rows[id := Handed(s.rows[id], seen, c)],
                                      won := s.won + [Win(a, id, c.key)])
    else Goto(s, a, Again(c, tries))
  }

  function CountStep(s: State, a: Actor, c: Claim, id: Id): State {
    var s' := Goto(s, a, Returned(Some(id)));
    if c.key in s.segments
    then s'.(segments := Store(s.segments, c.key, RunTx(Handoff(c.now), Row(s.segments, c.key)).0))
    else s'.(missed := s.missed + [c.key])
  }

  function Step(s: State, l: Label): State {
    match l
    case Begin(a, c) =>
      var pc := PcOf(s, a);
      if pc.Idle? || pc.Returned? then Goto(s, a, if c.key == "" then Returned(None) else Finding(c, 0)) else s
    case Proceed(a) =>
      (match PcOf(s, a)
       case Finding(c, tries) => FindStep(s, a, c, tries)
       case Losing(c, tries, id) => LoseStep(s, a, c, tries, id)
       case Taking(c, tries, id, seen) => TakeStep(s, a, c, tries, id, seen)
       case Counting(c, id) => CountStep(s, a, c, id)
       case _ => s)
    case Create(id, row) => if id in s.used then s else s.(rows := s.rows[id := row], used := s.used + {id})
    case Change(id, row) =>
      if id in s.rows && (row.isWarm ==> s.rows[id].isWarm) then s.(rows := s.rows[id := row]) else s
    case Delete(id) => s.(rows := s.rows - {id})
    case Segments(key, tx) =>
      if tx.Handoff? then s else s.(segments := Store(s.segments, key, RunTx(tx, Row(s.segments, key)).0))
  }

  function Exec(s: State, run: seq<Label>): State {
    if run == [] then s else Step(Exec(s, run[..|run| - 1]), run[|run| - 1])
  }

  function Start(rows: Sandboxes, segments: Table): State { State(rows, segments, map[], rows.Keys, [], [], []) }

  // ----- Exclusivity -----

  function Ids(won: seq<Win>): seq<Id> { seq(|won|, i requires 0 <= i < |won| => won[i].id) }

  ghost predicate Distinct(ids: seq<Id>) { forall i, j :: 0 <= i < j < |ids| ==> ids[i] != ids[j] }

  /** Every sandbox that was handed out or lost was so once, and is not waiting any more. */
  ghost predicate Exclusive(s: State) {
    && s.rows.Keys <= s.used
    && Distinct(Ids(s.won) + s.lost)
    && (forall id :: id in Ids(s.won) + s.lost ==> id in s.used && (id in s.rows ==> !s.rows[id].isWarm))
  }

  lemma IdsAppend(won: seq<Win>, w: Win)
    ensures Ids(won + [w]) == Ids(won) + [w.id]
  {
  }

  lemma StepKeepsExclusive(s: State, l: Label)
    requires Exclusive(s)
    ensures Exclusive(Step(s, l))
  {
    if l.Proceed? {
      var pc := PcOf(s, l.actor);
      if pc.Taking? {
        TakeKeepsExclusive(s, l.actor, pc);
      } else if pc.Losing? {
        LoseKeepsExclusive(s, l.actor, pc);
      }
    }
  }

  lemma TakeKeepsExclusive(s: State, a: Actor, pc: Pc)
    requires Exclusive(s) && pc.Taking?
    ensures Exclusive(TakeStep(s, a, pc.claim, pc.tries, pc.id, pc.seen))
  {
    IdsAppend(s.won, Win(a, pc.id, pc.claim.key));
    var before := Ids(s.won) + s.lost;
    if pc.id in s.rows && s.rows[pc.id].isWarm {
      assert pc.id !in before;
      var after := Ids(s.won) + [pc.id] + s.lost;
      forall i, j | 0 <= i < j < |after| ensures after[i] != after[j] {
        var i', j' := if i > |s.won| then i - 1 else i, if j > |s.won| then j - 1 else j;
        assert i != |s.won| ==> after[i] == before[i'];
        assert j != |s.won| ==> after[j] == before[j'];
      }
      assert forall id :: id in after ==> id == pc.id || id in before;
    }
  }

  lemma LoseKeepsExclusive(s: State, a: Actor, pc: Pc)
    requires Exclusive(s) && pc.Losing?
    ensures Exclusive(LoseStep(s, a, pc.claim, pc.tries, pc.id))
  {
    var before := Ids(s.won) + s.lost;
    if pc.id in s.rows && s.rows[pc.id].isWarm {
      assert pc.id !in before;
      assert Ids(s.won) + (s.lost + [pc.id]) == before + [pc.id];
    }
  }

  /** Exclusivity, for every interleaving of claimers and of the rest of the service: no
      sandbox is handed out twice, none is both handed out and marked lost by a rival, and
      none of them is waiting again. */
  lemma {:induction false} ClaimsAreExclusive(rows: Sandboxes, segments: Table, run: seq<Label>)
    ensures Exclusive(Exec(Start(rows, segments), run))
  {
    if run != [] {
      ClaimsAreExclusive(rows, segments, run[..|run| - 1]);
      StepKeepsExclusive(Exec(Start(rows, segments), run[..|run| - 1]), run[|run| - 1]);
    } else {
      assert Ids(Start(rows, segments).won) + Start(rows, segments).lost == [];
    }
  }

  /** `id` has been created and is not waiting in any pool. */
  ghost predicate NotWaiting(s: State, id: Id) { id in s.used && (id in s.rows ==> !s.rows[id].isWarm) }

  /** Waiting is left for good: once a sandbox is not waiting (or is gone), it never waits again. */
  lemma {:induction false} WaitingNeverComesBack(rows: Sandboxes, segments: Table, run: seq<Label>,
      later: seq<Label>, id: Id)
    requires NotWaiting(Exec(Start(rows, segments), run), id)
    ensures NotWaiting(Exec(Start(rows, segments), run + later), id)
  {
    if later == [] {
      assert run + later == run;
    } else {
      var front := later[..|later| - 1];
      WaitingNeverComesBack(rows, segments, run, front, id);
      assert run + later == (run + front) + [later[|later| - 1]];
      StepKeepsNotWaiting(Exec(Start(rows, segments), run + front), later[|later| - 1], id);
    }
  }

  lemma StepKeepsNotWaiting(s: State, l: Label, id: Id)
    requires NotWaiting(s, id)
    ensures NotWaiting(Step(s, l), id)
  {
  }

  // ----- Conservation of hand-offs -----

  function Wins(won: seq<Win>, key: string): nat {
    if won == [] then 0 else Wins(won[..|won| - 1], key) + (if won[|won| - 1].key == key then 1 else 0)
  }

  function Count(keys: seq<string>, key: string): nat {
    if keys == [] then 0 else Count(keys[..|keys| - 1], key) + (if keys[|keys| - 1] == key then 1 else 0)
  }

  /** The claimers that have won a sandbox of `key` and not counted it yet. */
  function Pending(s: State, key: string): set<Actor> {
    set a | a in s.pcs && s.pcs[a].Counting? && s.pcs[a].claim.key == key
  }

  function Handoffs(segments: Table, key: string): int { if key in segments then segments[key].handoffs else 0 }

  /** Hand-offs counted, about to be counted and missed make up the claims won. */
  ghost predicate Counted(base: Table, s: State, key: string) {
    Handoffs(s.segments, key) + |Pending(s, key)| + Count(s.missed, key) == Handoffs(base, key) + Wins(s.won, key)
  }

  lemma WinsAppend(won: seq<Win>, w: Win, key: string)
    ensures Wins(won + [w], key) == Wins(won, key) + (if w.key == key then 1 else 0)
  {
    assert (won + [w])[..|won|] == won;
  }

  lemma PendingAfter(s: State, a: Actor, pc: Pc, key: string)
    requires !PcOf(s, a).Counting?
    ensures Pending(Goto(s, a, pc), key) ==
              if pc.Counting? && pc.claim.key == key then Pending(s, key) + {a} else Pending(s, key)
  {
  }

  lemma TakeKeepsCounted(base: Table, s: State, a: Actor, pc: Pc, key: string)
    requires Counted(base, s, key) && pc == PcOf(s, a) && pc.Taking?
    ensures Counted(base, TakeStep(s, a, pc.claim, pc.tries, pc.id, pc.seen), key)
  {
    PendingAfter(s, a, Counting(pc.claim, pc.id), key);
    PendingAfter(s, a, Again(pc.claim, pc.tries), key);
    WinsAppend(s.won, Win(a, pc.id, pc.claim.key), key);
    var s' := TakeStep(s, a, pc.claim, pc.tries, pc.id, pc.seen);
    assert s'.pcs == Goto(s, a, PcOf(s', a)).pcs;
    assert Pending(s', key) == Pending(Goto(s, a, PcOf(s', a)), key);
  }

  lemma CountAppend(keys: seq<string>, k: string, key: string)
    ensures Count(keys + [k], key) == Count(keys, key) + (if k == key then 1 else 0)
  {
    assert (keys + [k])[..|keys|] == keys;
  }

  lemma PendingLeft(s: State, a: Actor, pc: Pc, key: string)
    requires PcOf(s, a).Counting? && !pc.Counting?
    ensures |Pending(Goto(s, a, pc), key)| == |Pending(s, key)| - (if PcOf(s, a).claim.key == key then 1 else 0)
  {
    assert Pending(Goto(s, a, pc), key) == Pending(s, key) - {a};
    assert a in Pending(s, key) <==> PcOf(s, a).claim.key == key;
  }

  lemma CountKeepsCounted(base: Table, s: State, a: Actor, pc: Pc, key: string)
    requires Counted(base, s, key) && pc == PcOf(s, a) && pc.Counting?
    ensures Counted(base, CountStep(s, a, pc.claim, pc.id), key)
  {
    var s' := CountStep(s, a, pc.claim, pc.id);
    PendingLeft(s, a, Returned(Some(pc.id)), key);
    CountAppend(s.missed, pc.claim.key, key);
    assert Pending(s', key) == Pending(Goto(s, a, Returned(Some(pc.id))), key);
  }

  /** Any other step neither wins nor counts. */
  lemma OtherStepsKeepCounted(base: Table, s: State, l: Label, key: string)
    requires Counted(base, s, key)
    requires l.Proceed? ==> !PcOf(s, l.actor).Taking? && !PcOf(s, l.actor).Counting?
    ensures Counted(base, Step(s, l), key)
  {
    var s' := Step(s, l);
    if l.Proceed? || l.Begin? {
      SamePending(s, s', l, key);
    } else if l.Segments? && !l.tx.Handoff? {
      SegmentsKeepHandoffs(s.segments, l.key, l.tx, key);
      assert Pending(s', key) == Pending(s, key);
    }
  }

  lemma SamePending(s: State, s': State, l: Label, key: string)
    requires s' == Step(s, l) && (l.Proceed? || l.Begin?)
    requires l.Proceed? ==> !PcOf(s, l.actor).Taking? && !PcOf(s, l.actor).Counting?
    ensures Pending(s', key) == Pending(s, key)
  {
    forall a | a in s'.pcs || a in s.pcs ensures a in Pending(s', key) <==> a in Pending(s, key) {
      if a != l.actor { assert PcOf(s', a) == PcOf(s, a); }
    }
  }

  lemma StepKeepsCounted(base: Table, s: State, l: Label, key: string)
    requires Counted(base, s, key)
    ensures Counted(base, Step(s, l), key)
  {
    if l.Proceed? && PcOf(s, l.actor).Taking? {
      TakeKeepsCounted(base, s, l.actor, PcOf(s, l.actor), key);
    } else if l.Proceed? && PcOf(s, l.actor).Counting? {
      CountKeepsCounted(base, s, l.actor, PcOf(s, l.actor), key);
    } else {
      OtherStepsKeepCounted(base, s, l, key);
    }
  }

  lemma SegmentsKeepHandoffs(segments: Table, key: string, tx: Tx, other: string)
    requires !tx.Handoff?
    ensures Handoffs(Store(segments, key, RunTx(tx, Row(segments, key)).0), other) == Handoffs(segments, other)
  {
  }

  /** Conservation, for every interleaving: a segment's hand-off count, the winners about to
      count and the hand-offs that found no segment add up to the claims won. */
  lemma {:induction false} HandoffsAreConserved(rows: Sandboxes, segments: Table, run: seq<Label>, key: string)
    ensures Counted(segments, Exec(Start(rows, segments), run), key)
  {
    if run == [] {
    } else {
      HandoffsAreConserved(rows, segments, run[..|run| - 1], key);
      StepKeepsCounted(segments, Exec(Start(rows, segments), run[..|run| - 1]), run[|run| - 1], key);
    }
  }

  lemma StepMissesNothing(s: State, l: Label, key: string)
    requires key in s.segments
    ensures key in Step(s, l).segments && Count(Step(s, l).missed, key) == Count(s.missed, key)
  {
    var s' := Step(s, l);
    if s'.missed != s.missed { assert s'.missed[..|s.missed|] == s.missed; }
  }

  /** A segment that exists misses none, so then only the winners about to count are outstanding. */
  lemma {:induction false} ExistingSegmentsMissNothing(rows: Sandboxes, segments: Table, run: seq<Label>, key: string)
    requires key in segments
    ensures var s := Exec(Start(rows, segments), run);
            && key in s.segments && Count(s.missed, key) == 0
            && s.segments[key].handoffs + |Pending(s, key)| == segments[key].handoffs + Wins(s.won, key)
  {
    HandoffsAreConserved(rows, segments, run, key);
    if run == [] {
    } else {
      ExistingSegmentsMissNothing(rows, segments, run[..|run| - 1], key);
      StepMissesNothing(Exec(Start(rows, segments), run[..|run| - 1]), run[|run| - 1], key);
    }
  }

  /** A step that wins a sandbox takes a row that was waiting for the claimer's key at that moment,
      and makes it the claimer's; a step that loses one takes a row that was waiting somewhere. */
  lemma StepTakesWaiting(s: State, a: Actor)
    ensures var s' := Step(s, Proceed(a));
            && (s'.won != s.won ==>
                  && PcOf(s, a).Taking?
                  && var Taking(c, _, id, seen) := PcOf(s, a);
                     && id in s.rows && WaitsFor(s.rows[id], c.key, "") && id in s'.rows
                     && s'.won == s.won + [Win(a, id, c.key)] && IsHanded(s.rows[id], seen, s'.rows[id], c)
                     && s'.rows == s.rows[id := s'.rows[id]])
            && (s'.lost != s.lost ==>
                  && PcOf(s, a).Losing?
                  && var Losing(c, _, id) := PcOf(s, a);
                     && id in s.rows && s.rows[id].isWarm && id in s'.rows
                     && s'.lost == s.lost + [id] && IsLost(s.rows[id], s'.rows[id], c.now)
                     && s'.rows == s.rows[id := s'.rows[id]])
            && (s'.won == s.won && s'.lost == s.lost ==> s'.rows == s.rows)
  {
    var s' := Step(s, Proceed(a));
    if PcOf(s, a).Taking? {
      var Taking(c, tries, id, seen) := PcOf(s, a);
      MergedMeaning(seen.metadata, c);
      assert s'.won != s.won ==> s'.won == s.won + [Win(a, id, c.key)];
    }
  }

  /** A claimer only goes for a row to win that it has seen waiting for it without an error, and only
      for one to lose that it has seen with one. */
  lemma FindSeesWaiting(s: State, a: Actor)
    requires PcOf(s, a).Finding?
    ensures var c, pc := PcOf(s, a).claim, PcOf(Step(s, Proceed(a)), a);
            && (pc.Taking? ==> pc.id in s.rows && pc.seen == s.rows[pc.id] && WaitsFor(pc.seen, c.key, c.gateway)
                               && !HasError(pc.seen))
            && (pc.Losing? ==> pc.id in s.rows && WaitsFor(s.rows[pc.id], c.key, c.gateway) && HasError(s.rows[pc.id]))
            && (pc.Returned? ==> forall id :: id in s.rows ==> !WaitsFor(s.rows[id], c.key, c.gateway))
  {
    var c := PcOf(s, a).claim;
    var pick := Oldest(s.rows, c);
    if pick.Some? { ErrorIff(s.rows[pick.value]); }
    assert forall id :: id in s.rows ==> (WaitsFor(s.rows[id], c.key, c.gateway) <==> id in Candidates(s.rows, c));
  }

}
