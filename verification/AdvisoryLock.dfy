/**
  The expiring lock document: a caller reads the clock, then tries to update the document, then
  looks whether it exists, then inserts it. Any number of callers do this at their own pace,
  so the time a caller wrote down may be arbitrarily old when its update runs.

  Times are microseconds, but the update compares their texts, in which a whole second comes
  after the rest of it. So a lock can be lost within its last second. Exclusion is stated with
  a margin: at most one owner has a grant that outlives the clock by more than the margin. With
  SLACK it always holds of orderly callers, with none exactly when no step takes over early.

  A lock document is never deleted. Blank lock names are refused before any of this.
 */
module AdvisoryLock {
  import opened Wrappers
  import opened Timestamps

  type Time = int
  type Actor = nat

  const MIN_TTL := 5
  const SLACK: nat := SECOND - 1

  datatype Document = Document(owner: string, expires: Option<Time>)

  /** An owner was told it holds the lock until `expires`. */
  datatype Grant = Grant(owner: string, expires: Time)

  datatype Pc =
    | Idle
    | Updating(owner: string, now: Time, expires: Time)
    | Looking(owner: string, now: Time, expires: Time)
    | Inserting(owner: string, now: Time, expires: Time)
    | Returned(ok: bool)

  datatype State = State(clock: Time, doc: Option<Document>, pcs: map<Actor, Pc>, grants: seq<Grant>)

  datatype Label = Tick(micros: nat) | Begin(actor: Actor, owner: string, ttl: int) | Proceed(actor: Actor)

  function PcOf(s: State, a: Actor): Pc { if a in s.pcs then s.pcs[a] else Idle }

  predicate Open(pc: Pc) { pc.Updating? || pc.Looking? || pc.Inserting? }

  /** The update's filter: the document is the caller's own, or the text of its expiry is at or
      before that of the time the caller wrote down, or it never carried an expiry. */
  predicate Eligible(doc: Document, owner: string, now: Time) {
    doc.owner == owner || doc.expires.None? || AtOrBeforeAsText(doc.expires.value, now)
  }

  /** The time to live in microseconds, at least five seconds. */
  function Effective(ttl: int): int { (if ttl < MIN_TTL then MIN_TTL else ttl) * SECOND }

  function Goto(s: State, a: Actor, pc: Pc): State { s.(pcs := s.pcs[a := pc]) }

  function Take(s: State, a: Actor, owner: string, expires: Time): State {
    Goto(s, a, Returned(true)).(doc := Some(Document(owner, Some(expires))),
                                grants := s.grants + [Grant(owner, expires)])
  }

  function Step(s: State, l: Label): State {
    match l
    case Tick(micros) => s.(clock := s.clock + micros)
    case Begin(a, owner, ttl) =>
      if Open(PcOf(s, a)) then s else Goto(s, a, Updating(owner, s.clock, s.clock + Effective(ttl)))
    case Proceed(a) =>
      match PcOf(s, a)
      case Updating(owner, now, expires) =>
        if s.doc.Some? && Eligible(s.doc.value, owner, now) then Take(s, a, owner, expires)
        else Goto(s, a, Looking(owner, now, expires))
      case Looking(owner, now, expires) =>
        if s.doc.Some? then Goto(s, a, Returned(false)) else Goto(s, a, Inserting(owner, now, expires))
      case Inserting(owner, now, expires) =>
        if s.doc.Some? then Goto(s, a, Returned(false)) else Take(s, a, owner, expires)
      case _ => s
  }

  function Exec(s: State, run: seq<Label>): State {
    if run == [] then s else Step(Exec(s, run[..|run| - 1]), run[|run| - 1])
  }

  function Start(clock: Time): State { State(clock, None, map[], []) }

  lemma ExecAppend(s: State, run: seq<Label>, l: Label)
    ensures Exec(s, run + [l]) == Step(Exec(s, run), l)
  {
    assert (run + [l])[..|run|] == run;
  }

  // ----- What every reachable state keeps -----

  /** Written-down times are in the past, calls ask for five seconds or more, and the document is
      the last grant. */
  ghost predicate Wellformed(s: State) {
    && (forall a :: a in s.pcs && Open(s.pcs[a]) ==>
          s.pcs[a].now <= s.clock && s.pcs[a].now + MIN_TTL * SECOND <= s.pcs[a].expires)
    && (s.doc.Some? <==> s.grants != [])
    && (s.doc.Some? ==> s.doc.value.expires.Some? &&
                        s.grants[|s.grants| - 1] == Grant(s.doc.value.owner, s.doc.value.expires.value))
  }

  function Expiry(s: State): Time
    requires s.doc.Some? && s.doc.value.expires.Some?
  {
    s.doc.value.expires.value
  }

  lemma StepKeepsWellformed(s: State, l: Label)
    requires Wellformed(s)
    ensures Wellformed(Step(s, l))
  {
  }

  lemma {:induction false} RunsStayWellformed(clock: Time, run: seq<Label>)
    ensures Wellformed(Exec(Start(clock), run))
  {
    if run == [] {
    } else {
      RunsStayWellformed(clock, run[..|run| - 1]);
      StepKeepsWellformed(Exec(Start(clock), run[..|run| - 1]), run[|run| - 1]);
    }
  }

  // ----- One call -----

  /** What each step of a call does: it succeeds by writing the document and being granted it until its
      expiry, or fails because the document is there and not to be had; a look finds it or goes on
      to insert it, which nobody else may have done first. */
  lemma CallSteps(s: State, a: Actor)
    requires Open(PcOf(s, a))
    ensures var pc, s' := PcOf(s, a), Step(s, Proceed(a));
            && s'.clock == s.clock
            && (PcOf(s', a) == Returned(true) ==>
                  && s'.doc == Some(Document(pc.owner, Some(pc.expires)))
                  && s'.grants == s.grants + [Grant(pc.owner, pc.expires)])
            && (PcOf(s', a) != Returned(true) ==> s'.doc == s.doc && s'.grants == s.grants)
            && (pc.Updating? ==> (PcOf(s', a) == Returned(true) <==>
                                    && s.doc.Some?
                                    && (s.doc.value.owner == pc.owner || s.doc.value.expires == None
                                        || AtOrBeforeAsText(s.doc.value.expires.value, pc.now))))
            && (pc.Looking? ==> PcOf(s', a) == if s.doc.Some? then Returned(false)
                                               else Inserting(pc.owner, pc.now, pc.expires))
            && (pc.Inserting? ==> PcOf(s', a) == Returned(s.doc == None))
  {
  }

  // ----- Takeovers -----

  /** The step gives the document to another owner. */
  predicate TakesOver(s: State, l: Label) {
    s.doc.Some? && Step(s, l).doc.Some? && Step(s, l).doc.value.owner != s.doc.value.owner
  }

  /** The time is a whole second and the expiry lies within it. */
  predicate WithinItsSecond(now: Time, expires: Time) {
    now % SECOND == 0 && now / SECOND == expires / SECOND && expires % SECOND != 0
  }

  lemma TextIsEarlyIff(expires: Time, now: Time)
    requires AtOrBeforeAsText(expires, now)
    ensures expires <= now + SLACK
    ensures now < expires <==> WithinItsSecond(now, expires)
  {
  }

  /** For every interleaving, and however old the time it acts on: an owner other than the
      stored one succeeds less than a second before the stored expiry at the earliest; and it
      acts on a time before the expiry exactly when that time is a whole second and the expiry
      lies within that second. */
  lemma TakeoverMeaning(clock: Time, run: seq<Label>, l: Label)
    requires TakesOver(Exec(Start(clock), run), l)
    ensures var s := Exec(Start(clock), run); var pc := PcOf(s, l.actor);
            && l.Proceed? && pc.Updating? && s.doc.value.expires.Some?
            && pc.now <= s.clock && Expiry(s) <= s.clock + SLACK
            && (pc.now < Expiry(s) <==> WithinItsSecond(pc.now, Expiry(s)))
  {
    RunsStayWellformed(clock, run);
    var s := Exec(Start(clock), run);
    TextIsEarlyIff(Expiry(s), PcOf(s, l.actor).now);
  }

  // ----- Exclusion -----

  /** A grant that outlives the clock by more than the margin. */
  predicate Live(s: State, g: Grant, margin: nat) { g in s.grants && s.clock + margin < g.expires }

  ghost predicate Exclusive(s: State, margin: nat) {
    forall g, h :: Live(s, g, margin) && Live(s, h, margin) ==> g.owner == h.owner
  }

  /** The stored expiry covers every live grant. */
  ghost predicate Covered(s: State, margin: nat) {
    forall g :: Live(s, g, margin) ==>
      s.doc.Some? && s.doc.value.owner == g.owner && s.doc.value.expires.Some? && g.expires <= Expiry(s)
  }

  /** The stored expiry outlives the clock by more than the margin. */
  predicate Held(s: State, margin: nat) { s.doc.Some? && s.doc.value.expires.Some? && s.clock + margin < Expiry(s) }

  /** The step overwrites a live expiry with an earlier one of the same owner: its update acts on a
      time that is older than that of the update before. */
  predicate Lowers(s: State, l: Label, margin: nat) {
    && Held(s, margin) && !TakesOver(s, l)
    && Step(s, l).doc.Some? && Step(s, l).doc.value.expires.Some? && Expiry(Step(s, l)) < Expiry(s)
  }

  /** The step gives another owner a document whose expiry is live. */
  predicate TakesEarly(s: State, l: Label, margin: nat) { Held(s, margin) && TakesOver(s, l) }

  predicate Breaks(s: State, l: Label, margin: nat) { Lowers(s, l, margin) || TakesEarly(s, l, margin) }

  /** The guard of an early takeover, on the call's own variables: an update by another owner whose
      written-down time is the whole second that the expiry lies within. */
  lemma TakesEarlyIff(clock: Time, run: seq<Label>, l: Label, margin: nat)
    ensures var s := Exec(Start(clock), run);
            TakesEarly(s, l, margin) <==>
              && l.Proceed? && PcOf(s, l.actor).Updating? && Held(s, margin)
                  && s.doc.value.owner != PcOf(s, l.actor).owner
              && WithinItsSecond(PcOf(s, l.actor).now, Expiry(s))
  {
    var s := Exec(Start(clock), run);
    RunsStayWellformed(clock, run);
    if l.Proceed? && PcOf(s, l.actor).Updating? && Held(s, margin) && AtOrBeforeAsText(Expiry(s), PcOf(s,
        l.actor).now) {
      TextIsEarlyIff(Expiry(s), PcOf(s, l.actor).now);
    }
  }

  /** So nothing is taken over with a second left. */
  lemma NeverASecondEarly(clock: Time, run: seq<Label>, l: Label)
    ensures !TakesEarly(Exec(Start(clock), run), l, SLACK)
  {
    RunsStayWellformed(clock, run);
    if TakesOver(Exec(Start(clock), run), l) { TakeoverMeaning(clock, run, l); }
  }

  /** The exact step that fails, for every clock and margin: the stored expiry stops covering the
      live grants exactly when it was itself live and is lowered or taken over. */
  lemma CoverIsLostIff(s: State, l: Label, margin: nat)
    requires Wellformed(s) && Covered(s, margin)
    ensures Breaks(s, l, margin) <==> !Covered(Step(s, l), margin)
  {
    var s' := Step(s, l);
    if Breaks(s, l, margin) {
      var last := s.grants[|s.grants| - 1];
      assert last in s'.grants;
      assert Live(s', last, margin);
    } else {
      forall g | Live(s', g, margin)
        ensures s'.doc.Some? && s'.doc.value.owner == g.owner && s'.doc.value.expires.Some? && g.expires <= Expiry(s')
      {
        if g in s.grants { assert Live(s, g, margin); }
      }
    }
  }

  lemma CoveredIsExclusive(s: State, margin: nat)
    requires Covered(s, margin)
    ensures Exclusive(s, margin)
  {
  }

  ghost predicate NeverBreaks(s: State, run: seq<Label>, margin: nat) {
    run == [] || (NeverBreaks(s, run[..|run| - 1], margin)
        && !Breaks(Exec(s, run[..|run| - 1]), run[|run| - 1], margin))
  }

  ghost predicate CoveredThroughout(s: State, run: seq<Label>, margin: nat) {
    (run == [] || CoveredThroughout(s, run[..|run| - 1], margin)) && Covered(Exec(s, run), margin)
  }

  /** Over whole runs, on every clock: no step breaks the cover if and only if the stored expiry
      covers every live grant in every state; and then at most one owner has one. */
  lemma {:induction false} CoverHoldsIff(clock: Time, run: seq<Label>, margin: nat)
    ensures NeverBreaks(Start(clock), run, margin) <==> CoveredThroughout(Start(clock), run, margin)
    ensures NeverBreaks(Start(clock), run, margin) ==> Exclusive(Exec(Start(clock), run), margin)
  {
    if run == [] {
    } else {
      var front := run[..|run| - 1];
      CoverHoldsIff(clock, front, margin);
      RunsStayWellformed(clock, front);
      if NeverBreaks(Start(clock), front, margin) { CoverIsLostIff(Exec(Start(clock), front), run[|run| - 1], margin); }
    }
    if NeverBreaks(Start(clock), run, margin) { CoveredIsExclusive(Exec(Start(clock), run), margin); }
  }

  // ----- When two owners can come to hold the lock -----

  lemma {:induction false} SomeActorIsFree(taken: set<Actor>) returns (a: Actor)
    ensures a !in taken && forall b :: b in taken ==> b < a
  {
    a := 0;
    if taken == {} {
    } else {
      var x :| x in taken;
      var y := SomeActorIsFree(taken - {x});
      a := if x < y then y else x + 1;
      forall b | b in taken ensures b < a { if b != x { assert b in taken - {x}; } }
    }
  }

  lemma OneMore(s: State, run: seq<Label>, l: Label, margin: nat)
    ensures NeverBreaks(s, run + [l], margin) <==> NeverBreaks(s, run, margin) && !Breaks(Exec(s, run), l, margin)
  {
    assert (run + [l])[..|run|] == run;
  }

  lemma ThreeSteps(s: State, x: Label, y: Label, z: Label, margin: nat)
    requires !Breaks(s, x, margin) && !Breaks(Step(s, x), y, margin) && !Breaks(Step(Step(s, x), y), z, margin)
    ensures NeverBreaks(s, [x, y, z], margin)
    ensures Exec(s, [x, y, z]) == Step(Step(Step(s, x), y), z)
  {
    OneMore(s, [], x, margin);
    OneMore(s, [x], y, margin);
    OneMore(s, [x, y], z, margin);
    ExecAppend(s, [], x);
    ExecAppend(s, [x], y);
    ExecAppend(s, [x, y], z);
    assert [] + [x] == [x] && [x] + [y] == [x, y] && [x, y] + [z] == [x, y, z];
  }

  lemma {:induction false} ExecConcat(s: State, run: seq<Label>, more: seq<Label>)
    ensures Exec(s, run + more) == Exec(Exec(s, run), more)
    ensures forall margin: nat :: NeverBreaks(s, run + more, margin) <==>
                                  NeverBreaks(s, run, margin) && NeverBreaks(Exec(s, run), more, margin)
  {
    if more == [] {
      assert run + more == run;
    } else {
      assert (run + more)[..|run + more| - 1] == run + more[..|more| - 1];
      ExecConcat(s, run, more[..|more| - 1]);
    }
  }

  /** A call that starts when the stored text has passed. */
  lemma FreeLockIsTaken(s: State, a: Actor, owner: string)
    requires a !in s.pcs && s.doc.Some? && Eligible(s.doc.value, owner, s.clock)
    ensures Step(s, Begin(a, owner, 0)).doc == s.doc && Step(s, Begin(a, owner, 0)).clock == s.clock
    ensures var s' := Step(Step(s, Begin(a, owner, 0)), Proceed(a));
            && s'.clock == s.clock && s'.grants == s.grants + [Grant(owner, s.clock + Effective(0))]
            && s'.doc == Some(Document(owner, Some(s.clock + Effective(0))))
  {
  }

  /** Waiting until `t`, when the lock is open to another owner while a grant still lives, and one
      call by that owner make two owners hold the lock at once. */
  lemma RivalEnters(s: State, g: Grant, rival: string, t: Time, margin: nat) returns (run: seq<Label>)
    requires Wellformed(s) && g in s.grants && rival != g.owner && s.clock <= t && t + margin < g.expires
    requires Eligible(s.doc.value, rival, t) && (Expiry(s) <= t + margin || rival == s.doc.value.owner)
    requires rival == s.doc.value.owner ==> Expiry(s) <= t + Effective(0)
    requires margin <= SLACK
    ensures NeverBreaks(s, run, margin) && !Exclusive(Exec(s, run), margin)
  {
    var a := SomeActorIsFree(s.pcs.Keys);
    var tick, begin, proceed := Tick(t - s.clock), Begin(a, rival, 0), Proceed(a);
    var waited := Step(s, tick);
    FreeLockIsTaken(waited, a, rival);
    ThreeSteps(s, tick, begin, proceed, margin);
    run := [tick, begin, proceed];
    assert Live(Exec(s, run), g, margin) && Live(Exec(s, run), Grant(rival, t + Effective(0)), margin);
  }

  /** No continuation of steps that do not break the cover lets two owners hold an unexpired lock. */
  ghost predicate ExclusiveForever(s: State) {
    forall run :: NeverBreaks(s, run, 0) ==> Exclusive(Exec(s, run), 0)
  }

  /** A call in progress that can no longer do harm: another owner's that will find the document
      not yet passed, or one of the same owner that covers the live grants or changes nothing. */
  ghost predicate Harmless(s: State, pc: Pc)
    requires s.doc.Some? && s.doc.value.expires.Some?
  {
    pc.Updating? ==>
      if pc.owner != s.doc.value.owner then !AtOrBeforeAsText(Expiry(s), pc.now)
      else pc.expires == Expiry(s) || forall g :: Live(s, g, 0) ==> g.expires <= pc.expires
  }

  /** Within the second after an expiry on a whole second the texts keep every other owner out, so
      grants that end within that second do no harm although nothing stored covers them. */
  ghost predicate LateSecond(s: State) {
    && s.doc.Some? && s.doc.value.expires.Some? && Expiry(s) % SECOND == 0 && Expiry(s) < s.clock < Expiry(s) + SECOND
    && (forall g :: Live(s, g, 0) ==> g.owner == s.doc.value.owner && g.expires <= Expiry(s) + SECOND)
    && forall a :: a in s.pcs ==> Harmless(s, s.pcs[a])
  }

  ghost predicate Guarded(s: State) { Covered(s, 0) || LateSecond(s) }

  lemma LateTick(s: State, micros: nat)
    requires LateSecond(s)
    ensures Guarded(Step(s, Tick(micros)))
  {
    var s' := Step(s, Tick(micros));
    forall g | Live(s', g, 0) ensures Live(s, g, 0) {}
    if s'.clock < Expiry(s) + SECOND {
      forall a | a in s'.pcs ensures Harmless(s', s'.pcs[a]) { assert Harmless(s, s.pcs[a]); }
    }
  }

  lemma LateBegin(s: State, a: Actor, owner: string, ttl: int)
    requires LateSecond(s)
    ensures LateSecond(Step(s, Begin(a, owner, ttl)))
  {
    var s' := Step(s, Begin(a, owner, ttl));
    forall g | Live(s', g, 0) ensures Live(s, g, 0) {}
    forall b | b in s'.pcs ensures Harmless(s', s'.pcs[b]) {
      if b in s.pcs { assert Harmless(s, s.pcs[b]); }
      assert s.clock / SECOND == Expiry(s) / SECOND;
    }
  }

  lemma LateProceed(s: State, a: Actor)
    requires Wellformed(s) && LateSecond(s)
    ensures Guarded(Step(s, Proceed(a)))
  {
    var s', pc := Step(s, Proceed(a)), PcOf(s, a);
    if a in s.pcs { assert Harmless(s, s.pcs[a]); }
    if s'.grants == s.grants {
      forall g | Live(s', g, 0) ensures Live(s, g, 0) {}
      forall b | b in s'.pcs ensures Harmless(s', s'.pcs[b]) { if b in s.pcs { assert Harmless(s, s.pcs[b]); } }
    } else {
      LateTake(s, a);
    }
  }

  lemma LateTake(s: State, a: Actor)
    requires LateSecond(s) && a in s.pcs && s.pcs[a].Updating? && s.pcs[a].owner == s.doc.value.owner
    ensures Guarded(Take(s, a, s.pcs[a].owner, s.pcs[a].expires))
  {
    var pc := s.pcs[a];
    var s' := Take(s, a, pc.owner, pc.expires);
    assert Harmless(s, pc);
    forall g | Live(s', g, 0) ensures g == Grant(pc.owner, pc.expires) || Live(s, g, 0) {}
    if pc.expires == Expiry(s) {
      forall b | b in s'.pcs ensures Harmless(s', s'.pcs[b]) { assert b != a ==> Harmless(s, s.pcs[b]); }
    }
  }

  lemma StepKeepsGuarded(s: State, l: Label)
    requires Wellformed(s) && Guarded(s) && !Breaks(s, l, 0)
    ensures Guarded(Step(s, l))
  {
    if Covered(s, 0) {
      CoverIsLostIff(s, l, 0);
    } else {
      match l
      case Tick(micros) => LateTick(s, micros);
      case Begin(a, owner, ttl) => LateBegin(s, a, owner, ttl);
      case Proceed(a) => LateProceed(s, a);
    }
  }

  lemma {:induction false} GuardedIsForever(s: State, run: seq<Label>)
    requires Wellformed(s) && Guarded(s) && NeverBreaks(s, run, 0)
    ensures Wellformed(Exec(s, run)) && Guarded(Exec(s, run)) && Exclusive(Exec(s, run), 0)
  {
    if run == [] {
    } else {
      var front := run[..|run| - 1];
      GuardedIsForever(s, front);
      StepKeepsWellformed(Exec(s, front), run[|run| - 1]);
      StepKeepsGuarded(Exec(s, front), run[|run| - 1]);
    }
  }

  /** Another owner can come in at `t`, while a grant of the stored owner lives. */
  lemma OthersEnter(s: State, g: Grant, t: Time)
    requires Wellformed(s) && g in s.grants && g.owner == s.doc.value.owner && s.clock <= t < g.expires
    requires Expiry(s) <= t && AtOrBeforeAsText(Expiry(s), t)
    ensures !ExclusiveForever(s)
  {
    var more := RivalEnters(s, g, g.owner + "'", t, 0);
  }

  /** Two owners have grants: the stored one renews while the other's lives. */
  lemma StoredOwnerRenews(s: State, g: Grant)
    requires Wellformed(s) && Live(s, g, 0) && g.owner != s.doc.value.owner
    ensures !ExclusiveForever(s)
  {
    var none: seq<Label> := [];
    if s.clock < Expiry(s) {
      assert Live(s, s.grants[|s.grants| - 1], 0);
      assert NeverBreaks(s, none, 0) && Exec(s, none) == s;
    } else {
      var more := RivalEnters(s, g, s.doc.value.owner, s.clock, 0);
    }
  }

  lemma AfterOneStep(s: State, l: Label)
    requires !Breaks(s, l, 0) && !ExclusiveForever(Step(s, l))
    ensures !ExclusiveForever(s)
  {
    var more :| NeverBreaks(Step(s, l), more, 0) && !Exclusive(Exec(Step(s, l), more), 0);
    ExecAppend(s, [], l);
    OneMore(s, [], l, 0);
    assert [] + [l] == [l];
    ExecConcat(s, [l], more);
  }

  /** When the clock is not within the second after a whole-second expiry, or the grant outlives
      that second, there is such a time. */
  lemma OutlivedIsNotForever(s: State, g: Grant)
    requires Wellformed(s) && Live(s, g, 0) && g.owner == s.doc.value.owner && Expiry(s) < g.expires
    requires Expiry(s) % SECOND == 0 && Expiry(s) < s.clock < Expiry(s) + SECOND ==> Expiry(s) + SECOND < g.expires
    ensures !ExclusiveForever(s)
  {
    var e := Expiry(s);
    if s.clock <= e {
      OthersEnter(s, g, e);
    } else if e % SECOND == 0 && s.clock < e + SECOND {
      OthersEnter(s, g, e + SECOND);
    } else {
      OthersEnter(s, g, s.clock);
    }
  }

  lemma HarmIsDone(s: State, a: Actor)
    requires Wellformed(s) && !Covered(s, 0) && s.doc.Some? && a in s.pcs && !Harmless(s, s.pcs[a])
    requires Expiry(s) % SECOND == 0 && Expiry(s) < s.clock < Expiry(s) + SECOND
    requires forall g :: Live(s, g, 0) ==> g.owner == s.doc.value.owner && g.expires <= Expiry(s) + SECOND
    ensures !ExclusiveForever(s)
  {
    var pc, s' := s.pcs[a], Step(s, Proceed(a));
    StepKeepsWellformed(s, Proceed(a));
    if pc.owner != s.doc.value.owner {
      var g :| Live(s, g, 0);
      assert Live(s', g, 0);
      StoredOwnerRenews(s', g);
    } else {
      var g :| Live(s, g, 0) && pc.expires < g.expires;
      assert Live(s', g, 0);
      OutlivedIsNotForever(s', g);
    }
    AfterOneStep(s, Proceed(a));
  }

  lemma UnguardedIsNotForever(s: State)
    requires Wellformed(s) && !Guarded(s)
    ensures !ExclusiveForever(s)
  {
    var g :| Live(s, g, 0) && !(s.doc.Some? && s.doc.value.owner == g.owner && g.expires <= Expiry(s));
    if h :| Live(s, h, 0) && h.owner != s.doc.value.owner {
      StoredOwnerRenews(s, h);
    } else if !(Expiry(s) % SECOND == 0 && Expiry(s) < s.clock < Expiry(s) + SECOND) {
      OutlivedIsNotForever(s, g);
    } else if h :| Live(s, h, 0) && Expiry(s) + SECOND < h.expires {
      OutlivedIsNotForever(s, h);
    } else {
      var a :| a in s.pcs && !Harmless(s, s.pcs[a]);
      HarmIsDone(s, a);
    }
  }

  /** The exact condition on a reachable state, on every clock: at most one owner holds an unexpired
      lock now and in every continuation that does not break the cover, if and only if the stored
      expiry covers every unexpired grant, or those end with the second in which the texts keep
      everyone else out. */
  lemma ExclusiveForeverIff(clock: Time, run: seq<Label>)
    ensures var s := Exec(Start(clock), run); ExclusiveForever(s) <==> Covered(s, 0) || LateSecond(s)
  {
    var s := Exec(Start(clock), run);
    RunsStayWellformed(clock, run);
    if Guarded(s) {
      forall more | NeverBreaks(s, more, 0) ensures Exclusive(Exec(s, more), 0) {
        GuardedIsForever(s, more);
      }
    } else {
      UnguardedIsNotForever(s);
    }
  }

  // ----- When no expiry is ever lowered -----

  /** Calls of one owner do not overlap, and each owner keeps its own time to live. */
  ghost predicate OrderlyLabel(s: State, l: Label, ttl: string -> int) {
    l.Begin? ==> l.ttl == ttl(l.owner) && forall a :: a in s.pcs && Open(s.pcs[a]) ==> s.pcs[a].owner != l.owner
  }

  ghost predicate Orderly(s: State, run: seq<Label>, ttl: string -> int) {
    run == [] || (Orderly(s, run[..|run| - 1], ttl) && OrderlyLabel(Exec(s, run[..|run| - 1]), run[|run| - 1], ttl))
  }

  /** An owner's call in progress will not write an expiry earlier than the one it has stored,
      and no two calls in progress are of the same owner. */
  ghost predicate InOrder(s: State, ttl: string -> int) {
    && (s.doc.Some? ==> s.doc.value.expires.Some? && Expiry(s) <= s.clock + Effective(ttl(s.doc.value.owner)))
    && (forall a :: a in s.pcs && Open(s.pcs[a]) ==>
          && s.pcs[a].expires <= s.clock + Effective(ttl(s.pcs[a].owner))
          && (s.doc.Some? && s.doc.value.owner == s.pcs[a].owner ==> Expiry(s) <= s.pcs[a].expires))
    && (forall a, b :: a in s.pcs && b in s.pcs && a != b && Open(s.pcs[a]) && Open(s.pcs[b]) ==>
          s.pcs[a].owner != s.pcs[b].owner)
  }

  lemma TakeKeepsInOrder(s: State, a: Actor, ttl: string -> int)
    requires InOrder(s, ttl) && a in s.pcs && Open(s.pcs[a])
    ensures InOrder(Take(s, a, s.pcs[a].owner, s.pcs[a].expires), ttl)
    ensures s.doc.Some? && s.doc.value.owner == s.pcs[a].owner ==> Expiry(s) <= s.pcs[a].expires
  {
  }

  lemma GotoKeepsInOrder(s: State, a: Actor, pc: Pc, ttl: string -> int)
    requires InOrder(s, ttl) && a in s.pcs
    requires Open(pc) ==> Open(s.pcs[a]) && pc.owner == s.pcs[a].owner && pc.expires == s.pcs[a].expires
    ensures InOrder(Goto(s, a, pc), ttl)
  {
  }

  lemma BeginKeepsInOrder(s: State, a: Actor, owner: string, ttl: string -> int)
    requires InOrder(s, ttl) && forall b :: b in s.pcs && Open(s.pcs[b]) ==> s.pcs[b].owner != owner
    ensures InOrder(Goto(s, a, Updating(owner, s.clock, s.clock + Effective(ttl(owner)))), ttl)
  {
  }

  lemma StepKeepsInOrder(s: State, l: Label, ttl: string -> int)
    requires InOrder(s, ttl) && OrderlyLabel(s, l, ttl)
    ensures InOrder(Step(s, l), ttl)
  {
    match l
    case Tick(_) =>
    case Begin(a, owner, _) =>
      if !Open(PcOf(s, a)) { BeginKeepsInOrder(s, a, owner, ttl); }
    case Proceed(a) =>
      if Open(PcOf(s, a)) {
        var pc := s.pcs[a];
        TakeKeepsInOrder(s, a, ttl);
        GotoKeepsInOrder(s, a, Looking(pc.owner, pc.now, pc.expires), ttl);
        GotoKeepsInOrder(s, a, Inserting(pc.owner, pc.now, pc.expires), ttl);
        GotoKeepsInOrder(s, a, Returned(false), ttl);
      }
  }

  lemma OrderNeverLowers(s: State, l: Label, ttl: string -> int, margin: nat)
    requires InOrder(s, ttl)
    ensures !Lowers(s, l, margin)
  {
    if l.Proceed? && Open(PcOf(s, l.actor)) { TakeKeepsInOrder(s, l.actor, ttl); }
  }

  lemma EarlyTakeoverBreaks(s: State, l: Label, margin: nat)
    requires Wellformed(s) && TakesEarly(s, l, margin)
    ensures !Exclusive(Step(s, l), margin)
  {
    var s', pc, last := Step(s, l), PcOf(s, l.actor), s.grants[|s.grants| - 1];
    TextIsEarlyIff(Expiry(s), pc.now);
    assert s'.grants == s.grants + [Grant(pc.owner, pc.expires)];
    assert last in s'.grants && s'.grants[|s.grants|] == Grant(pc.owner, pc.expires);
    assert Live(s', last, margin) && Live(s', Grant(pc.owner, pc.expires), margin);
  }

  ghost predicate NeverTakesEarly(s: State, run: seq<Label>, margin: nat) {
    run == [] ||
    (NeverTakesEarly(s, run[..|run| - 1], margin) && !TakesEarly(Exec(s, run[..|run| - 1]), run[|run| - 1], margin))
  }

  ghost predicate ExclusiveThroughout(s: State, run: seq<Label>, margin: nat) {
    (run == [] || ExclusiveThroughout(s, run[..|run| - 1], margin)) && Exclusive(Exec(s, run), margin)
  }

  lemma {:induction false} OrderlyRunsStayInOrder(clock: Time, run: seq<Label>, ttl: string -> int, margin: nat)
    requires Orderly(Start(clock), run, ttl)
    ensures InOrder(Exec(Start(clock), run), ttl)
    ensures NeverTakesEarly(Start(clock), run, margin) <==> NeverBreaks(Start(clock), run, margin)
  {
    if run == [] {
    } else {
      var front := run[..|run| - 1];
      OrderlyRunsStayInOrder(clock, front, ttl, margin);
      StepKeepsInOrder(Exec(Start(clock), front), run[|run| - 1], ttl);
      OrderNeverLowers(Exec(Start(clock), front), run[|run| - 1], ttl, margin);
    }
  }

  /** The exact condition on a whole run, on every clock and for every margin: when each owner makes
      its calls one after the other with its own time to live, at most one owner has a live grant
      in every state of the run if and only if no step takes over a live expiry. */
  lemma {:induction false} OrderlyExclusionIff(clock: Time, run: seq<Label>, ttl: string -> int, margin: nat)
    requires Orderly(Start(clock), run, ttl)
    ensures NeverTakesEarly(Start(clock), run, margin) <==> ExclusiveThroughout(Start(clock), run, margin)
  {
    if run == [] {
    } else {
      var front, l := run[..|run| - 1], run[|run| - 1];
      OrderlyExclusionIff(clock, front, ttl, margin);
      OrderlyRunsStayInOrder(clock, run, ttl, margin);
      CoverHoldsIff(clock, run, margin);
      RunsStayWellformed(clock, front);
      if TakesEarly(Exec(Start(clock), front), l, margin) { EarlyTakeoverBreaks(Exec(Start(clock), front), l, margin); }
    }
  }

  lemma {:induction false} NeverASecondEarlyRun(clock: Time, run: seq<Label>)
    ensures NeverTakesEarly(Start(clock), run, SLACK)
  {
    if run == [] {
    } else {
      NeverASecondEarlyRun(clock, run[..|run| - 1]);
      NeverASecondEarly(clock, run[..|run| - 1], run[|run| - 1]);
    }
  }

  /** So, whatever the clock, no two owners ever have a second left each. */
  lemma OrderlyRunsExcludeToTheSecond(clock: Time, run: seq<Label>, ttl: string -> int)
    requires Orderly(Start(clock), run, ttl)
    ensures ExclusiveThroughout(Start(clock), run, SLACK)
  {
    NeverASecondEarlyRun(clock, run);
    OrderlyExclusionIff(clock, run, ttl, SLACK);
  }

  /** No call in progress has written down a whole second. */
  ghost predicate OffTheSecond(s: State) { forall a :: a in s.pcs && Open(s.pcs[a]) ==> s.pcs[a].now % SECOND != 0 }

  ghost predicate ReadOffTheSecond(s: State, run: seq<Label>) {
    run == [] ||
    (ReadOffTheSecond(s, run[..|run| - 1])
     && (run[|run| - 1].Begin? ==> Exec(s, run[..|run| - 1]).clock % SECOND != 0))
  }

  lemma {:induction false} ReadingsStayOff(clock: Time, run: seq<Label>)
    requires ReadOffTheSecond(Start(clock), run)
    ensures OffTheSecond(Exec(Start(clock), run)) && NeverTakesEarly(Start(clock), run, 0)
  {
    if run == [] {
    } else {
      ReadingsStayOff(clock, run[..|run| - 1]);
      TakesEarlyIff(clock, run[..|run| - 1], run[|run| - 1], 0);
    }
  }

  /** And when no caller reads a whole second, no two owners ever hold an unexpired lock at all. */
  lemma OrderlyRunsExclude(clock: Time, run: seq<Label>, ttl: string -> int)
    requires Orderly(Start(clock), run, ttl) && ReadOffTheSecond(Start(clock), run)
    ensures ExclusiveThroughout(Start(clock), run, 0)
  {
    ReadingsStayOff(clock, run);
    OrderlyExclusionIff(clock, run, ttl, 0);
  }

  // ----- Runs that break exclusion -----

  lemma FirstCall(clock: Time, a: Actor, owner: string, ttl: int)
    ensures var s := Step(Start(clock), Begin(a, owner, ttl));
            Step(Step(Step(s, Proceed(a)), Proceed(a)), Proceed(a))
            == State(clock, Some(Document(owner, Some(clock + Effective(ttl)))), map[a := Returned(true)],
                     [Grant(owner, clock + Effective(ttl))])
  {
    var now, expires := clock, clock + Effective(ttl);
    var s := Step(Start(clock), Begin(a, owner, ttl));
    assert s == State(clock, None, map[a := Updating(owner, now, expires)], []);
    assert Step(s, Proceed(a)) == State(clock, None, map[a := Looking(owner, now, expires)], []);
    assert Step(Step(s, Proceed(a)), Proceed(a)) == State(clock, None, map[a := Inserting(owner, now, expires)], []);
  }

  lemma OrderlyCall(clock: Time, a: Actor, owner: string, ttl: string -> int)
    ensures var run := [Begin(a, owner, ttl(owner)), Proceed(a), Proceed(a), Proceed(a)];
            && Orderly(Start(clock), run, ttl)
            && Exec(Start(clock), run) ==
               Step(Step(Step(Step(Start(clock), Begin(a, owner, ttl(owner))), Proceed(a)), Proceed(a)), Proceed(a))
  {
    var s, begin, proceed := Start(clock), Begin(a, owner, ttl(owner)), Proceed(a);
    OrderlyMore(s, [], begin, ttl);
    ExecAppend(s, [], begin);
    OrderlyMore(s, [begin], proceed, ttl);
    ExecAppend(s, [begin], proceed);
    OrderlyMore(s, [begin, proceed], proceed, ttl);
    ExecAppend(s, [begin, proceed], proceed);
    OrderlyMore(s, [begin, proceed, proceed], proceed, ttl);
    ExecAppend(s, [begin, proceed, proceed], proceed);
    assert [] + [begin] == [begin] && [begin] + [proceed] == [begin, proceed];
    assert [begin, proceed] + [proceed] == [begin, proceed, proceed];
    assert [begin, proceed, proceed] + [proceed] == [begin, proceed, proceed, proceed];
  }

  /** The document is stored until second 30.5; a caller that reads the clock at 30 takes it. */
  lemma EarlyTakeover(ttl: string -> int) returns (run: seq<Label>)
    requires ttl("a") == 30 && ttl("b") == 5
    ensures Orderly(Start(500_000), run, ttl)
    ensures var s := Exec(Start(500_000), run);
            && s.clock == 30 * SECOND && s.grants == [Grant("a", 30_500_000), Grant("b", 35 * SECOND)]
            && !Exclusive(s, 0)
  {
    var s := Start(500_000);
    run := [Begin(1, "a", 30), Proceed(1), Proceed(1), Proceed(1)];
    OrderlyCall(500_000, 1, "a", ttl);
    FirstCall(500_000, 1, "a", 30);
    var held := Exec(s, run);
    OrderlyMore(s, run, Tick(29_500_000), ttl);
    ExecAppend(s, run, Tick(29_500_000));
    run := run + [Tick(29_500_000)];
    var waited := Exec(s, run);
    assert waited == held.(clock := 30 * SECOND);
    OrderlyMore(s, run, Begin(2, "b", 5), ttl);
    ExecAppend(s, run, Begin(2, "b", 5));
    run := run + [Begin(2, "b", 5)];
    OrderlyMore(s, run, Proceed(2), ttl);
    ExecAppend(s, run, Proceed(2));
    run := run + [Proceed(2)];
    var end := Exec(s, run);
    assert end.grants == [Grant("a", 30_500_000)] + [Grant("b", 35 * SECOND)];
    assert Live(end, end.grants[0], 0) && Live(end, end.grants[1], 0);
  }

  lemma OrderlyMore(s: State, run: seq<Label>, l: Label, ttl: string -> int)
    ensures Orderly(s, run, ttl) && OrderlyLabel(Exec(s, run), l, ttl) ==> Orderly(s, run + [l], ttl)
  {
    assert (run + [l])[..|run|] == run;
  }

  /** Two overlapping calls of one owner: the second is granted the lock until second 50, then the
      first stores the time it had written down, second 30. */
  lemma OverlappingCalls() returns (run: seq<Label>)
    ensures var s := Exec(Start(0), run);
            && s.clock == 20 * SECOND && s.doc == Some(Document("a", Some(30 * SECOND)))
            && s.grants == [Grant("a", 50 * SECOND), Grant("a", 30 * SECOND)]
  {
    var first, second := Begin(1, "a", 30), Begin(2, "a", 30);
    ExecAppend(Start(0), [], first);
    run := [] + [first];
    ExecAppend(Start(0), run, Tick(20 * SECOND));
    run := run + [Tick(20 * SECOND)];
    ExecAppend(Start(0), run, second);
    run := run + [second];
    var waiting := Updating("a", 20 * SECOND, 50 * SECOND);
    assert Exec(Start(0), run) == State(20 * SECOND, None, map[1 := Updating("a", 0, 30 * SECOND), 2 := waiting], []);
    for i := 0 to 3
      invariant var s := Exec(Start(0), run);
                && s.clock == 20 * SECOND && PcOf(s, 1) == Updating("a", 0, 30 * SECOND)
                && (i < 3 ==> s.doc.None? && s.grants == [])
                && (i == 0 ==> PcOf(s, 2) == waiting)
                && (i == 1 ==> PcOf(s, 2) == Looking("a", 20 * SECOND, 50 * SECOND))
                && (i == 2 ==> PcOf(s, 2) == Inserting("a", 20 * SECOND, 50 * SECOND))
                && (i == 3 ==> s.doc == Some(Document("a", Some(50 * SECOND))) && s.grants == [Grant("a", 50 * SECOND)])
    {
      ExecAppend(Start(0), run, Proceed(2));
      run := run + [Proceed(2)];
    }
    ExecAppend(Start(0), run, Proceed(1));
    run := run + [Proceed(1)];
  }

  /** So without order exclusion fails by far more than a second: another owner is let in at
      second 30, while the first still counts on its grant until second 50. */
  lemma OverlappingCallsBreakExclusion()
    ensures exists run: seq<Label> :: !Exclusive(Exec(Start(0), run), SLACK)
  {
    var run := OverlappingCalls();
    var s := Exec(Start(0), run);
    RunsStayWellformed(0, run);
    var more := RivalEnters(s, s.grants[0], "b", 30 * SECOND, SLACK);
    ExecConcat(Start(0), run, more);
    assert !Exclusive(Exec(Start(0), run + more), SLACK);
  }

  // ----- The method -----

  class LockCollection {
    var locks: map<string, Document>

    constructor ()
      ensures locks == map[]
    {
      locks := map[];
    }

    /** Run alone: the lock is given exactly to a caller that finds it free, its own, expired as
        texts go or without expiry, and then runs for the time to live. */
    method AcquireAdvisoryLock(name: string, owner: string, ttl: int, now: Time) returns (ok: bool)
      modifies this
      ensures ok <==> name != "" && (name in old(locks) ==>
                        var doc := old(locks)[name];
                        doc.owner == owner || doc.expires.None? || AtOrBeforeAsText(doc.expires.value, now))
      ensures locks == if ok then old(locks)[name := Document(owner, Some(now + Effective(ttl)))] else old(locks)
      ensures Effective(ttl) == (if ttl >= 5 then ttl else 5) * 1_000_000
    {
      if name == "" {
        return false;
      }
      var expires := now + Effective(ttl);
      if name in locks && Eligible(locks[name], owner, now) {
        locks := locks[name := Document(owner, Some(expires))];
        return true;
      }
      if name in locks {
        return false;
      }
      locks := locks[name := Document(owner, Some(expires))];
      return true;
    }
  }

}
