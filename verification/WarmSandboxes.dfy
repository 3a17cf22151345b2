/**
  Sandbox rows waiting in a warm pool, the order in which claimers look at them, and what one
  claim does when it runs alone.

  Rows created in the same instant are looked at in the order of their identifiers; the
  database servers leave that order open.
 */
module WarmSandboxes {
  import opened Wrappers
  import opened WarmPoolSegments
  import Strings = Text

  type Id = nat

  const WARM_POOL := "_warm_pool"
  const RUNTIME_ERROR := "runtime_error"
  const ACQUIRE_WAIT := "sandbox_allocation_acquire_wait_seconds"
  const CLAIM_TRIES: nat := 8

  datatype Value = Text(text: string) | Number(number: real)
  type Metadata = map<string, Value>

  datatype Sandbox = Sandbox(
    state: string, isWarm: bool, warmKey: Option<string>, gateway: string, createdAt: Time,
    metadata: Metadata, timeout: int, leaseExpiresAt: Option<Time>,
    owner: Option<string>, apiKey: Option<string>, updatedAt: Time)

  type Sandboxes = map<Id, Sandbox>

  /** A claim's arguments, with the clock readings it makes; an empty gateway means any. */
  datatype Claim = Claim(
    key: string, gateway: string, owner: Option<string>, apiKey: Option<string>,
    updates: Metadata, timeoutSeconds: Option<int>, now: Time, waited: real)

  predicate Blank(text: string) { Strings.Strip(text) == "" }

  /** The metadata carries a runtime error that is not blank. */
  predicate Unhealthy(metadata: Metadata) {
    RUNTIME_ERROR in metadata &&
    match metadata[RUNTIME_ERROR]
    case Text(text) => !Blank(text)
    case Number(number) => number != 0.0
  }

  predicate Waiting(row: Sandbox, c: Claim) {
    row.state == "running" && row.isWarm && row.warmKey == Some(c.key) && (c.gateway == "" || row.gateway == c.gateway)
  }

  function Candidates(rows: Sandboxes, c: Claim): set<Id> { set id | id in rows && Waiting(rows[id], c) }

  predicate Before(rows: Sandboxes, a: Id, b: Id)
    requires a in rows && b in rows
  {
    rows[a].createdAt < rows[b].createdAt || (rows[a].createdAt == rows[b].createdAt && a < b)
  }

  predicate IsFirst(rows: Sandboxes, ids: set<Id>, id: Id)
    requires ids <= rows.Keys
  {
    id in ids && forall other :: other in ids && other != id ==> Before(rows, id, other)
  }

  lemma {:induction false} SomeoneIsFirst(rows: Sandboxes, ids: set<Id>) returns (first: Id)
    requires ids != {} && ids <= rows.Keys
    ensures IsFirst(rows, ids, first)
  {
    var x :| x in ids;
    first := x;
    if ids != {x} {
      var y := SomeoneIsFirst(rows, ids - {x});
      first := if Before(rows, x, y) then x else y;
      assert ids == (ids - {x}) + {x};
    }
  }

  /** The row a sorted find_one or SELECT ... LIMIT 1 picks. */
  function Oldest(rows: Sandboxes, c: Claim): (pick: Option<Id>)
    ensures pick.None? <==> Candidates(rows, c) == {}
    ensures pick.Some? ==> IsFirst(rows, Candidates(rows, c), pick.value)
  {
    var ids := Candidates(rows, c);
    if ids == {} then None
    else
      assert exists id :: IsFirst(rows, ids, id) by { var first := SomeoneIsFirst(rows, ids); }
      var id :| id in ids && IsFirst(rows, ids, id);
      Some(id)
  }

  function Lost(row: Sandbox, now: Time): Sandbox {
    row.(state := "lost", isWarm := false, warmKey := None, updatedAt := now)
  }

  function WaitOf(metadata: Metadata): real {
    if ACQUIRE_WAIT in metadata && metadata[ACQUIRE_WAIT].Number? then metadata[ACQUIRE_WAIT].number else 0.0
  }

  /** The metadata a claim writes, computed from the metadata `prev` it has read. */
  function Merged(prev: Metadata, c: Claim): Metadata {
    var merged := (prev - {WARM_POOL}) + (c.updates - {WARM_POOL});
    merged[ACQUIRE_WAIT := Number(WaitOf(merged) + (if c.waited > 0.0 then c.waited else 0.0))]
  }

  function TimeoutOf(row: Sandbox, c: Claim): int {
    if c.timeoutSeconds.Some? then c.timeoutSeconds.value else if row.timeout == 0 then 3600 else row.timeout
  }

  function Handed(row: Sandbox, seen: Sandbox, c: Claim): Sandbox {
    var timeout := TimeoutOf(seen, c);
    row.(owner := c.owner, apiKey := c.apiKey, isWarm := false, warmKey := None, metadata := Merged(seen.metadata, c),
         timeout := timeout, leaseExpiresAt := Some(c.now + Max(60, timeout)), updatedAt := c.now)
  }

  /** Scan the waiting rows from the oldest on, marking unhealthy ones lost, for `tries` rows. */
  function Scan(rows: Sandboxes, c: Claim, tries: nat): (Sandboxes, Option<Id>) {
    var pick := Oldest(rows, c);
    if tries == 0 || pick.None? then (rows, None)
    else if Unhealthy(rows[pick.value].metadata)
    then Scan(rows[pick.value := Lost(rows[pick.value], c.now)], c, tries - 1)
    else (rows[pick.value := Handed(rows[pick.value], rows[pick.value], c)], pick)
  }

  // ----- What the scan means -----

  /** The candidates a claimer looks at before `id`. */
  function Ahead(rows: Sandboxes, c: Claim, id: Id): set<Id>
    requires id in rows
  {
    set other | other in Candidates(rows, c) && Before(rows, other, id)
  }

  /** `id` is looked at: fewer than `tries` candidates are ahead of it and all are unhealthy. */
  predicate Reached(rows: Sandboxes, c: Claim, tries: nat, id: Id) {
    && id in Candidates(rows, c)
    && |Ahead(rows, c, id)| < tries
    && forall other :: other in Ahead(rows, c, id) ==> Unhealthy(rows[other].metadata)
  }

  lemma ScanStep(rows: Sandboxes, c: Claim, tries: nat, id: Id)
    requires tries > 0 && Oldest(rows, c).Some? && Unhealthy(rows[Oldest(rows, c).value].metadata)
    requires id != Oldest(rows, c).value
    ensures var first := Oldest(rows, c).value;
            var rows' := rows[first := Lost(rows[first], c.now)];
            Reached(rows, c, tries, id) <==> Reached(rows', c, tries - 1, id)
  {
    var first := Oldest(rows, c).value;
    var rows' := rows[first := Lost(rows[first], c.now)];
    assert Candidates(rows', c) == Candidates(rows, c) - {first};
    if id in Candidates(rows, c) {
      assert Ahead(rows, c, id) == Ahead(rows', c, id) + {first};
    }
  }

  /** What the scan leaves of the row `id`. */
  ghost predicate ScannedRow(rows: Sandboxes, c: Claim, tries: nat, id: Id, result: (Sandboxes, Option<Id>)) {
    && (id in result.0 <==> id in rows)
    && (result.1 == Some(id) <==> Reached(rows, c, tries, id) && !Unhealthy(rows[id].metadata))
    && (id in rows ==>
          result.0[id] == if !Reached(rows, c, tries, id) then rows[id]
                          else if Unhealthy(rows[id].metadata) then Lost(rows[id], c.now)
                          else Handed(rows[id], rows[id], c))
  }

  lemma FirstIsReached(rows: Sandboxes, c: Claim, tries: nat)
    requires tries > 0 && Oldest(rows, c).Some?
    ensures Reached(rows, c, tries, Oldest(rows, c).value)
    ensures !Unhealthy(rows[Oldest(rows, c).value].metadata) ==>
              forall id :: id != Oldest(rows, c).value ==> !Reached(rows, c, tries, id)
  {
    var first := Oldest(rows, c).value;
    assert Ahead(rows, c, first) == {};
    forall id | id in Candidates(rows, c) && id != first ensures first in Ahead(rows, c, id) {}
  }

  /** A claim hands out a row exactly when it is healthy, every candidate created before it is
      unhealthy and there are fewer than the allowed tries of those; it marks lost exactly the
      unhealthy rows it reaches; and it changes nothing else. */
  lemma {:induction false} ScanMeaning(rows: Sandboxes, c: Claim, tries: nat, id: Id)
    ensures ScannedRow(rows, c, tries, id, Scan(rows, c, tries))
  {
    var pick := Oldest(rows, c);
    if tries > 0 && pick.Some? {
      var first := pick.value;
      FirstIsReached(rows, c, tries);
      if Unhealthy(rows[first].metadata) {
        var rows' := rows[first := Lost(rows[first], c.now)];
        ScanMeaning(rows', c, tries - 1, id);
        if id != first {
          ScanStep(rows, c, tries, id);
        } else {
          assert first !in Candidates(rows', c);
        }
      }
    }
  }

  /** What a claimer gets: its own updates over what the row carried, without the warm-pool
      marker, and the time it waited added on. */
  lemma MergedMeaning(prev: Metadata, c: Claim)
    ensures var merged := Merged(prev, c);
            && WARM_POOL !in merged
            && (forall k :: k !in {WARM_POOL, ACQUIRE_WAIT} ==>
                  (k in merged <==> k in prev || k in c.updates) &&
                  (k in merged ==> merged[k] == if k in c.updates then c.updates[k] else prev[k]))
            && merged[ACQUIRE_WAIT].Number?
            && WaitOf(merged) == WaitOf(if ACQUIRE_WAIT in c.updates then c.updates else prev)
                + (if c.waited > 0.0 then c.waited else 0.0)
  {
  }

  /** The metadata write goes by what was read. It is what a claimer reading at the moment of
      the write would have written exactly when no key outside the claimer's own updates had
      changed in between, the marker aside. */
  lemma StaleMetadataAgreesIff(seen: Metadata, current: Metadata, c: Claim)
    ensures Merged(seen, c) == Merged(current, c) <==>
              && (forall k :: k !in {WARM_POOL, ACQUIRE_WAIT} && k !in c.updates ==>
                    (k in seen <==> k in current) && (k in seen ==> seen[k] == current[k]))
              && (ACQUIRE_WAIT in c.updates || WaitOf(seen) == WaitOf(current))
  {
    var a, b := Merged(seen, c), Merged(current, c);
    if a == b {
      assert a[ACQUIRE_WAIT] == b[ACQUIRE_WAIT];
      forall k | k !in {WARM_POOL, ACQUIRE_WAIT} && k !in c.updates
        ensures (k in seen <==> k in current) && (k in seen ==> seen[k] == current[k])
      {
        assert (k in a <==> k in seen) && (k in b <==> k in current);
        assert k in a ==> a[k] == b[k];
      }
    }
  }

  // ----- On the fields of the rows -----

  /** The row carries a runtime error: a text that is not blank, or a number that is not zero. */
  predicate HasError(row: Sandbox) {
    "runtime_error" in row.metadata &&
    match row.metadata["runtime_error"]
    case Text(text) => exists i :: 0 <= i < |text| && !Strings.IsSpace(text[i])
    case Number(number) => number != 0.0
  }

  /** The row runs and waits for this key, at this gateway if one is asked for. */
  predicate WaitsFor(row: Sandbox, key: string, gateway: string) {
    row.state == "running" && row.isWarm && row.warmKey == Some(key) && (gateway != "" ==> row.gateway == gateway)
  }

  /** Marked lost: it belongs to no pool, and everything else is as it was. */
  predicate IsLost(before: Sandbox, after: Sandbox, now: Time) {
    && after.state == "lost" && !after.isWarm && after.warmKey == None && after.updatedAt == now
    && after.gateway == before.gateway && after.createdAt == before.createdAt && after.metadata == before.metadata
    && after.timeout == before.timeout && after.leaseExpiresAt == before.leaseExpiresAt
    && after.owner == before.owner && after.apiKey == before.apiKey
  }

  /** Handed out: going by what was seen of it, it is the claimer's, for its time to live, with a lease of that and
      of a minute at least. */
  predicate IsHanded(before: Sandbox, seen: Sandbox, after: Sandbox, c: Claim) {
    && after.owner == c.owner && after.apiKey == c.apiKey && !after.isWarm && after.warmKey == None
    && after.state == "running" && after.updatedAt == c.now
    && after.gateway == before.gateway && after.createdAt == before.createdAt
    && (c.timeoutSeconds.Some? ==> after.timeout == c.timeoutSeconds.value)
    && (c.timeoutSeconds.None? && seen.timeout != 0 ==> after.timeout == seen.timeout)
    && (c.timeoutSeconds.None? && seen.timeout == 0 ==> after.timeout == 3600)
    && (after.timeout >= 60 ==> after.leaseExpiresAt == Some(c.now + after.timeout))
    && (after.timeout < 60 ==> after.leaseExpiresAt == Some(c.now + 60))
    && "_warm_pool" !in after.metadata
  }

  lemma {:induction false} BlankIff(text: string)
    ensures Strings.Strip(text) == "" <==> forall i :: 0 <= i < |text| ==> Strings.IsSpace(text[i])
  {
    LeftIff(text);
    Strings.LStripHead(text);
    Strings.RStripPrefix(Strings.LStrip(text));
    if Strings.LStrip(text) != "" {
      RightKeeps(Strings.LStrip(text));
      assert text[|text| - |Strings.LStrip(text)|] == Strings.LStrip(text)[0];
    }
  }

  lemma {:induction false} LeftIff(text: string)
    ensures Strings.LStrip(text) == "" <==> forall i :: 0 <= i < |text| ==> Strings.IsSpace(text[i])
  {
    if text == "" {
    } else {
      LeftIff(text[1..]);
      assert forall i :: 1 <= i < |text| ==> text[i] == text[1..][i - 1];
    }
  }

  lemma {:induction false} RightKeeps(text: string)
    requires text != "" && !Strings.IsSpace(text[0])
    ensures Strings.RStrip(text) != ""
  {
    if Strings.IsSpace(text[|text| - 1]) { RightKeeps(text[..|text| - 1]); }
  }

  lemma ErrorIff(row: Sandbox)
    ensures HasError(row) <==> Unhealthy(row.metadata)
  {
    if "runtime_error" in row.metadata && row.metadata["runtime_error"].Text? {
      BlankIff(row.metadata["runtime_error"].text);
    }
  }

  /** What every row of the pool has become: untouched, lost or handed out. */
  lemma ClaimedRows(rows: Sandboxes, c: Claim, id: Id)
    requires c.key != ""
    ensures var (after, handed) := Scan(rows, c, 8);
            && (id in after <==> id in rows)
            && (id in rows ==>
                  if handed == Some(id) then WaitsFor(rows[id], c.key, c.gateway) && !HasError(rows[id])
                                             && IsHanded(rows[id], rows[id], after[id], c)
                  else after[id] == rows[id]
                       || (WaitsFor(rows[id], c.key, c.gateway) && HasError(rows[id])
                           && IsLost(rows[id], after[id], c.now)))
            && (handed == Some(id) ==> id in rows)
  {
    ScanMeaning(rows, c, 8, id);
    if id in rows {
      ErrorIff(rows[id]);
      MergedMeaning(rows[id].metadata, c);
    }
  }

  /** It is the oldest: every row that waits for the same and was created before it has an error, and
      has been marked lost. */
  lemma OlderRowsHaveErrors(rows: Sandboxes, c: Claim, other: Id)
    requires c.key != "" && Scan(rows, c, 8).1.Some? && other in rows && WaitsFor(rows[other], c.key, c.gateway)
    requires rows[other].createdAt < rows[Chosen(rows, c)].createdAt
    ensures other in Scan(rows, c, 8).0 && HasError(rows[other])
        && IsLost(rows[other], Scan(rows, c, 8).0[other], c.now)
  {
    var id := Chosen(rows, c);
    ScanMeaning(rows, c, 8, id);
    ScanMeaning(rows, c, 8, other);
    assert other in Ahead(rows, c, id);
    AheadShrinks(rows, c, other, id);
    ErrorIff(rows[other]);
  }

  /** The row a scan hands out. */
  function Chosen(rows: Sandboxes, c: Claim): (id: Id)
    requires Scan(rows, c, 8).1.Some?
    ensures id in rows
  {
    ScanMeaning(rows, c, 8, Scan(rows, c, 8).1.value);
    Scan(rows, c, 8).1.value
  }

  lemma AheadShrinks(rows: Sandboxes, c: Claim, a: Id, b: Id)
    requires b in rows && a in Ahead(rows, c, b)
    ensures Ahead(rows, c, a) < Ahead(rows, c, b) && |Ahead(rows, c, a)| < |Ahead(rows, c, b)|
  {
    assert a !in Ahead(rows, c, a);
    Smaller(Ahead(rows, c, a), Ahead(rows, c, b), a);
  }

  lemma Smaller(s: set<Id>, t: set<Id>, x: Id)
    requires s <= t && x in t && x !in s
    ensures |s| < |t|
  {
    Fits(s, t - {x});
  }

  lemma {:induction false} Fits(s: set<Id>, t: set<Id>)
    requires s <= t
    ensures |s| <= |t|
  {
    if s == {} {
    } else {
      var x :| x in s;
      Fits(s - {x}, t - {x});
    }
  }

  /** A claim comes back with nothing only when no row that waits for it is without an error, or eight
      with one were in front. */
  lemma NothingLeft(rows: Sandboxes, c: Claim, id: Id)
    requires c.key != "" && Scan(rows, c, 8).1 == None
    requires id in rows && WaitsFor(rows[id], c.key, c.gateway) && !HasError(rows[id])
    ensures exists first: Id :: first in rows && WaitsFor(rows[first], c.key, c.gateway) && |Ahead(rows, c, first)| >= 8
                                && forall other :: other in Ahead(rows, c, first) ==> HasError(rows[other])
  {
    var healthy := set i | i in rows && WaitsFor(rows[i], c.key, c.gateway) && !HasError(rows[i]);
    assert id in healthy;
    var first := SomeoneIsFirst(rows, healthy);
    forall other | other in Ahead(rows, c, first) ensures HasError(rows[other]) && Unhealthy(rows[other].metadata) {
      ErrorIff(rows[other]);
      assert other in healthy ==> Before(rows, first, other);
    }
    ScanMeaning(rows, c, 8, first);
    ErrorIff(rows[first]);
  }

}
