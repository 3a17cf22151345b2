/**
  The claim loop of each backend, run alone. Both are the same scan, so both hand out the same
  sandbox, lose the same sandboxes and count the same hand-off.
 */
module ClaimStores {
  import opened Wrappers
  import opened WarmPoolSegments
  import opened WarmSandboxes

  /** A claim turned the rows and segments into these and returned this row. */
  ghost predicate Claimed(rows: Sandboxes, segments: Table, c: Claim, rows': Sandboxes, segments': Table,
      got: Option<Sandbox>) {
    var (scanned, handed) := Scan(rows, c, if c.key == "" then 0 else CLAIM_TRIES);
    && rows' == scanned
    && got == (if handed.Some? && handed.value in scanned then Some(scanned[handed.value]) else None)
    && segments' == if handed.None? then segments
                    else Store(segments, c.key, RunTx(Handoff(c.now), Row(segments, c.key)).0)
  }

  /** The caller gets the row it now owns: no marker in its metadata, and the row is the
      oldest healthy one among the first eight waiting for its key and gateway. */
  lemma ClaimedMeaning(rows: Sandboxes, segments: Table, c: Claim, rows': Sandboxes, segments': Table,
      got: Option<Sandbox>)
    requires Claimed(rows, segments, c, rows', segments', got) && c.key != ""
    ensures got.None? <==> forall id :: Reached(rows, c, CLAIM_TRIES, id) ==> Unhealthy(rows[id].metadata)
    ensures got.Some? ==>
              && WARM_POOL !in got.value.metadata && got.value.owner == c.owner && !got.value.isWarm
              && exists id :: Reached(rows, c, CLAIM_TRIES, id) && !Unhealthy(rows[id].metadata)
                              && got.value == Handed(rows[id], rows[id], c)
    ensures forall k :: k in segments' <==> k in segments
    ensures forall k :: k in segments ==>
              segments'[k].handoffs == segments[k].handoffs + (if got.Some? && k == c.key then 1 else 0)
  {
    var (scanned, handed) := Scan(rows, c, CLAIM_TRIES);
    if handed.Some? {
      ScanMeaning(rows, c, CLAIM_TRIES, handed.value);
      MergedMeaning(rows[handed.value].metadata, c);
    }
    forall id | Reached(rows, c, CLAIM_TRIES, id) ensures handed == Some(id) <==> !Unhealthy(rows[id].metadata) {
      ScanMeaning(rows, c, CLAIM_TRIES, id);
    }
  }

  /** What the caller gets, on the fields: a row that waited for it without an error, now its own; and
      without a key nothing happens. */
  lemma ClaimFields(rows: Sandboxes, segments: Table, c: Claim, rows': Sandboxes, segments': Table,
      got: Option<Sandbox>)
    requires Claimed(rows, segments, c, rows', segments', got)
    ensures got.Some? ==>
              exists id: Id :: id in rows && id in rows' && rows'[id] == got.value
                  && WaitsFor(rows[id], c.key, c.gateway)
                               && !HasError(rows[id]) && IsHanded(rows[id], rows[id], got.value, c)
    ensures c.key == "" ==> got == None && rows' == rows && segments' == segments
    ensures got.Some? && c.key in segments ==> segments'[c.key].lastHandoffAt == Some(c.now)
    ensures got.None? ==> segments' == segments
  {
    if c.key != "" && Scan(rows, c, 8).1.Some? {
      ClaimedRows(rows, c, Scan(rows, c, 8).1.value);
    }
  }

  class MongoPool {
    var sandboxes: Sandboxes
    var segments: Table

    constructor (sandboxes: Sandboxes, segments: Table)
      ensures this.sandboxes == sandboxes && this.segments == segments
    {
      this.sandboxes, this.segments := sandboxes, segments;
    }

    method ClaimWarmPoolSandbox(c: Claim) returns (got: Option<Sandbox>)
      modifies this
      ensures Claimed(old(sandboxes), old(segments), c, sandboxes, segments, got)
    {
      if c.key == "" {
        return None;
      }
      for try := 0 to CLAIM_TRIES
        invariant segments == old(segments)
        invariant Scan(old(sandboxes), c, CLAIM_TRIES) == Scan(sandboxes, c, CLAIM_TRIES - try)
      {
        var found := Oldest(sandboxes, c);
        if found.None? {
          return None;
        }
        var id, picked := found.value, sandboxes[found.value];
        if Unhealthy(picked.metadata) {
          if id in sandboxes && sandboxes[id].isWarm {
            sandboxes := sandboxes[id := Lost(sandboxes[id], c.now)];
          }
          continue;
        }
        if id in sandboxes && sandboxes[id].state == "running" && sandboxes[id].isWarm && sandboxes[id].warmKey
            == Some(c.key) {
          sandboxes := sandboxes[id := Handed(sandboxes[id], picked, c)];
          if c.key in segments {
            var seg := segments[c.key];
            segments := segments[c.key :=
                seg.(handoffs := seg.handoffs + 1, lastHandoffAt := Some(c.now), updatedAt := c.now)];
          }
          return Some(sandboxes[id]);
        }
      }
      return None;
    }
  }

  class PostgresPool {
    var sandboxes: Sandboxes
    var segments: Table

    constructor (sandboxes: Sandboxes, segments: Table)
      ensures this.sandboxes == sandboxes && this.segments == segments
    {
      this.sandboxes, this.segments := sandboxes, segments;
    }

    /** The locks on the segment and on the picked rows are held until the end. */
    method ClaimWarmPoolSandbox(c: Claim) returns (result: Option<Sandbox>)
      modifies this
      ensures Claimed(old(sandboxes), old(segments), c, sandboxes, segments, result)
    {
      result := None;
      if c.key == "" {
        return;
      }
      for try := 0 to CLAIM_TRIES
        invariant result == None && segments == old(segments)
        invariant Scan(old(sandboxes), c, CLAIM_TRIES) == Scan(sandboxes, c, CLAIM_TRIES - try)
      {
        var row := Oldest(sandboxes, c);
        if row.None? {
          break;
        }
        var id := row.value;
        if Unhealthy(sandboxes[id].metadata) {
          sandboxes := sandboxes[id := Lost(sandboxes[id], c.now)];
          continue;
        }
        sandboxes := sandboxes[id := Handed(sandboxes[id], sandboxes[id], c)];
        result := Some(sandboxes[id]);
        if c.key in segments {
          segments := segments[c.key := segments[c.key].(handoffs := segments[c.key].handoffs + 1,
                                                         lastHandoffAt := Some(c.now), updatedAt := c.now)];
        }
        break;
      }
    }
  }

}
