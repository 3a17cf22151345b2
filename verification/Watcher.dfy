/**
  The guest's polled directory watcher: compare two snapshots of a tree and report what was
  created, removed, written or had its permissions changed, in path order.
 */
module Watcher {
  import opened Wrappers
  import opened Text

  datatype Stat = Stat(mtime: int, size: int, mode: int, isDir: bool)

  type Snapshot = map<string, Stat>

  datatype Kind = Create | Remove | Chmod | Write

  datatype Event = Event(path: string, kind: Kind)

  // ----- Paths in order -----

  predicate Ascending(s: seq<string>) { forall i, j :: 0 <= i < j < |s| ==> Less(s[i], s[j]) }

  /** Put a new path into a sorted list. */
  function Insert(s: seq<string>, x: string): seq<string> {
    if s == [] || Less(x, s[0]) then [x] + s else [s[0]] + Insert(s[1..], x)
  }

  lemma {:induction false} InsertSorts(s: seq<string>, x: string)
    requires Ascending(s) && x !in s
    ensures Ascending(Insert(s, x)) && forall y :: y in Insert(s, x) <==> y == x || y in s
  {
    if s == [] {
    } else if Less(x, s[0]) {
      forall i | 0 <= i < |s| ensures Less(x, s[i]) {
        if i > 0 { LessIsTransitive(x, s[0], s[i]); }
      }
    } else {
      InsertSorts(s[1..], x);
      LessIsTotal(x, s[0]);
      var rest := Insert(s[1..], x);
      forall i | 0 <= i < |rest| ensures Less(s[0], rest[i]) {
        assert rest[i] in rest;
        if rest[i] != x { assert rest[i] in s[1..]; }
      }
    }
  }

  /** The elements of a set in order. */
  method Sorted(paths: set<string>) returns (s: seq<string>)
    ensures Ascending(s) && forall p :: p in s <==> p in paths
  {
    s := [];
    var rest := paths;
    while rest != {}
      invariant rest <= paths && Ascending(s) && forall p :: p in s <==> p in paths - rest
      decreases |rest|
    {
      var p :| p in rest;
      InsertSorts(s, p);
      s, rest := Insert(s, p), rest - {p};
    }
  }

  // ----- One poll -----

  /** What a poll should say about a path. */
  function Change(before: Snapshot, after: Snapshot, path: string): Option<Kind> {
    if path !in before && path in after then Some(Create)
    else if path in before && path !in after then Some(Remove)
    else if path !in before then None
    else if before[path].mode != after[path].mode then Some(Chmod)
    else if before[path].mtime != after[path].mtime || before[path].size != after[path].size then Some(Write)
    else None
  }

  predicate Distinct(events: seq<Event>) { forall i, j :: 0 <= i < j < |events| ==> events[i].path != events[j].path }

  /** The events report exactly the changes, one event a path. */
  ghost predicate Reports(before: Snapshot, after: Snapshot, events: seq<Event>) {
    Distinct(events) && forall path, kind :: Event(path, kind) in events <==> Change(before, after, path) == Some(kind)
  }

  /** Creations come first, then removals, then the rest, each in path order. */
  ghost predicate InOrder(events: seq<Event>) {
    forall i, j :: 0 <= i < j < |events| ==>
      Rank(events[i].kind) < Rank(events[j].kind)
      || (Rank(events[i].kind) == Rank(events[j].kind) && Less(events[i].path, events[j].path))
  }

  function Rank(kind: Kind): nat { match kind case Create => 0 case Remove => 1 case _ => 2 }

  /** The events of these paths, in path order. */
  ghost predicate Part(before: Snapshot, after: Snapshot, paths: set<string>, events: seq<Event>) {
    && (forall i, j :: 0 <= i < j < |events| ==>
        Less(events[i].path, events[j].path) && events[i].path != events[j].path)
    && forall path, kind :: Event(path, kind) in events <==> path in paths && Change(before, after, path) == Some(kind)
  }

  lemma PartKinds(before: Snapshot, after: Snapshot, paths: set<string>, events: seq<Event>, i: nat)
    requires Part(before, after, paths, events) && i < |events|
    ensures events[i].path in paths && Change(before, after, events[i].path) == Some(events[i].kind)
  {
    assert Event(events[i].path, events[i].kind) in events;
  }

  lemma InThreeParts(before: Snapshot, after: Snapshot, c: seq<Event>, r: seq<Event>, k: seq<Event>)
    requires Part(before, after, after.Keys - before.Keys, c) && Part(before, after, before.Keys - after.Keys, r)
    requires Part(before, after, after.Keys * before.Keys, k)
    ensures Reports(before, after, c + r + k) && InOrder(c + r + k)
  {
    var events := c + r + k;
    forall i, j | 0 <= i < j < |events|
      ensures events[i].path != events[j].path
      ensures Rank(events[i].kind) < Rank(events[j].kind)
              || (Rank(events[i].kind) == Rank(events[j].kind) && Less(events[i].path, events[j].path))
    {
      Placed(before, after, c, r, k, i);
      Placed(before, after, c, r, k, j);
    }
    forall path, kind ensures Event(path, kind) in events <==> Change(before, after, path) == Some(kind) {
      assert Event(path, kind) in events <==>
          Event(path, kind) in c || Event(path, kind) in r || Event(path, kind) in k;
    }
  }

  lemma Placed(before: Snapshot, after: Snapshot, c: seq<Event>, r: seq<Event>, k: seq<Event>, i: nat)
    requires Part(before, after, after.Keys - before.Keys, c) && Part(before, after, before.Keys - after.Keys, r)
    requires Part(before, after, after.Keys * before.Keys, k) && i < |c + r + k|
    ensures var e := (c + r + k)[i];
            if i < |c| then e == c[i] && Rank(e.kind) == 0 && e.path !in before
            else if i < |c| + |r| then e == r[i - |c|] && Rank(e.kind) == 1 && e.path !in after
            else e == k[i - |c| - |r|] && Rank(e.kind) == 2 && e.path in before && e.path in after
  {
    if i < |c| {
      PartKinds(before, after, after.Keys - before.Keys, c, i);
    } else if i < |c| + |r| {
      PartKinds(before, after, before.Keys - after.Keys, r, i - |c|);
    } else {
      PartKinds(before, after, after.Keys * before.Keys, k, i - |c| - |r|);
    }
  }

  class PolledWatcher {
    var snapshot: Snapshot

    constructor (snapshot: Snapshot)
      ensures this.snapshot == snapshot
    {
      this.snapshot := snapshot;
    }

    method Poll(newSnapshot: Snapshot) returns (events: seq<Event>)
      modifies this
      ensures snapshot == newSnapshot
      ensures Reports(old(snapshot), newSnapshot, events) && InOrder(events)
    {
      var oldSnapshot := snapshot;
      snapshot := newSnapshot;
      var created := Sorted(newSnapshot.Keys - oldSnapshot.Keys);
      var removed := Sorted(oldSnapshot.Keys - newSnapshot.Keys);
      var kept := Sorted(newSnapshot.Keys * oldSnapshot.Keys);
      var c := Report(oldSnapshot, newSnapshot, created);
      var r := Report(oldSnapshot, newSnapshot, removed);
      var k := Report(oldSnapshot, newSnapshot, kept);
      events := c + r + k;
      InThreeParts(oldSnapshot, newSnapshot, c, r, k);
    }

    /** The events of the given paths, in their order. */
    static method Report(oldSnapshot: Snapshot, newSnapshot: Snapshot, paths: seq<string>) returns (events: seq<Event>)
      requires Ascending(paths)
      ensures forall i, j :: 0 <= i < j < |events| ==>
          Less(events[i].path, events[j].path) && events[i].path != events[j].path
      ensures forall path, kind :: Event(path, kind) in events <==>
                path in paths && Change(oldSnapshot, newSnapshot, path) == Some(kind)
    {
      events := [];
      for i := 0 to |paths|
        invariant forall a, b :: 0 <= a < b < |events| ==>
            Less(events[a].path, events[b].path) && events[a].path != events[b].path
        invariant forall path, kind :: Event(path, kind) in events <==>
                    path in paths[..i] && Change(oldSnapshot, newSnapshot, path) == Some(kind)
      {
        var path := paths[i];
        forall e | e in events ensures Less(e.path, path) && e.path != path {
          assert Event(e.path, e.kind) in events;
          LessIsStrict(path);
        }
        assert paths[..i + 1] == paths[..i] + [path];
        var change := Change(oldSnapshot, newSnapshot, path);
        if change.Some? {
          events := events + [Event(path, change.value)];
        }
      }
      assert paths[..|paths|] == paths;
    }
  }

  /** A path has no event exactly when it is in neither snapshot, or in both with the same time,
      size and permissions. */
  lemma NoEventIff(before: Snapshot, after: Snapshot, events: seq<Event>, path: string)
    requires Reports(before, after, events)
    ensures (forall kind :: Event(path, kind) !in events) <==>
              || (path !in before && path !in after)
              || (path in before && path in after && before[path].mtime == after[path].mtime
                  && before[path].size == after[path].size
                  && before[path].mode == after[path].mode)
  {
    var change := Change(before, after, path);
    if change.Some? { assert Event(path, change.value) in events; }
  }

  // ----- Replaying the events -----

  function Replay(paths: set<string>, events: seq<Event>): set<string> {
    if events == [] then paths
    else
      var base, e := Replay(paths, events[..|events| - 1]), events[|events| - 1];
      match e.kind
      case Create => base + {e.path}
      case Remove => base - {e.path}
      case _ => base
  }

  /** With one event a path, the order of the events does not matter for the paths left. */
  lemma {:induction false} ReplayMeaning(paths: set<string>, events: seq<Event>, path: string)
    requires Distinct(events)
    ensures path in Replay(paths, events) <==>
              Event(path, Create) in events || (path in paths && Event(path, Remove) !in events)
  {
    if events == [] {
    } else {
      var front, e := events[..|events| - 1], events[|events| - 1];
      assert events == front + [e];
      assert forall other :: other in front ==> other.path != e.path;
      ReplayMeaning(paths, front, path);
    }
  }

  /** One poll takes the old path set to the new one. */
  lemma PollReplays(before: Snapshot, after: Snapshot, events: seq<Event>)
    requires Reports(before, after, events)
    ensures Replay(before.Keys, events) == after.Keys
  {
    forall path ensures path in Replay(before.Keys, events) <==> path in after.Keys {
      ReplayMeaning(before.Keys, events, path);
    }
  }

  lemma {:induction false} ReplayAppend(paths: set<string>, a: seq<Event>, b: seq<Event>)
    ensures Replay(paths, a + b) == Replay(Replay(paths, a), b)
  {
    if b == [] {
      assert a + b == a;
    } else {
      assert (a + b)[..|a + b| - 1] == a + b[..|b| - 1];
      ReplayAppend(paths, a, b[..|b| - 1]);
    }
  }

  function Last(first: Snapshot, polled: seq<Snapshot>): Snapshot {
    if polled == [] then first else polled[|polled| - 1]
  }

  /** The reports of successive polls that found these snapshots. */
  ghost predicate ReportsAll(first: Snapshot, polled: seq<Snapshot>, reports: seq<seq<Event>>) {
    |reports| == |polled| &&
    (polled == [] ||
     var n := |polled| - 1;
     ReportsAll(first, polled[..n], reports[..n]) && Reports(Last(first, polled[..n]), polled[n], reports[n]))
  }

  function Concat(reports: seq<seq<Event>>): seq<Event> {
    if reports == [] then [] else Concat(reports[..|reports| - 1]) + reports[|reports| - 1]
  }

  /** Replaying the events of any number of polls over the first snapshot's paths gives the
      paths of the last snapshot. */
  lemma {:induction false} PollsReplay(first: Snapshot, polled: seq<Snapshot>, reports: seq<seq<Event>>)
    requires ReportsAll(first, polled, reports)
    ensures Replay(first.Keys, Concat(reports)) == Last(first, polled).Keys
  {
    if polled == [] {
    } else {
      var n := |polled| - 1;
      PollsReplay(first, polled[..n], reports[..n]);
      ReplayAppend(first.Keys, Concat(reports[..n]), reports[n]);
      PollReplays(Last(first, polled[..n]), polled[n], reports[n]);
    }
  }

  // ----- What a client can tell from the names -----

  /** Events are sent with the last component of the path only. */
  function NameOf(path: string): string { path[LastIndexOf(path, '/') + 1..] }

  function Names(paths: set<string>): set<string> { set p | p in paths :: NameOf(p) }

  function ReplayNames(names: set<string>, events: seq<Event>): set<string> {
    if events == [] then names
    else
      var base, e := ReplayNames(names, events[..|events| - 1]), events[|events| - 1];
      match e.kind
      case Create => base + {NameOf(e.path)}
      case Remove => base - {NameOf(e.path)}
      case _ => base
  }

  function Removed(before: Snapshot, after: Snapshot): set<string> { before.Keys - after.Keys }

  function Created(before: Snapshot, after: Snapshot): set<string> { after.Keys - before.Keys }

  function NamesOf(events: seq<Event>, kind: Kind): set<string> {
    set e | e in events && e.kind == kind :: NameOf(e.path)
  }

  lemma NamesOfAppend(events: seq<Event>, e: Event, kind: Kind)
    ensures NamesOf(events + [e], kind) == NamesOf(events, kind) + (if e.kind == kind then {NameOf(e.path)} else {})
  {
    forall x | x in events + [e] ensures x in events || x == e {}
    assert e in events + [e];
    forall x | x in events ensures x in events + [e] {}
  }

  lemma {:induction false} NamesAfterCreations(names: set<string>, events: seq<Event>)
    requires forall i :: 0 <= i < |events| ==> !events[i].kind.Remove?
    ensures ReplayNames(names, events) == names + NamesOf(events, Create)
  {
    if events == [] {
    } else {
      var front := events[..|events| - 1];
      assert events == front + [events[|events| - 1]];
      NamesAfterCreations(names, front);
      NamesOfAppend(front, events[|events| - 1], Create);
    }
  }

  lemma {:induction false} NamesAfterRemovals(names: set<string>, events: seq<Event>)
    requires forall i :: 0 <= i < |events| ==> !events[i].kind.Create?
    ensures ReplayNames(names, events) == names - NamesOf(events, Remove)
  {
    if events == [] {
    } else {
      var front := events[..|events| - 1];
      assert events == front + [events[|events| - 1]];
      NamesAfterRemovals(names, front);
      NamesOfAppend(front, events[|events| - 1], Remove);
    }
  }

  lemma {:induction false} NamesAppend(names: set<string>, a: seq<Event>, b: seq<Event>)
    ensures ReplayNames(names, a + b) == ReplayNames(ReplayNames(names, a), b)
  {
    if b == [] {
      assert a + b == a;
    } else {
      assert (a + b)[..|a + b| - 1] == a + b[..|b| - 1];
      NamesAppend(names, a, b[..|b| - 1]);
    }
  }

  /** The creations at the front of an ordered report. */
  lemma {:induction false} CreationsFirst(events: seq<Event>) returns (n: nat)
    requires InOrder(events)
    ensures n <= |events| && (forall i :: 0 <= i < n ==> events[i].kind.Create?)
    ensures forall i :: n <= i < |events| ==> !events[i].kind.Create?
  {
    n := 0;
    while n < |events| && events[n].kind.Create?
      invariant n <= |events| && forall i :: 0 <= i < n ==> events[i].kind.Create?
    {
      n := n + 1;
    }
    if n < |events| {
      forall i | n <= i < |events| ensures !events[i].kind.Create? {}
    }
  }

  lemma NamesOfKind(before: Snapshot, after: Snapshot, events: seq<Event>, kind: Kind, paths: set<string>)
    requires Reports(before, after, events)
    requires forall p :: p in paths <==> Change(before, after, p) == Some(kind)
    ensures NamesOf(events, kind) == Names(paths)
  {
    forall p | p in paths ensures NameOf(p) in NamesOf(events, kind) { assert Event(p, kind) in events; }
    forall e | e in events && e.kind == kind ensures e.path in paths { assert Event(e.path, kind) in events; }
  }

  lemma NamesReported(before: Snapshot, after: Snapshot, events: seq<Event>)
    requires Reports(before, after, events)
    ensures NamesOf(events, Create) == Names(Created(before, after))
    ensures NamesOf(events, Remove) == Names(Removed(before, after))
  {
    NamesOfKind(before, after, events, Create, Created(before, after));
    NamesOfKind(before, after, events, Remove, Removed(before, after));
  }

  lemma NamesUnion(a: set<string>, b: set<string>)
    ensures Names(a + b) == Names(a) + Names(b)
  {
  }

  lemma NamesOfPoll(before: Snapshot, after: Snapshot, events: seq<Event>)
    requires Reports(before, after, events) && InOrder(events)
    ensures ReplayNames(Names(before.Keys), events) == Names(after.Keys) - Names(Removed(before, after))
  {
    var n := CreationsFirst(events);
    var a, b, names := events[..n], events[n..], Names(before.Keys);
    assert events == a + b;
    NamesAppend(names, a, b);
    NamesAfterCreations(names, a);
    NamesAfterRemovals(ReplayNames(names, a), b);
    SplitNames(events, n);
    NamesReported(before, after, events);
    NamesKept(before, after);
  }

  lemma NamesKept(before: Snapshot, after: Snapshot)
    ensures (Names(before.Keys) + Names(Created(before, after))) - Names(Removed(before, after)) ==
            Names(after.Keys) - Names(Removed(before, after))
  {
    var kept, created, removed := after.Keys * before.Keys, Created(before, after), Removed(before, after);
    NamesUnion(kept, removed);
    NamesUnion(kept, created);
    assert kept + removed == before.Keys && kept + created == after.Keys;
    TakenAnyway(Names(kept), Names(removed), Names(created));
  }

  lemma TakenAnyway(k: set<string>, r: set<string>, c: set<string>)
    ensures ((k + r) + c) - r == (k + c) - r
  {
  }

  lemma SplitNames(events: seq<Event>, n: nat)
    requires n <= |events|
    requires (forall i :: 0 <= i < n ==> events[i].kind.Create?) && forall i :: n <= i < |events| ==>
        !events[i].kind.Create?
    ensures NamesOf(events[..n], Create) == NamesOf(events, Create)
        && NamesOf(events[n..], Remove) == NamesOf(events, Remove)
  {
    assert events == events[..n] + events[n..];
    forall e | e in events ensures if e.kind.Create? then e in events[..n] else e in events[n..] {
      var i :| 0 <= i < |events| && events[i] == e;
      if i < n { assert events[..n][i] == e; } else { assert events[n..][i - n] == e; }
    }
  }

  lemma NothingTaken(x: set<string>, taken: set<string>)
    ensures x - taken == x <==> taken * x == {}
  {
    if x - taken == x {
      forall e | e in x ensures e !in taken { assert e in x - taken; }
    } else if taken * x == {} {
      forall e | e in x ensures e in x - taken { assert e !in taken * x; }
    }
  }

  /** From the names alone a client follows a poll exactly when no removed path shares its name
      with one that is still there; in a tree with equal names it can lose a file. */
  lemma NamesReplayIff(before: Snapshot, after: Snapshot, events: seq<Event>)
    requires Reports(before, after, events) && InOrder(events)
    ensures ReplayNames(Names(before.Keys), events) == Names(after.Keys) <==>
              Names(Removed(before, after)) * Names(after.Keys) == {}
  {
    NamesOfPoll(before, after, events);
    NothingTaken(Names(after.Keys), Names(Removed(before, after)));
  }

  /** A file that is removed takes the name of one that stays with it. */
  lemma EqualNamesLoseAFile(stat: Stat, events: seq<Event>)
    requires var before, after := map["a" + "/" + "x" := stat, "b" + "/" + "x" := stat], map["a" + "/" + "x" := stat];
             Reports(before, after, events) && InOrder(events)
    ensures ReplayNames(Names({"a" + "/" + "x", "b" + "/" + "x"}), events) != Names({"a" + "/" + "x"})
  {
    var stays, goes := "a" + "/" + "x", "b" + "/" + "x";
    var before, after := map[stays := stat, goes := stat], map[stays := stat];
    LastIndexIs("a", '/', "x");
    LastIndexIs("b", '/', "x");
    assert stays[0] != goes[0];
    assert NameOf(stays) == NameOf(goes);
    assert before.Keys == {stays, goes} && after.Keys == {stays};
    assert goes in Removed(before, after);
    assert NameOf(stays) in Names(Removed(before, after)) * Names(after.Keys);
    NamesReplayIff(before, after, events);
  }

  /** Which event a path has: a change of permissions goes before one of time or size. */
  lemma EventMeaning(before: Snapshot, after: Snapshot, events: seq<Event>, path: string)
    requires Reports(before, after, events)
    ensures Event(path, Create) in events <==> path !in before && path in after
    ensures Event(path, Remove) in events <==> path in before && path !in after
    ensures Event(path, Chmod) in events <==> path in before && path in after && before[path].mode != after[path].mode
    ensures Event(path, Write) in events <==>
              && path in before && path in after && before[path].mode == after[path].mode
              && (before[path].mtime != after[path].mtime || before[path].size != after[path].size)
  {
  }

}
