/**
  One managed process of the guest daemon: an append-only event history and the queues of the
  subscribers that follow it live.
 */
module ProcessEvents {
  import opened Wrappers
  import opened ConnectFraming

  datatype Kind = Stdout | Stderr | Pty

  datatype Event = Data(kind: Kind, bytes: Bytes) | End(code: int, error: string)

  predicate HasEnd(events: seq<Event>) { exists i :: 0 <= i < |events| && events[i].End? }

  ghost predicate AtMostOneEnd(events: seq<Event>) {
    forall i, j :: 0 <= i < j < |events| ==> !(events[i].End? && events[j].End?)
  }

  class Queue {
    var items: seq<Event>
    /** Where in the history this queue joined, and what its reader has taken from it. */
    ghost var joined: nat
    ghost var taken: seq<Event>

    constructor (ghost joined: nat)
      ensures items == [] && taken == [] && this.joined == joined
    {
      this.items, this.taken, this.joined := [], [], joined;
    }

    /** A reader that finds the queue empty waits. */
    method Get() returns (event: Option<Event>)
      modifies this
      ensures joined == old(joined) && taken + items == old(taken + items)
      ensures event.None? <==> old(items) == []
      ensures event.Some? ==> taken == old(taken) + [event.value]
    {
      if items == [] {
        return None;
      }
      event := Some(items[0]);
      taken, items := taken + [items[0]], items[1..];
    }
  }

  class ManagedProcess {
    var history: seq<Event>
    var subscribers: set<Queue>
    var endEvent: Option<Event>
    var masterFd: Option<int>

    /** Each subscriber has been given exactly the history since it joined, in order. */
    ghost predicate Valid()
      reads this, subscribers
    {
      && AtMostOneEnd(history)
      && (endEvent.Some? <==> HasEnd(history))
      && (endEvent.Some? ==> endEvent.value in history && endEvent.value.End?)
      && forall q :: q in subscribers ==> q.joined <= |history| && q.taken + q.items == history[q.joined..]
    }

    constructor (masterFd: Option<int>)
      ensures Valid() && history == [] && subscribers == {} && this.masterFd == masterFd
    {
      history, subscribers, endEvent, this.masterFd := [], {}, None, masterFd;
    }

    method Subscribe() returns (q: Queue)
      requires Valid()
      modifies this`subscribers
      ensures Valid() && fresh(q) && subscribers == old(subscribers) + {q}
      ensures q.joined == |history| && q.items == q.taken == []
    {
      q := new Queue(|history|);
      subscribers := subscribers + {q};
    }

    method Unsubscribe(q: Queue)
      requires Valid()
      modifies this`subscribers
      ensures Valid() && subscribers == old(subscribers) - {q}
    {
      subscribers := subscribers - {q};
    }

    /** Append to the history and to every subscriber's queue. */
    method Emit(event: Event)
      requires Valid() && (event.End? ==> endEvent.None?)
      modifies this, subscribers
      ensures event.Data? ==> Valid()
      ensures event.End? ==> Emitted(event)
      ensures history == old(history) + [event] && subscribers == old(subscribers)
      ensures endEvent == old(endEvent) && masterFd == old(masterFd)
      ensures forall q :: q in subscribers ==>
                q.items == old(q.items) + [event] && q.taken == old(q.taken) && q.joined == old(q.joined)
    {
      history := history + [event];
      var rest := subscribers;
      while rest != {}
        invariant rest <= subscribers == old(subscribers)
        invariant history == old(history) + [event] && endEvent == old(endEvent) && masterFd == old(masterFd)
        invariant forall q :: q in subscribers ==>
                    && q.items == (if q in rest then old(q.items) else old(q.items) + [event])
                    && q.taken == old(q.taken) && q.joined == old(q.joined)
        decreases |rest|
      {
        var q :| q in rest;
        q.items := q.items + [event];
        rest := rest - {q};
      }
      assert history[|history| - 1] == event;
      forall q | q in subscribers ensures q.taken + q.items == history[q.joined..] {
        QueueGrows(old(history), event, q.joined, q.taken, old(q.items));
      }
      AppendKeepsOneEnd(old(history), event);
    }

    /** The state between appending the end event and remembering it. */
    ghost predicate Emitted(event: Event)
      reads this, subscribers
    {
      && AtMostOneEnd(history) && HasEnd(history) && event in history
      && forall q :: q in subscribers ==> q.joined <= |history| && q.taken + q.items == history[q.joined..]
    }

    method EmitData(kind: Kind, data: Bytes)
      requires Valid()
      modifies this, subscribers
      ensures Valid() && subscribers == old(subscribers)
      ensures history == if data == [] then old(history) else old(history) + [Data(kind, data)]
      ensures endEvent == old(endEvent)
    {
      if data == [] {
        return;
      }
      Emit(Data(kind, data));
    }

    /** Only the first end counts; it also gives up the terminal. */
    method EmitEnd(code: int, error: string)
      requires Valid()
      modifies this, subscribers
      ensures Valid() && subscribers == old(subscribers)
      ensures old(endEvent).Some? ==> history == old(history) && endEvent == old(endEvent) && masterFd == old(masterFd)
      ensures old(endEvent).None? ==>
                history == old(history) + [End(code, error)] && endEvent == Some(End(code, error)) && masterFd == None
    {
      if endEvent.Some? {
        return;
      }
      var event := End(code, error);
      Emit(event);
      endEvent := Some(event);
      masterFd := None;
    }
  }

  lemma QueueGrows(history: seq<Event>, event: Event, joined: nat, taken: seq<Event>, items: seq<Event>)
    requires joined <= |history| && taken + items == history[joined..]
    ensures taken + (items + [event]) == (history + [event])[joined..]
  {
    assert taken + (items + [event]) == (taken + items) + [event];
  }

  lemma AppendKeepsOneEnd(history: seq<Event>, event: Event)
    requires AtMostOneEnd(history) && (event.End? ==> !HasEnd(history))
    ensures AtMostOneEnd(history + [event])
    ensures HasEnd(history + [event]) <==> HasEnd(history) || event.End?
  {
    var longer := history + [event];
    if HasEnd(history) {
      var i :| 0 <= i < |history| && history[i].End?;
      assert longer[i].End?;
    }
    if event.End? { assert longer[|history|].End?; }
    if HasEnd(longer) && !event.End? {
      var i :| 0 <= i < |longer| && longer[i].End?;
      assert history[i].End?;
    }
  }

}
