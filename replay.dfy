/**
 * Replay of a recorded event log: two cursors over an event sequence that
 * never changes (replay/replay_engine.go and replay/playback.go), and the
 * debug-gated logger that records the events (internal/replay/logger.go).
 */
module Replay {
  import opened Events

  // ---------------------------------------------------------------------
  // Cursors
  // ---------------------------------------------------------------------

  /** What `ReplayEngine.PlayNext` returns once the log is used up: an event of type "end" and nothing else. */
  const EndEvent: Event := Event("end", map[], map[])

  /** What `Playback.PlayNext` returns once the log is used up: Go's zero `Event`. */
  const ZeroEvent: Event := Event("", map[], map[])

  /**
   * One `PlayNext` on a cursor at `index`: the event there and the next
   * index, or `done` and the same index once the log is used up.
   */
  function Step(doc: seq<Event>, index: nat, done: Event): (r: (Event, nat))
    requires index <= |doc|
    ensures r.1 <= |doc|
    ensures r.1 == index + 1 || (r.1 == index && r.1 == |doc|)
  {
    if index >= |doc| then (done, index) else (doc[index], index + 1)
  }

  /** The events that `k` calls of `PlayNext` return, starting at `index`. */
  function Played(doc: seq<Event>, index: nat, k: nat, done: Event): (r: seq<Event>)
    requires index <= |doc|
    ensures |r| == k
    decreases k
  {
    if k == 0 then []
    else
      var (e, next) := Step(doc, index, done);
      [e] + Played(doc, next, k - 1, done)
  }

  /** Within the log, `k` calls return the next `k` events in order. */
  lemma {:induction false} PlayedInOrder(doc: seq<Event>, index: nat, k: nat, done: Event)
    requires index + k <= |doc|
    ensures Played(doc, index, k, done) == doc[index..index + k]
    decreases k
  {
    if k > 0 {
      PlayedInOrder(doc, index + 1, k - 1, done);
      assert doc[index..index + k] == [doc[index]] + doc[index + 1..index + k];
    }
  }

  /** At the end of the log every call returns `done`. */
  lemma {:induction false} PlayedAtEnd(doc: seq<Event>, k: nat, done: Event)
    ensures forall e :: e in Played(doc, |doc|, k, done) ==> e == done
    decreases k
  {
    if k > 0 {
      PlayedAtEnd(doc, k - 1, done);
    }
  }

  /**
   * From a fresh or reset cursor, `|doc| + m` calls return the whole log in
   * order followed by `m` copies of `done`.
   */
  lemma {:induction false} PlayedWhole(doc: seq<Event>, m: nat, done: Event)
    ensures var r := Played(doc, 0, |doc| + m, done);
      r[..|doc|] == doc && forall j :: |doc| <= j < |r| ==> r[j] == done
  {
    PlayedSplit(doc, 0, |doc|, m, done);
    PlayedInOrder(doc, 0, |doc|, done);
    PlayedAtEnd(doc, m, done);
    var r, tail := Played(doc, 0, |doc| + m, done), Played(doc, |doc|, m, done);
    forall j | |doc| <= j < |r|
      ensures r[j] == done
    {
      assert tail[j - |doc|] in tail;
    }
  }

  /** `k + m` calls are `k` calls followed by `m` more from where those left the cursor. */
  lemma {:induction false} PlayedSplit(doc: seq<Event>, index: nat, k: nat, m: nat, done: Event)
    requires index + k <= |doc|
    ensures Played(doc, index, k + m, done) == Played(doc, index, k, done) + Played(doc, index + k, m, done)
    decreases k
  {
    if k > 0 {
      PlayedSplit(doc, index + 1, k - 1, m, done);
      assert [doc[index]] + Played(doc, index + 1, k - 1, done) + Played(doc, index + k, m, done)
        == [doc[index]] + (Played(doc, index + 1, k - 1, done) + Played(doc, index + k, m, done));
    }
  }

  /** `ReplayEngine`: a cursor over a fixed event log that reports "end" when it runs out. */
  class ReplayEngine {
    const doc: seq<Event>
    var index: nat

    ghost predicate Valid()
      reads this
    {
      index <= |doc|
    }

    /** `NewReplayEngine(events)`: the cursor starts at the first event. */
    constructor (events: seq<Event>)
      ensures Valid() && doc == events && index == 0
    {
      doc := events;
      index := 0;
    }

    /** `PlayNext`: the event at the cursor, which moves one step; the "end" event, without moving, at the end. */
    method PlayNext() returns (evt: Event)
      requires Valid()
      modifies this
      ensures Valid()
      ensures (evt, index) == Step(doc, old(index), EndEvent)
      ensures old(index) < |doc| ==> evt == doc[old(index)] && index == old(index) + 1
      ensures old(index) == |doc| ==> evt == EndEvent && index == old(index)
    {
      if index >= |doc| {
        return EndEvent;
      }
      evt := doc[index];
      index := index + 1;
    }

    /** `Reset`: back to the first event; the log is untouched. */
    method Reset()
      modifies this
      ensures Valid() && index == 0
    {
      index := 0;
    }
  }

  /** `Playback`: the same cursor, reporting Go's zero `Event` when it runs out. */
  class Playback {
    const doc: seq<Event>
    var index: nat

    ghost predicate Valid()
      reads this
    {
      index <= |doc|
    }

    /** `NewPlayback(events)`: the cursor starts at the first event. */
    constructor (events: seq<Event>)
      ensures Valid() && doc == events && index == 0
    {
      doc := events;
      index := 0;
    }

    /** `PlayNext`: the event at the cursor, which moves one step; the zero event, without moving, at the end. */
    method PlayNext() returns (evt: Event)
      requires Valid()
      modifies this
      ensures Valid()
      ensures (evt, index) == Step(doc, old(index), ZeroEvent)
      ensures old(index) < |doc| ==> evt == doc[old(index)] && index == old(index) + 1
      ensures old(index) == |doc| ==> evt == ZeroEvent && index == old(index)
    {
      if index >= |doc| {
        return ZeroEvent;
      }
      evt := doc[index];
      index := index + 1;
    }

    /** `Reset`: back to the first event; the log is untouched. */
    method Reset()
      modifies this
      ensures Valid() && index == 0
    {
      index := 0;
    }
  }

  // ---------------------------------------------------------------------
  // Event capture
  // ---------------------------------------------------------------------

  /** The arguments of one `Capture` call. */
  datatype CaptureCall = CaptureCall(
    store: map<int, seq<BlockSnapshot>>,
    sv: map<int, nat>,
    typ: EventType)

  /** The event a `Capture` call records. */
  function Recorded(c: CaptureCall): (e: Event)
    ensures e.eventType == c.typ && e.stateVector == c.sv && e.blocksByClient == c.store
  {
    Event(c.typ, c.sv, c.store)
  }

  /** The logger's events after the `calls`, in call order, starting from `events`. */
  function Logged(events: seq<Event>, debugMode: bool, calls: seq<CaptureCall>): (r: seq<Event>)
    ensures |r| == if debugMode then |events| + |calls| else |events|
  {
    if calls == [] || !debugMode then events
    else Logged(events, debugMode, calls[..|calls| - 1]) + [Recorded(calls[|calls| - 1])]
  }

  /**
   * In debug mode the log is the earlier events followed by one event per
   * call, in call order; otherwise the calls change nothing.
   */
  lemma {:induction false} LoggedInOrder(events: seq<Event>, debugMode: bool, calls: seq<CaptureCall>)
    ensures var r := Logged(events, debugMode, calls);
      && r[..|events|] == events
      && (debugMode ==> forall j :: 0 <= j < |calls| ==> r[|events| + j] == Recorded(calls[j]))
      && (!debugMode ==> r == events)
  {
    if calls != [] && debugMode {
      var front := calls[..|calls| - 1];
      LoggedInOrder(events, debugMode, front);
      var r := Logged(events, debugMode, calls);
      var mid := Logged(events, debugMode, front);
      assert r == mid + [Recorded(calls[|calls| - 1])];
      assert r[..|events|] == mid[..|events|];
      forall j | 0 <= j < |calls|
        ensures r[|events| + j] == Recorded(calls[j])
      {
        if j < |front| {
          assert r[|events| + j] == mid[|events| + j];
          assert front[j] == calls[j];
        }
      }
    }
  }

  /** `Logger`: records events, but only in debug mode. */
  class Logger {
    var events: seq<Event>
    const debugMode: bool

    /** `NewLogger(debugMode)`: no events yet. */
    constructor (debugMode: bool)
      ensures events == [] && this.debugMode == debugMode
    {
      events := [];
      this.debugMode := debugMode;
    }

    /**
     * `Capture(store, sv, typ)`: in debug mode append one event carrying the
     * arguments; otherwise do nothing.
     */
    method Capture(store: map<int, seq<BlockSnapshot>>, sv: map<int, nat>, typ: EventType)
      modifies this
      ensures events == Logged(old(events), debugMode, [CaptureCall(store, sv, typ)])
      ensures debugMode ==> events == old(events) + [Event(typ, sv, store)]
      ensures !debugMode ==> events == old(events)
    {
      if !debugMode {
        return;
      }
      events := events + [Event(typ, sv, store)];
    }
  }
}
