/** The watcher (pkg/syncer/watcher.go): raw notifications are buffered as
    they arrive, and on each tick of the clock, once no notification has come
    for `debounce`, the buffer is sorted by sequence id, turned into events
    for the handler one by one, and the differ is updated once. The clock is
    `env.now`, with 0 standing for Go's zero `time.Time`. */
module Watchers {
  import opened Wrappers
  import opened Sorting
  import opened Events
  import opened Handlers
  import opened Differs

  /** The operation `handleFsEvent` reads off the event mask: the first of
      Create, Remove, Write and Rename that is set wins. */
  function Classify(kinds: set<Kind>): (op: Operation)
    ensures op == Created <==> Create in kinds
    ensures op == Deleted <==> Create !in kinds && Remove in kinds
    ensures op == Modified <==> Create !in kinds && Remove !in kinds && Write in kinds
    ensures op == Moved <==> Create !in kinds && Remove !in kinds && Write !in kinds && Rename in kinds
    ensures op == Unknown <==> kinds == {}
  {
    if Create in kinds then Created
    else if Remove in kinds then Deleted
    else if Write in kinds then Modified
    else if Rename in kinds then Moved
    else assert forall k :: k in kinds ==> k == Create || k == Remove || k == Write || k == Rename; Unknown
  }

  /** The event `handleFsEvent` builds: the notified path as its name, the
      paths left for `handleEvent` to fill in. */
  function RawEvent(e: FsEvent): (ev: Event)
    ensures ev.operation == Classify(e.kinds) && ev.name == e.path
  {
    Event(Classify(e.kinds), e.path, "", "")
  }

  /** The comparator of `handleBufferedFsEvents`: `a` sorts before `b` only
      when both carry a sequence id and `a`'s is smaller. */
  function IdLess(a: FsEvent, b: FsEvent): bool
  {
    a.id.Some? && b.id.Some? && a.id.value < b.id.value
  }

  /** What one notification does to the handler's maps: nothing when the
      name has no absolute form or the handler has no watcher, else the
      dispatch of the completed event. */
  function FsEventSpec(s: State, e: FsEvent, env: Env, hasWatcher: bool, root: string): State
  {
    var ev := RawEvent(e);
    match env.absolute(ev.name)
    case None => s
    case Some(absolute) => if hasWatcher then Dispatch(s, Completed(ev, absolute), env, root) else s
  }

  /** What `handleEvent`'s contract leaves after the event built from `e` is
      `FsEventSpec`. */
  lemma EventHandled(s: State, e: FsEvent, env: Env, hasWatcher: bool, root: string, r: State, handled: Event)
    requires env.absolute(e.path).None? ==> r == s
    requires env.absolute(e.path).Some? ==> handled == Completed(RawEvent(e), env.absolute(e.path).value)
    requires env.absolute(e.path).Some? && !hasWatcher ==> r == s
    requires env.absolute(e.path).Some? && hasWatcher ==> r == Dispatch(s, handled, env, root)
    ensures r == FsEventSpec(s, e, env, hasWatcher, root)
  {
  }

  /** The notifications `events`, handled in order. */
  function Flushed(s: State, events: seq<FsEvent>, env: Env, hasWatcher: bool, root: string): State
  {
    if events == [] then s
    else FsEventSpec(Flushed(s, events[..|events| - 1], env, hasWatcher, root), events[|events| - 1], env, hasWatcher, root)
  }

  /** Whether a tick at `now` is inside the debounce window: no notification
      yet, or the last one is less than `debounce` old. */
  predicate Quiet(lastFsEvent: int, debounce: int, now: int)
  {
    lastFsEvent == 0 || now < lastFsEvent + debounce
  }

  class Watcher {
    /** `bufferedFsEvents`. */
    var buffer: seq<FsEvent>
    /** `lastFsEvent`: when the last notification was buffered. */
    var lastFsEvent: int
    const handler: Handler
    /** The root of the watched tree. */
    const path: string
    /** The tick interval of the run loop. `GetWatcher` stores it; only the
        run loop, which is not part of this model, reads it. */
    const rate: int
    /** How long the buffer must be quiet before it is flushed. */
    const debounce: int

    /** `GetWatcher`: an empty buffer, the zero time, and the handler told
        about its watcher (which adds the whole tree and updates the
        differ). */
    constructor (path: string, rate: int, debounce: int, handler: Handler, env: Env)
      modifies handler, handler.differ
      ensures buffer == [] && lastFsEvent == 0
      ensures this.path == path && this.rate == rate && this.debounce == debounce && this.handler == handler
      ensures handler.hasWatcher
      ensures handler.Model() == AddSpec(old(handler.Model()), env.walk(handler.path))
      ensures old(handler.differ.current) == handler.fileByPath ==>
        handler.differ.current == old(handler.differ.current) && handler.differ.previous == old(handler.differ.previous)
      ensures old(handler.differ.current) != handler.fileByPath ==>
        handler.differ.previous == old(handler.differ.current) && handler.differ.current == handler.fileByPath
    {
      this.buffer := [];
      this.lastFsEvent := 0;
      this.path := path;
      this.rate := rate;
      this.debounce := debounce;
      this.handler := handler;
      new;
      handler.SetWatcher(env);
    }

    /** `bufferFsEvent`: append the notification and note the time, which,
        read from the clock, is never the zero time. */
    method BufferFsEvent(e: FsEvent, now: int)
      requires now > 0
      modifies this
      ensures buffer == old(buffer) + [e]
      ensures lastFsEvent == now
    {
      buffer := buffer + [e];
      lastFsEvent := now;
    }

    /** `handleFsEvent`: classify the notification and hand it to the
        handler; an error from the handler is only logged. */
    method HandleFsEvent(e: FsEvent, env: Env)
      modifies handler
      ensures handler.Model() == FsEventSpec(old(handler.Model()), e, env, handler.hasWatcher, handler.path)
      ensures handler.hasWatcher == old(handler.hasWatcher)
    {
      var event := Event(Unknown, e.path, "", "");
      if Create in e.kinds {
        event := event.(operation := Created);
      } else if Remove in e.kinds {
        event := event.(operation := Deleted);
      } else if Write in e.kinds {
        event := event.(operation := Modified);
      } else if Rename in e.kinds {
        event := event.(operation := Moved);
      }
      assert event == RawEvent(e);
      ghost var s := handler.Model();
      var handled, _ := handler.HandleEvent(event, env);
      assert handler.Model() == FsEventSpec(s, e, env, handler.hasWatcher, handler.path) by {
        EventHandled(s, e, env, handler.hasWatcher, handler.path, handler.Model(), handled);
      }
    }

    /** `handleBufferedFsEvents`, on a tick at `env.now`: inside the debounce
        window nothing happens; otherwise the buffer is emptied and, when it
        held anything, its notifications are handled in `IdLess` order
        (`flushed`) and the differ is updated once. `lastFsEvent` is never
        reset. */
    method HandleBufferedFsEvents(env: Env) returns (ghost flushed: seq<FsEvent>)
      modifies this, handler, handler.differ
      ensures lastFsEvent == old(lastFsEvent)
      ensures handler.hasWatcher == old(handler.hasWatcher)
      ensures Quiet(old(lastFsEvent), debounce, env.now) ==>
        && buffer == old(buffer) && flushed == []
        && handler.Model() == old(handler.Model())
        && unchanged(handler.differ)
      ensures !Quiet(old(lastFsEvent), debounce, env.now) ==>
        && buffer == []
        && flushed == SortedBy(old(buffer), IdLess)
        && handler.Model() == Flushed(old(handler.Model()), flushed, env, handler.hasWatcher, handler.path)
      ensures !Quiet(old(lastFsEvent), debounce, env.now) && old(buffer) == [] ==> unchanged(handler.differ)
      ensures !Quiet(old(lastFsEvent), debounce, env.now) && old(buffer) != [] ==>
        && (old(handler.differ.current) == handler.fileByPath ==>
              handler.differ.current == old(handler.differ.current) && handler.differ.previous == old(handler.differ.previous))
        && (old(handler.differ.current) != handler.fileByPath ==>
              handler.differ.previous == old(handler.differ.current) && handler.differ.current == handler.fileByPath)
    {
      flushed := [];
      if lastFsEvent == 0 {
        return;
      }
      if env.now < lastFsEvent + debounce {
        return;
      }
      var pending := buffer;
      buffer := [];
      if |pending| == 0 {
        return;
      }
      var events := new FsEvent[|pending|](i requires 0 <= i < |pending| => pending[i]);
      assert events[..] == pending;
      StableSortInPlace(events, IdLess);
      flushed := events[..];
      HandleInOrder(events[..], env);
      handler.UpdateDiffer();
    }

    /** The loop of `handleBufferedFsEvents`: each notification in turn. */
    method HandleInOrder(events: seq<FsEvent>, env: Env)
      modifies handler
      ensures handler.Model() == Flushed(old(handler.Model()), events, env, handler.hasWatcher, handler.path)
      ensures handler.hasWatcher == old(handler.hasWatcher)
    {
      var i := 0;
      while i < |events|
        invariant 0 <= i <= |events|
        invariant handler.Model() == Flushed(old(handler.Model()), events[..i], env, handler.hasWatcher, handler.path)
        invariant handler.hasWatcher == old(handler.hasWatcher)
      {
        HandleFsEvent(events[i], env);
        assert events[..i + 1][..i] == events[..i];
        i := i + 1;
      }
      assert events[..i] == events;
    }
  }

  // ---- The order in which buffered notifications are handled ----

  /** Every buffered notification is handled, exactly once. */
  lemma {:induction false} FlushIsPermutation(buffer: seq<FsEvent>)
    ensures |SortedBy(buffer, IdLess)| == |buffer|
    ensures multiset(SortedBy(buffer, IdLess)) == multiset(buffer)
  {
    SortedByPermutation(buffer, IdLess);
  }

  /** Without sequence ids (every platform but macOS) nothing compares, and
      the notifications are handled in arrival order. */
  lemma {:induction false} FlushWithoutIds(buffer: seq<FsEvent>)
    requires forall i :: 0 <= i < |buffer| ==> buffer[i].id.None?
    ensures SortedBy(buffer, IdLess) == buffer
  {
    SortedByOfSorted(buffer, IdLess);
  }

  /** The id as a sort key, 0 for none. */
  function Key(e: FsEvent): nat
  {
    if e.id.Some? then e.id.value else 0
  }

  /** The total order on keys that `IdLess` agrees with when every event
      has an id. */
  function KeyLess(a: FsEvent, b: FsEvent): bool
  {
    Key(a) < Key(b)
  }

  lemma KeyLessStrictWeakOrder()
    ensures StrictWeakOrder(KeyLess)
  {
  }

  /** The events of `s` whose id is `id`, in order. */
  function WithId(s: seq<FsEvent>, id: nat): (r: seq<FsEvent>)
    ensures forall e :: e in r ==> e in s && e.id == Some(id)
  {
    if s == [] then []
    else WithId(s[..|s| - 1], id) + (if s[|s| - 1].id == Some(id) then [s[|s| - 1]] else [])
  }

  /** Among events that all have ids, the ones `KeyLess`-incomparable with
      `e` are those sharing its id. */
  lemma {:induction false} EquivalentsAreWithId(s: seq<FsEvent>, e: FsEvent)
    requires e.id.Some?
    requires forall i :: 0 <= i < |s| ==> s[i].id.Some?
    ensures Equivalents(s, e, KeyLess) == WithId(s, e.id.value)
  {
    if s != [] {
      EquivalentsAreWithId(s[..|s| - 1], e);
    }
  }

  /** When every buffered notification has an id, they are handled in
      ascending id order, and those sharing an id keep their arrival
      order. */
  lemma FlushByIds(buffer: seq<FsEvent>)
    requires forall i :: 0 <= i < |buffer| ==> buffer[i].id.Some?
    ensures var r := SortedBy(buffer, IdLess);
      && (forall i :: 0 <= i < |r| ==> r[i].id.Some?)
      && (forall i, j :: 0 <= i < j < |r| ==> r[i].id.value <= r[j].id.value)
      && (forall id: nat :: WithId(r, id) == WithId(buffer, id))
  {
    var r := SortedBy(buffer, IdLess);
    forall x, y | x in buffer && y in buffer ensures IdLess(x, y) == KeyLess(x, y) {
    }
    SortedByCongruent(buffer, IdLess, KeyLess);
    SortedByPermutation(buffer, KeyLess);
    forall i | 0 <= i < |r| ensures r[i].id.Some? {
      assert r[i] in multiset(buffer);
    }
    KeyLessStrictWeakOrder();
    SortedBySorted(buffer, KeyLess);
    StrictWeakOrderIncomparableTransitive(KeyLess);
    forall id: nat ensures WithId(r, id) == WithId(buffer, id) {
      var e := FsEvent({}, "", Some(id));
      SortedByStable(buffer, e, KeyLess);
      EquivalentsAreWithId(r, e);
      EquivalentsAreWithId(buffer, e);
    }
  }

  /** Handling two batches in turn is handling their concatenation. */
  lemma {:induction false} FlushedConcat(s: State, a: seq<FsEvent>, b: seq<FsEvent>, env: Env, hasWatcher: bool, root: string)
    ensures Flushed(s, a + b, env, hasWatcher, root) == Flushed(Flushed(s, a, env, hasWatcher, root), b, env, hasWatcher, root)
    decreases |b|
  {
    if b == [] {
      assert a + b == a;
    } else {
      assert (a + b)[..|a + b| - 1] == a + b[..|b| - 1];
      FlushedConcat(s, a, b[..|b| - 1], env, hasWatcher, root);
    }
  }
}
