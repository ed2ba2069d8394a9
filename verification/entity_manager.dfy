/**
 * The entity manager (`EntityManager` in src/entity.rs): it issues ids, binds
 * each live entity to a pool index, and defers activation and removal through
 * an event queue that `Flush` replays in order.
 *
 * Calls into collaborators (the entity builder, the system manager, the
 * component manager) are not modelled as code; each call appears as a
 * `Notice` in the trace an operation returns.
 */
module EntityManagers {
  import opened Results
  import opened Entities
  import opened Stream
  import opened Sequences
  import Pool = IndexPools
  import Iters = EntityIters

  /** `Event::BuildEntity` and `Event::RemoveEntity`. */
  datatype Event = BuildEvent(entity: Entity) | RemoveEvent(entity: Entity)

  /** One call the manager makes into a collaborator. */
  datatype Notice =
    | Built(target: IndexedEntity)        // the entity builder fills in components
    | Activated(target: IndexedEntity)    // systems learn of a new entity
    | Deactivated(target: IndexedEntity)  // systems learn the entity is going away
    | RemovedAll(target: IndexedEntity)   // components of the entity are stripped

  datatype EntityManager = EntityManager(
    indices: Pool.IndexPool,
    entities: map<Entity, IndexedEntity>,
    eventQueue: seq<Event>,
    nextId: Id)

  /** What a flush produced: a new state, or a panic on an event for a dead entity. */
  datatype FlushOutcome =
    | Flushed(manager: EntityManager, trace: seq<Notice>)
    | Panicked(entity: Entity, trace: seq<Notice>)

  /**
   * The manager's invariant: every live entity is bound to itself, carries an
   * id that was issued, and holds an allocated index that no other live entity
   * holds; the pool counts exactly the live entities.
   */
  ghost predicate Valid(m: EntityManager) {
    && Pool.Valid(m.indices)
    && (forall e | e in m.entities ::
          && m.entities[e].entity == e
          && 0 < e.id <= m.nextId
          && m.entities[e].index in Pool.Allocated(m.indices))
    && (forall e1, e2 | e1 in m.entities && e2 in m.entities && e1 != e2 ::
          m.entities[e1].index != m.entities[e2].index)
    && |m.entities| == Pool.Count(m.indices)
  }

  function New(): (m: EntityManager)
    ensures Valid(m) && m.entities == map[] && m.eventQueue == [] && Count(m) == 0
  {
    EntityManager(Pool.New(), map[], [], 0)
  }

  /** Is the entity live? Scheduled removals do not count until flushed. */
  predicate IsValid(m: EntityManager, e: Entity) {
    e in m.entities
  }

  /** The number of live entities, as the pool counts them. */
  function Count(m: EntityManager): (n: int)
    ensures Valid(m) ==> n == |m.entities|
  {
    Pool.Count(m.indices)
  }

  /** The binding of a live entity; `None` where the Rust code would panic. */
  function Indexed(m: EntityManager, e: Entity): (r: Option<IndexedEntity>)
    ensures r.Some? <==> IsValid(m, e)
    ensures r.Some? ==> r.value == m.entities[e]
    ensures Valid(m) && r.Some? ==>
      && r.value.entity == e
      && r.value.index in Pool.Allocated(m.indices)
  {
    if e in m.entities then Some(m.entities[e]) else None
  }

  /**
   * `iter()` filtered by an aspect check, on a valid manager: whatever order
   * the table's keys are visited in, the iterator yields the binding of each
   * live entity that passes the check exactly once, and nothing else.
   */
  lemma FilteredIter(m: EntityManager, keys: seq<Entity>, check: IndexedEntity -> bool)
    requires Valid(m) && Iters.VisitsLive(keys, m.entities)
    ensures var ys := Iters.Filter(Iters.Pass(m.entities, keys), check);
      && Distinct(ys)
      && |ys| == |set e | e in m.entities && check(m.entities[e])|
      && (forall y | y in ys :: IsValid(m, y.entity) && Indexed(m, y.entity) == Some(y) && check(y))
      && (forall e | e in m.entities && check(m.entities[e]) :: m.entities[e] in ys)
  {
    assert Iters.BindingsDistinct(m.entities) by {
      forall e1, e2 | e1 in m.entities && e2 in m.entities && e1 != e2
        ensures m.entities[e1] != m.entities[e2]
      {
        assert m.entities[e1].entity == e1 && m.entities[e2].entity == e2;
      }
    }
    Iters.FilterLive(keys, m.entities, check);
    var ys := Iters.Filter(Iters.Pass(m.entities, keys), check);
    var passing := set e | e in m.entities && check(m.entities[e]) :: m.entities[e];
    assert Elements(ys) == passing;
    forall y | y in ys
      ensures IsValid(m, y.entity) && Indexed(m, y.entity) == Some(y) && check(y)
    {
      assert y in passing;
      var e :| e in m.entities && check(m.entities[e]) && m.entities[e] == y;
      assert y.entity == e;
    }
    forall e | e in m.entities && check(m.entities[e])
      ensures m.entities[e] in ys
    {
      assert m.entities[e] in passing;
    }
  }

  /** Issues the next id and binds it to an index from the pool. */
  function Create(m: EntityManager): (r: (Entity, EntityManager))
    ensures r.0.id == m.nextId + 1 && r.0 != Nil()
    ensures r.1.nextId == r.0.id
    ensures r.1.eventQueue == m.eventQueue
    ensures IsValid(r.1, r.0) && r.1.entities[r.0].entity == r.0
    ensures r.1.entities.Keys == m.entities.Keys + {r.0}
    ensures forall e | e in m.entities && e != r.0 :: r.1.entities[e] == m.entities[e]
    ensures (r.1.entities[r.0].index, r.1.indices) == Pool.GetIndex(m.indices)
    ensures Valid(m) ==>
      && Valid(r.1)
      && !IsValid(m, r.0)
      && (forall e | e in m.entities :: e.id < r.0.id && r.1.entities[e] == m.entities[e])
      && Count(r.1) == Count(m) + 1
  {
    var id := m.nextId + 1;
    var e := Entity(id);
    var (slot, pool) := Pool.GetIndex(m.indices);
    var m' := m.(nextId := id, entities := m.entities[e := IndexedEntity(slot, e)], indices := pool);
    BindFreshKeepsValid(m, e, slot, pool);
    (e, m')
  }

  /** Binding the next id to a fresh pool index keeps the invariant. */
  lemma BindFreshKeepsValid(m: EntityManager, e: Entity, slot: nat, pool: Pool.IndexPool)
    requires e.id == m.nextId + 1
    requires (slot, pool) == Pool.GetIndex(m.indices)
    ensures Valid(m) ==> Valid(m.(nextId := e.id, entities := m.entities[e := IndexedEntity(slot, e)], indices := pool))
  {
  }

  /**
   * Creates an entity, lets the builder fill in its components at once, and
   * schedules its activation for the next flush.
   */
  function CreateEntity(m: EntityManager): (r: (Entity, EntityManager, seq<Notice>))
    ensures r.0 == Create(m).0 && r.0.id == m.nextId + 1
    ensures r.1 == Create(m).1.(eventQueue := m.eventQueue + [BuildEvent(r.0)])
    ensures r.1.eventQueue == m.eventQueue + [BuildEvent(r.0)]
    ensures IsValid(r.1, r.0) && r.2 == [Built(r.1.entities[r.0])]
    ensures Valid(m) ==> Valid(r.1) && Count(r.1) == Count(m) + 1
  {
    var (e, m') := Create(m);
    (e, m'.(eventQueue := m'.eventQueue + [BuildEvent(e)]), [Built(m'.entities[e])])
  }

  /** Schedules a removal; nothing else changes until the next flush. */
  function RemoveEntity(m: EntityManager, e: Entity): (r: EntityManager)
    ensures r.eventQueue == m.eventQueue + [RemoveEvent(e)]
    ensures r.entities == m.entities && r.indices == m.indices && r.nextId == m.nextId
    ensures IsValid(r, e) == IsValid(m, e) && Count(r) == Count(m)
    ensures Valid(m) ==> Valid(r)
  {
    m.(eventQueue := m.eventQueue + [RemoveEvent(e)])
  }

  /** Unbinds a live entity and returns its index; does nothing to a dead one. */
  function Remove(m: EntityManager, e: Entity): (r: EntityManager)
    ensures !IsValid(r, e) && r.entities == m.entities - {e}
    ensures r.nextId == m.nextId && r.eventQueue == m.eventQueue
    ensures IsValid(m, e) ==> r.indices == Pool.ReturnId(m.indices, m.entities[e].index)
    ensures !IsValid(m, e) ==> r == m
    ensures Valid(m) ==>
      && Valid(r)
      && Count(r) == Count(m) - (if IsValid(m, e) then 1 else 0)
  {
    if e in m.entities then
      var slot := m.entities[e].index;
      var m' := m.(entities := m.entities - {e}, indices := Pool.ReturnId(m.indices, slot));
      assert Valid(m) ==> Valid(m') by {
        if Valid(m) {
          assert m.entities.Keys == m'.entities.Keys + {e};
          assert |m'.entities| == |m.entities| - 1;
        }
      }
      m'
    else
      m
  }

  /** Adds notices in front of whatever trace the rest of a flush produced. */
  function Prepend(out: seq<Notice>, r: FlushOutcome): FlushOutcome {
    match r
    case Flushed(m, t) => Flushed(m, out + t)
    case Panicked(e, t) => Panicked(e, out + t)
  }

  /** The entities whose removal is among `events`. */
  ghost function RemovedIn(events: seq<Event>): set<Entity> {
    set ev | ev in events && ev.RemoveEvent? :: ev.entity
  }

  /**
   * Replays `events` in order against `m`. The queue field of `m` is left as
   * it is; `Flush` empties it before replaying.
   */
  function Replay(m: EntityManager, events: seq<Event>): (r: FlushOutcome)
    ensures r.Flushed? ==>
      && r.manager.eventQueue == m.eventQueue
      && r.manager.nextId == m.nextId
      && r.manager.indices.nextIndex == m.indices.nextIndex
      && r.manager.entities == m.entities - RemovedIn(events)
    ensures r.Flushed? && Valid(m) ==> Valid(r.manager)
    decreases |events|
  {
    if events == [] then Flushed(m, [])
    else
      var ev := events[0];
      assert events == [ev] + events[1..];
      match Indexed(m, ev.entity)
      case None => Panicked(ev.entity, [])
      case Some(target) =>
        match ev
        case BuildEvent(_) =>
          Prepend([Activated(target)], Replay(m, events[1..]))
        case RemoveEvent(e) =>
          Prepend([Deactivated(target), RemovedAll(target)], Replay(Remove(m, e), events[1..]))
  }

  /** Takes the whole queue and replays it; the queue is empty afterwards. */
  function Flush(m: EntityManager): (r: FlushOutcome)
    ensures r.Flushed? ==>
      && r.manager.eventQueue == []
      && r.manager.nextId == m.nextId
      && r.manager.entities == m.entities - RemovedIn(m.eventQueue)
    ensures r.Flushed? && Valid(m) ==>
      && Valid(r.manager)
      && Count(r.manager) == |m.entities - RemovedIn(m.eventQueue)|
  {
    Replay(m.(eventQueue := []), m.eventQueue)
  }

  /** The notices one event produces, looking its entity up in `live`. */
  function NoticesFor(live: map<Entity, IndexedEntity>, ev: Event): seq<Notice> {
    if ev.entity !in live then []
    else
      match ev
      case BuildEvent(e) => [Activated(live[e])]
      case RemoveEvent(e) => [Deactivated(live[e]), RemovedAll(live[e])]
  }

  /**
   * The trace a flush should produce: each event's notices in queue order,
   * every binding read from the table as it was when the flush began.
   */
  function ExpectedTrace(live: map<Entity, IndexedEntity>, events: seq<Event>): seq<Notice>
    decreases |events|
  {
    if events == [] then [] else NoticesFor(live, events[0]) + ExpectedTrace(live, events[1..])
  }

  /** The indices a flush returns to the pool, in the order it returns them. */
  function FreedSlots(live: map<Entity, IndexedEntity>, events: seq<Event>): seq<nat>
    decreases |events|
  {
    if events == [] then []
    else
      var ev := events[0];
      (if ev.RemoveEvent? && ev.entity in live then [live[ev.entity].index] else [])
        + FreedSlots(live, events[1..])
  }

  /**
   * A queue can be replayed against a set of live entities when each event
   * names an entity that is live and not removed by an earlier event.
   */
  ghost predicate Replayable(live: set<Entity>, events: seq<Event>) {
    forall i | 0 <= i < |events| ::
      events[i].entity in live && events[i].entity !in RemovedIn(events[..i])
  }

  /** Replayability, one event at a time. */
  lemma ReplayableCons(live: set<Entity>, events: seq<Event>)
    requires events != []
    ensures Replayable(live, events) <==>
      && events[0].entity in live
      && Replayable(live - RemovedIn([events[0]]), events[1..])
  {
  }

  /** A successful replay only met events for entities live at its start. */
  lemma {:induction false} ReplayMetLiveEntities(m: EntityManager, events: seq<Event>)
    requires Replay(m, events).Flushed?
    ensures forall ev | ev in events :: ev.entity in m.entities
    decreases |events|
  {
    if events != [] {
      var ev := events[0];
      var next := if ev.RemoveEvent? then Remove(m, ev.entity) else m;
      assert Replay(m, events) == Prepend(NoticesFor(m.entities, ev), Replay(next, events[1..]));
      ReplayMetLiveEntities(next, events[1..]);
      assert events == [ev] + events[1..];
    }
  }

  /** The expected trace and freed slots depend only on the bindings of the events' entities. */
  lemma {:induction false} ExpectedAgree(a: map<Entity, IndexedEntity>, b: map<Entity, IndexedEntity>, events: seq<Event>)
    requires forall ev | ev in events :: ev.entity in a && ev.entity in b && a[ev.entity] == b[ev.entity]
    ensures ExpectedTrace(a, events) == ExpectedTrace(b, events)
    ensures FreedSlots(a, events) == FreedSlots(b, events)
    decreases |events|
  {
    if events != [] {
      assert events[0] in events;
      ExpectedAgree(a, b, events[1..]);
    }
  }

  /**
   * A successful replay emits exactly the expected trace, returns exactly the
   * removed entities' indices to the pool in queue order, and mints nothing.
   */
  lemma {:induction false} ReplayEffects(m: EntityManager, events: seq<Event>)
    requires Replay(m, events).Flushed?
    ensures Replay(m, events).trace == ExpectedTrace(m.entities, events)
    ensures Replay(m, events).manager.indices
         == Pool.IndexPool(m.indices.recycled + FreedSlots(m.entities, events), m.indices.nextIndex)
    decreases |events|
  {
    if events == [] {
      assert m.indices.recycled + [] == m.indices.recycled;
    } else {
      var ev := events[0];
      var tail := events[1..];
      var next := if ev.RemoveEvent? then Remove(m, ev.entity) else m;
      assert Replay(m, events) == Prepend(NoticesFor(m.entities, ev), Replay(next, tail));
      ReplayEffects(next, tail);
      ReplayMetLiveEntities(next, tail);
      ExpectedAgree(next.entities, m.entities, tail);
      assert next.indices.recycled
          == m.indices.recycled + (if ev.RemoveEvent? then [m.entities[ev.entity].index] else []);
    }
  }

  /** A replay succeeds exactly when the queue is replayable against the live entities. */
  lemma {:induction false} ReplaySucceedsIff(m: EntityManager, events: seq<Event>)
    ensures Replay(m, events).Flushed? <==> Replayable(m.entities.Keys, events)
    decreases |events|
  {
    if events != [] {
      var ev := events[0];
      ReplayableCons(m.entities.Keys, events);
      if ev.entity in m.entities {
        var next := if ev.RemoveEvent? then Remove(m, ev.entity) else m;
        assert Replay(m, events) == Prepend(NoticesFor(m.entities, ev), Replay(next, events[1..]));
        ReplaySucceedsIff(next, events[1..]);
        assert next.entities.Keys == m.entities.Keys - RemovedIn([ev]);
      }
    }
  }

  /**
   * The flush processes the queue present at entry, in order: it succeeds
   * exactly when that queue is replayable, and then its trace and the indices
   * it frees follow the queue event by event.
   */
  lemma FlushInOrder(m: EntityManager)
    ensures Flush(m).Flushed? <==> Replayable(m.entities.Keys, m.eventQueue)
    ensures Flush(m).Flushed? ==>
      && Flush(m).trace == ExpectedTrace(m.entities, m.eventQueue)
      && Flush(m).manager.indices.recycled == m.indices.recycled + FreedSlots(m.entities, m.eventQueue)
      && Flush(m).manager.indices.nextIndex == m.indices.nextIndex
  {
    var m0 := m.(eventQueue := []);
    ReplaySucceedsIff(m0, m.eventQueue);
    if Flush(m).Flushed? {
      ReplayEffects(m0, m.eventQueue);
    }
  }

  /**
   * Removal is deferred: a live entity stays valid after `RemoveEntity`, and
   * the flush that follows on an empty queue deactivates it, strips its
   * components, unbinds it and recycles its index.
   */
  lemma RemoveThenFlush(m: EntityManager, e: Entity)
    requires Valid(m) && m.eventQueue == [] && IsValid(m, e)
    ensures IsValid(RemoveEntity(m, e), e)
    ensures Flush(RemoveEntity(m, e)).Flushed?
    ensures var r := Flush(RemoveEntity(m, e));
      && !IsValid(r.manager, e)
      && r.trace == [Deactivated(m.entities[e]), RemovedAll(m.entities[e])]
      && r.manager.indices.recycled == m.indices.recycled + [m.entities[e].index]
      && Valid(r.manager)
      && Count(r.manager) == Count(m) - 1
  {
    var m1 := RemoveEntity(m, e);
    var queue := [RemoveEvent(e)];
    var target := m.entities[e];
    assert m1.eventQueue == queue;
    assert RemovedIn(queue) == {e} by {
      assert queue[0] in queue;
    }
    assert queue[..0] == [];
    assert Replayable(m1.entities.Keys, queue);
    FlushInOrder(m1);
    assert ExpectedTrace(m1.entities, queue) == [Deactivated(target), RemovedAll(target)] by {
      assert queue[1..] == [];
    }
    assert FreedSlots(m1.entities, queue) == [target.index] by {
      assert queue[1..] == [];
    }
    assert |m.entities - {e}| == |m.entities| - 1 by {
      assert m.entities.Keys == (m.entities - {e}).Keys + {e};
    }
  }

  /** The slot of an entity removed and flushed goes to the next entity created. */
  lemma IndexReuse(m: EntityManager, a: Entity)
    requires Valid(m) && m.eventQueue == [] && IsValid(m, a)
    ensures Flush(RemoveEntity(m, a)).Flushed?
    ensures var b := Create(Flush(RemoveEntity(m, a)).manager);
      && b.1.entities[b.0].index == m.entities[a].index
      && b.0 != a
  {
    RemoveThenFlush(m, a);
    Pool.ReturnThenGet(m.indices, m.entities[a].index);
  }

  datatype SerialError = PendingEvents(message: string)

  /**
   * Serialises the manager: the pool, the entity table, then the id counter.
   * Refused, with nothing written, while events are queued.
   */
  function Write(m: EntityManager): (r: Result<seq<Token>, SerialError>)
    ensures r.Failure? <==> |m.eventQueue| != 0
    ensures r.Success? ==>
      r.value == Pool.Write(m.indices) + [EntityTable(m.entities), Word(m.nextId)]
  {
    if |m.eventQueue| != 0 then
      Failure(PendingEvents("Please flush events before serialising the world"))
    else
      Success(Pool.Write(m.indices) + [EntityTable(m.entities), Word(m.nextId)])
  }

  /** Reads a manager back; the queue always starts empty. */
  function Read(ts: seq<Token>): (r: Option<(EntityManager, seq<Token>)>)
    ensures r.Some? ==> r.value.0.eventQueue == []
    ensures r.Some? ==> Write(r.value.0).Success? && Write(r.value.0).value + r.value.1 == ts
  {
    match Pool.Read(ts)
    case None => None
    case Some((pool, afterPool)) =>
      match ReadTail(afterPool)
      case None => None
      case Some((table, next, rest)) =>
        WriteOfParts(pool, table, next, rest);
        Some((EntityManager(pool, table, [], next), rest))
  }

  /** The written form of a manager with an empty queue, split at the pool. */
  lemma WriteOfParts(pool: Pool.IndexPool, table: map<Entity, IndexedEntity>, next: Id, rest: seq<Token>)
    ensures var w := Write(EntityManager(pool, table, [], next));
      w.Success? && w.value + rest == Pool.Write(pool) + ([EntityTable(table), Word(next)] + rest)
  {
  }

  /** Reads the entity table and the id counter that follow the pool. */
  function ReadTail(ts: seq<Token>): (r: Option<(map<Entity, IndexedEntity>, Id, seq<Token>)>)
    ensures r.Some? ==> ts == [EntityTable(r.value.0), Word(r.value.1)] + r.value.2
  {
    if |ts| > 1 && ts[0].EntityTable? && ts[1].Word? then
      assert ts == [ts[0], ts[1]] + ts[2..];
      Some((ts[0].table, ts[1].value, ts[2..]))
    else None
  }

  /** A manager with an empty queue survives a write and a read unchanged. */
  lemma WriteRead(m: EntityManager, rest: seq<Token>)
    requires m.eventQueue == []
    ensures Write(m).Success? && Read(Write(m).value + rest) == Some((m, rest))
  {
    var tail := [EntityTable(m.entities), Word(m.nextId)] + rest;
    var ts := Pool.Write(m.indices) + tail;
    WriteOfParts(m.indices, m.entities, m.nextId, rest);
    assert m == EntityManager(m.indices, m.entities, [], m.nextId);
    assert Write(m).value + rest == ts;
    Pool.ReadWrite(m.indices, tail);
    assert Pool.Read(ts) == Some((m.indices, tail));
    assert tail[2..] == rest;
    assert ReadTail(tail) == Some((m.entities, m.nextId, rest));
  }
}
