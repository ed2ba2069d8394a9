# Entity lifecycle core of ecs-rs, modelled in Dafny

This project models the entity bookkeeping of the `ecs-rs` entity-component-system crate (`src/entity.rs`):

- **`IndexPool`** hands out dense storage indices from a last-in, first-out free list. It mints a new index only when the free list is empty.
- **`EntityManager`** issues entity ids from a counter that only goes up. It binds each live entity to a pool index. It defers activation and removal through an event queue, which `flush_queue` replays in order.
- **`FilteredEntityIter`** yields the live entities that pass an aspect check.

The model is functional. An `EntityManager` is an immutable record of the pool, the entity table, the event queue and the id counter. Every operation is a pure function that returns the new record. The Rust code calls into collaborators: the entity builder, the system manager's activation and deactivation hooks, and the component manager's `__remove_all`. The model records each such call as a `Notice` in a trace instead of running it. An aspect check reads component state, so it is a predicate parameter.

Files (one module each):

| file | module | models |
|---|---|---|
| `results.dfy` | `Results` | `Option` and `Result` |
| `sequences.dfy` | `Sequences` | distinctness and element sets of sequences |
| `entities.dfy` | `Entities` | `Entity`, `Entity::nil`, `IndexedEntity` |
| `stream.dfy` | `Stream` | the serialised form as a token stream |
| `index_pool.dfy` | `IndexPools` | `IndexPool` and its encoding |
| `entity_manager.dfy` | `EntityManagers` | `EntityManager`, its events, flush and encoding |
| `entity_iter.dfy` | `EntityIters` | `FilteredEntityIter::next` |
| `lifecycle.dfy` | `Lifecycle` | sessions of calls: id uniqueness, a worked scenario |

Invariants. `IndexPools.Valid` requires that every recycled index was minted and that no index is recycled twice. `EntityManagers.Valid` requires the pool to be valid, and four more things:

- every live entity is bound to itself;
- every live entity has an id in `1..next_id`;
- every live entity holds an allocated index that no other live entity holds;
- the pool's count equals the number of live entities.

Every manager operation preserves both invariants. `IndexPools.ReturnId` preserves the pool invariant only when the index it returns is allocated. Decoding (`IndexPools.Read`, `EntityManagers.Read`) establishes neither invariant.

`EntityManager::is_valid` is `EntityManagers.IsValid`. `Entity::nil` and `Default for Entity` are `Entities.Nil` and `Entities.Default`. `Entity::id` and `IndexedEntity::index` are the datatype fields. These plain queries appear in the contracts below rather than carrying contracts of their own.

Points where the model takes a position on the code's behaviour:

- The doc comment of `EntityManager::create` (src/entity.rs:256) says it assigns "the first available index". What `IndexPool::get_index` actually does is pop the most recently returned index (LIFO), and the model does the same.
- `EntityManager::indexed` indexes the hash map directly, so it panics on an entity that is not live. The model returns `None` instead. A flush that reaches an event for a dead entity returns `Panicked(entity, trace)`; it does not require that every event is valid. `ReplaySucceedsIff` states exactly when a flush does not panic. A flush panics on a removal scheduled twice, and on an activation or removal scheduled after the entity's removal earlier in the same queue.
- Systems, components and services get no access to the manager during a flush. So nothing can be queued while a flush runs, and the queue is empty afterwards.

## Model

| member | source | states |
|---|---|---|
| IndexPools.New | src/entity.rs:312-319 | a new pool satisfies the pool invariant, has nothing allocated and counts zero |
| IndexPools.Count | src/entity.rs:321-324 | on a valid pool, `next_index - recycled.len()` is exactly the number of allocated indices (minted and not recycled) |
| IndexPools.GetIndex | src/entity.rs:326-336 | with a non-empty free list it pops the last returned index and leaves `next_index` alone; otherwise it returns the old `next_index`, which was never minted, and raises `next_index` by one; the count rises by one; on a valid pool the result was not allocated, becomes allocated, and validity is kept |
| IndexPools.ReturnId | src/entity.rs:338-341 | pushes the index on the free list; the count drops by one; returning an allocated index of a valid pool keeps it valid and unallocates exactly that index |
| IndexPools.ReturnThenGet | src/entity.rs:326-341 | last in, first out: after returning index i, the next allocation yields i and restores the pool exactly |
| IndexPools.Write | src/entity.rs:288-294 | the pool is written as the recycled count, each recycled index in order, then `next_index` |
| IndexPools.Read | src/entity.rs:296-306 | whatever it decodes is exactly an encoding of the pool it returns, followed by the unread rest |
| IndexPools.ReadWrite | src/entity.rs:288-306 | reading back a written pool yields the same pool and leaves the rest of the stream untouched |
| IndexPools.ReadAcceptsInconsistentPool | src/entity.rs:296-306 | decoding does not validate: it accepts a pool whose recycled index was never minted and whose count is negative |
| Stream.ReadWords | src/entity.rs:297-301 | the read loop succeeds exactly when the next `n` tokens are words, and then returns those `n` words and the rest of the stream |
| EntityManagers.New | src/entity.rs:194-203 | a new manager is valid, has no live entities, an empty queue and count zero |
| EntityManagers.Count | src/entity.rs:246-249 | on a valid manager, the pool's count equals the number of live entities |
| EntityManagers.Indexed | src/entity.rs:251-254 | a binding is found exactly for live entities, and it is the entity's stored binding; on a valid manager it is bound to the entity asked for, at an allocated index |
| EntityManagers.Create | src/entity.rs:257-263 | the new id is the old counter plus one, so it is never nil; the entity is live at once, at the index the pool hands out; no other binding and not the queue changes, on any manager; on a valid manager the new id is above every live id, validity is kept and the count rises by one |
| EntityManagers.CreateEntity | src/entity.rs:228-234 | leaves the manager exactly as `create` does (same id, binding, pool and counter) except that it appends the activation event at the end of the queue; its own trace is a single `Built` notice for the new binding, and `Activated` appears only in a later flush's trace |
| EntityManagers.RemoveEntity | src/entity.rs:236-239 | removal is only scheduled: the event is appended, and the table, the pool, the counter, validity of every entity and the count are unchanged |
| EntityManagers.Remove | src/entity.rs:273-276 | a live entity is unbound and its index is pushed back on the pool; a dead one leaves the manager unchanged; validity is kept and the count drops by exactly the number of entities unbound |
| EntityManagers.Replay | src/entity.rs:209-225 | a successful replay removes exactly the entities named by removal events, mints nothing, leaves the counter alone and keeps validity |
| EntityManagers.Flush | src/entity.rs:205-226 | a successful flush leaves the queue empty and the id counter alone, and removes exactly the entities whose removal was queued; on a valid manager it keeps validity and the count is the number left |
| EntityManagers.ReplayEffects | src/entity.rs:209-225 | a successful replay emits, per event in queue order, activation, or deactivation then removal of all components, using the bindings at the start of the flush; and it pushes the removed entities' indices on the free list in queue order |
| EntityManagers.ReplaySucceedsIff | src/entity.rs:209-222 | a replay completes exactly when every event names an entity that is live and not removed by an earlier event of the same queue |
| EntityManagers.FlushInOrder | src/entity.rs:205-226 | the flush processes exactly the queue present at entry, in FIFO order: it succeeds exactly when that queue is replayable, and then its trace and freed indices follow the queue event by event |
| EntityManagers.RemoveThenFlush | src/entity.rs:216-239 | starting from a valid manager with an empty queue, a live entity stays valid after `remove_entity`; the next flush deactivates it, strips its components, unbinds it, recycles its index and lowers the count by one, keeping validity |
| EntityManagers.IndexReuse | src/entity.rs:257-276 | starting from a valid manager with an empty queue, the index of an entity removed and flushed goes to the next entity created, which is a different entity |
| EntityManagers.Write | src/entity.rs:171-178 | serialisation fails exactly when events are queued, and then nothing is written; otherwise the pool, the entity table and the id counter are written in that order |
| EntityManagers.Read | src/entity.rs:181-188 | a decoded manager has an empty queue and is exactly what the consumed tokens encode |
| EntityManagers.WriteRead | src/entity.rs:171-188 | a manager with an empty queue is written and read back unchanged, and the rest of the stream is untouched |
| EntityIters.Filter | src/entity.rs:132-150 | the reference: the filtered sequence contains only inner elements that pass the check, and every inner element that passes |
| EntityIters.Next | src/entity.rs:132-150 | one call yields the first passing element: every element before it fails the check, and the inner iterator is left on the suffix just after it; it yields `None`, with the inner iterator exhausted, exactly when nothing passes; what it yields followed by the rest's filter is the whole filter |
| EntityIters.Collect | src/entity.rs:132-150 | calling `next` until `None` yields exactly the reference filter, in the inner order |
| EntityIters.FilterPass | src/entity.rs:132-150 | filtering one pass over the table's values is the same as passing over only the keys whose binding passes the check |
| EntityIters.FilterLive | src/entity.rs:132-150 | for any order that visits each live key once, the filtered iterator yields, in that order, the binding of each live entity that passes the check once and nothing else, so K passing entities give K elements; when no two live entities share a binding, no element repeats |
| EntityManagers.FilteredIter | src/entity.rs:132-150 | on a valid manager, whatever the visiting order, the filtered iterator yields no element twice, yields as many elements as live entities pass the check, yields only live bindings that pass, and yields every one of them |
| Lifecycle.Run | src/entity.rs:205-263 | over any sequence of `create`, `create_entity`, `remove_entity` and `flush_queue` calls, created ids are strictly increasing and lie above the starting counter; validity is kept |
| Lifecycle.IdsUniqueAndFresh | src/entity.rs:257-263 | over any session from a valid state, created ids are never nil, never those of an entity live at the start, and pairwise different; the count still equals the number of live entities |
| Lifecycle.ThreeEntitiesScenario | src/entity.rs:257-341 | three entities get indices 0, 1 and 2; removing the second and flushing leaves two live entities and frees index 1; the next entity created takes index 1 and the count is three |

## Left out

- Byte-level I/O (`cereal`, `Read`/`Write` streams): the serialised form is a sequence of tokens. A token is a 64-bit word or the whole entity table. The hash-map encoding comes from a foreign library, so the table is one opaque token. The `IndexedEntity` encoding at src/entity.rs:32-41 is part of that table encoding and is not modelled. The `as u64` / `as usize` casts are identities here.
- EntityManagers.Read, IndexPools.Read: a read failure is `None` and carries no error message.
- Integer widths: `Id` (`u64`), `next_index` and the count (`usize`) are unbounded naturals, so counter overflow is not modelled. IndexPools.Count returns an integer, so on an invalid pool it can go negative where `usize` subtraction panics with overflow checks on and wraps without them.
- The universe tag (`PhantomData<T>`), `Deref` of `IndexedEntity` to `Entity`, `IndexedEntity::__clone`, `EntityIter::clone` and the derived traits are compile-time matters; `IndexedEntity` is a plain pair of index and entity.
- Collaborator behaviour: `EntityBuilder::build`, `SystemManager::__activated` / `__deactivated`, `ComponentManager::__remove_all`, `Aspect::check` and the services are not modelled. Each call appears as a `Notice` in a trace, and the aspect check is a predicate argument. What the builder writes into component storage is therefore outside the model.
- `EntityManager::iter` and `EntityIter::next`: the hash-map iteration order is not modelled. One pass visits the live entities' keys in any order, each once (`EntityIters.VisitsLive`), and yields their bindings (`EntityIters.Pass`). Each live entity's binding therefore comes out once; two live entities that share a binding would give the same value twice, which cannot happen on a `Valid` manager (`EntityManagers.FilteredIter`).
- After a panicking flush, the Rust code's manager is partly updated and the thread unwinds. The model returns only the panicking entity and the trace so far. `Lifecycle.Run` stops there and keeps the state from before that flush.
