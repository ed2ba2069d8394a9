/**
 * Whole sessions of calls on one entity manager: the guarantees that only
 * show over a sequence of operations, such as ids never being reused.
 */
module Lifecycle {
  import opened Entities
  import EM = EntityManagers
  import Pool = IndexPools

  /** A call a client makes on the manager. */
  datatype Op = Create | CreateEntity | RemoveEntity(target: Entity) | Flush

  /**
   * The outcome of a session: the final manager, the entities created in
   * order, and whether a flush panicked. On a panic the session stops and
   * `manager` is the state before the failing flush.
   */
  datatype History = History(manager: EM.EntityManager, issued: seq<Entity>, halted: bool)

  /** Runs `ops` in order against `m`. */
  function Run(m: EM.EntityManager, ops: seq<Op>): (h: History)
    ensures h.manager.nextId >= m.nextId
    ensures forall i | 0 <= i < |h.issued| :: m.nextId < h.issued[i].id <= h.manager.nextId
    ensures forall i, j | 0 <= i < j < |h.issued| :: h.issued[i].id < h.issued[j].id
    ensures EM.Valid(m) ==> EM.Valid(h.manager)
    decreases |ops|
  {
    if ops == [] then History(m, [], false)
    else
      match ops[0]
      case Create =>
        var (e, m') := EM.Create(m);
        var h := Run(m', ops[1..]);
        History(h.manager, [e] + h.issued, h.halted)
      case CreateEntity =>
        var (e, m', _) := EM.CreateEntity(m);
        var h := Run(m', ops[1..]);
        History(h.manager, [e] + h.issued, h.halted)
      case RemoveEntity(e) =>
        Run(EM.RemoveEntity(m, e), ops[1..])
      case Flush =>
        match EM.Flush(m)
        case Panicked(_, _) => History(m, [], true)
        case Flushed(m', _) => Run(m', ops[1..])
  }

  /**
   * Over any session from a valid state, every created id is non-nil, was
   * never live before, and differs from every other created id; and the
   * count still equals the number of live entities at the end.
   */
  lemma IdsUniqueAndFresh(m: EM.EntityManager, ops: seq<Op>)
    requires EM.Valid(m)
    ensures var h := Run(m, ops);
      && (forall i | 0 <= i < |h.issued| :: h.issued[i] != Nil() && h.issued[i] !in m.entities)
      && (forall i, j | 0 <= i < j < |h.issued| :: h.issued[i] != h.issued[j])
      && EM.Count(h.manager) == |h.manager.entities|
  {
  }

  /**
   * Three entities get indices 0, 1 and 2; removing the second and flushing
   * leaves two, frees index 1, and the next entity created takes index 1.
   */
  lemma ThreeEntitiesScenario()
    ensures
      var (e1, m1) := EM.Create(EM.New());
      var (e2, m2) := EM.Create(m1);
      var (e3, m3) := EM.Create(m2);
      var f := EM.Flush(EM.RemoveEntity(m3, e2));
      && m3.entities[e1].index == 0 && m3.entities[e2].index == 1 && m3.entities[e3].index == 2
      && f.Flushed?
      && EM.Count(f.manager) == 2
      && !EM.IsValid(f.manager, e2)
      && f.manager.indices.recycled == [1]
      && var (e4, m4) := EM.Create(f.manager);
         && m4.entities[e4].index == 1
         && EM.Count(m4) == 3
  {
    var m0 := EM.New();
    var (e1, m1) := EM.Create(m0);
    assert m1.indices == Pool.IndexPool([], 1) && m1.entities[e1].index == 0;
    var (e2, m2) := EM.Create(m1);
    assert m2.indices == Pool.IndexPool([], 2) && m2.entities[e2].index == 1;
    var (e3, m3) := EM.Create(m2);
    assert m3.indices == Pool.IndexPool([], 3) && m3.entities[e3].index == 2;
    assert m3.eventQueue == [];
    EM.RemoveThenFlush(m3, e2);
    EM.IndexReuse(m3, e2);
    var f := EM.Flush(EM.RemoveEntity(m3, e2));
    assert EM.Count(m3) == 3;
    var (e4, m4) := EM.Create(f.manager);
    assert EM.Count(m4) == EM.Count(f.manager) + 1;
  }
}
