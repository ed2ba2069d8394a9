/**
 * The free-list allocator of dense indices (`IndexPool` in src/entity.rs).
 * Returned indices are kept on a stack and handed out again last-in
 * first-out; when the stack is empty a new index is minted.
 */
module IndexPools {
  import opened Results
  import opened Sequences
  import opened Stream

  datatype IndexPool = IndexPool(recycled: seq<nat>, nextIndex: nat)

  /** Every recycled index was minted, and none is recycled twice. */
  ghost predicate Valid(p: IndexPool) {
    && (forall i | 0 <= i < |p.recycled| :: p.recycled[i] < p.nextIndex)
    && Distinct(p.recycled)
  }

  /** The indices below `n`. */
  ghost function Below(n: nat): (s: set<nat>)
    ensures forall i: nat :: i in s <==> i < n
  {
    if n == 0 then {} else Below(n - 1) + {n - 1}
  }

  /** The indices minted so far. */
  ghost function Minted(p: IndexPool): set<nat> {
    Below(p.nextIndex)
  }

  /** The indices currently held by someone: minted and not recycled. */
  ghost function Allocated(p: IndexPool): set<nat> {
    set i: nat | i < p.nextIndex && i !in p.recycled
  }

  lemma {:induction false} BelowCardinality(n: nat)
    ensures |Below(n)| == n
  {
    if n > 0 {
      BelowCardinality(n - 1);
    }
  }

  /** The live count is the number of allocated indices. */
  lemma AllocatedCardinality(p: IndexPool)
    ensures Valid(p) ==> |Allocated(p)| == p.nextIndex - |p.recycled|
  {
    if !Valid(p) {
      return;
    }
    var minted := Minted(p);
    var free := Elements(p.recycled);
    BelowCardinality(p.nextIndex);
    DistinctCardinality(p.recycled);
    assert free <= minted;
    assert Allocated(p) == minted - free;
    assert minted == Allocated(p) + free;
    assert Allocated(p) * free == {};
  }

  /** An empty pool: nothing minted, nothing recycled. */
  function New(): (p: IndexPool)
    ensures Valid(p) && Allocated(p) == {} && Count(p) == 0
  {
    IndexPool([], 0)
  }

  /** The number of live indices; on a valid pool, exactly the allocated ones. */
  function Count(p: IndexPool): (n: int)
    ensures Valid(p) ==> n == |Allocated(p)|
  {
    AllocatedCardinality(p);
    p.nextIndex - |p.recycled|
  }

  /**
   * Hands out an index: the most recently returned one if any, otherwise a
   * newly minted one. The result is paired with the updated pool.
   */
  function GetIndex(p: IndexPool): (r: (nat, IndexPool))
    ensures |p.recycled| > 0 ==>
      && r.0 == p.recycled[|p.recycled| - 1]
      && r.1 == IndexPool(p.recycled[..|p.recycled| - 1], p.nextIndex)
    ensures |p.recycled| == 0 ==>
      && r.0 == p.nextIndex
      && r.1 == IndexPool([], p.nextIndex + 1)
      && r.0 !in Minted(p)
    ensures Count(r.1) == Count(p) + 1
    ensures Valid(p) ==>
      && Valid(r.1)
      && r.0 !in Allocated(p)
      && Allocated(r.1) == Allocated(p) + {r.0}
  {
    if |p.recycled| > 0 then
      var last := |p.recycled| - 1;
      var q := IndexPool(p.recycled[..last], p.nextIndex);
      assert Valid(p) ==> Valid(q) by {
        if Valid(p) {
          DistinctSlice(p.recycled, 0, last);
        }
      }
      assert Valid(p) ==> Allocated(q) == Allocated(p) + {p.recycled[last]} by {
        if Valid(p) {
          assert p.recycled == q.recycled + [p.recycled[last]];
          forall k | 0 <= k < |q.recycled|
            ensures q.recycled[k] != p.recycled[last]
          {
            assert q.recycled[k] == p.recycled[k];
          }
        }
      }
      (p.recycled[last], q)
    else
      (p.nextIndex, IndexPool([], p.nextIndex + 1))
  }

  /** Puts an index back on the recycled stack. */
  function ReturnId(p: IndexPool, id: nat): (q: IndexPool)
    ensures q.nextIndex == p.nextIndex && q.recycled == p.recycled + [id]
    ensures Count(q) == Count(p) - 1
    ensures Valid(p) && id in Allocated(p) ==>
      && Valid(q)
      && Allocated(q) == Allocated(p) - {id}
  {
    IndexPool(p.recycled + [id], p.nextIndex)
  }

  /** Last in, first out: an index just returned is the next one handed out. */
  lemma ReturnThenGet(p: IndexPool, id: nat)
    ensures GetIndex(ReturnId(p, id)) == (id, p)
  {
    assert (p.recycled + [id])[..|p.recycled|] == p.recycled;
  }

  /** Encoded as the recycled count, the recycled indices, then `next_index`. */
  function Write(p: IndexPool): (ts: seq<Token>)
    ensures |ts| == |p.recycled| + 2
    ensures ts[0] == Word(|p.recycled|) && ts[|ts| - 1] == Word(p.nextIndex)
    ensures forall i | 0 <= i < |p.recycled| :: ts[i + 1] == Word(p.recycled[i])
  {
    [Word(|p.recycled|)] + Words(p.recycled) + [Word(p.nextIndex)]
  }

  /**
   * Decodes a pool from the front of the stream. Nothing is validated: the
   * source trusts the stream.
   */
  function Read(ts: seq<Token>): (r: Option<(IndexPool, seq<Token>)>)
    ensures r.Some? ==> Write(r.value.0) + r.value.1 == ts
  {
    match ReadWord(ts)
    case None => None
    case Some((len, afterLen)) =>
      match ReadWords(afterLen, len)
      case None => None
      case Some((recycled, afterRecycled)) =>
        match ReadWord(afterRecycled)
        case None => None
        case Some((next, rest)) =>
          Some((IndexPool(recycled, next), rest))
  }

  /** Reading what was written gives back the same pool and the rest of the stream. */
  lemma ReadWrite(p: IndexPool, rest: seq<Token>)
    ensures Read(Write(p) + rest) == Some((p, rest))
  {
    var ts := Write(p) + rest;
    var afterLen := Words(p.recycled) + ([Word(p.nextIndex)] + rest);
    assert ts == [Word(|p.recycled|)] + afterLen;
    assert ReadWord(ts) == Some((|p.recycled|, afterLen));
    ReadWordsOfWords(p.recycled, [Word(p.nextIndex)] + rest);
    assert ReadWord([Word(p.nextIndex)] + rest) == Some((p.nextIndex, rest));
  }

  /** Decoding does not validate: it accepts a pool whose count is negative. */
  lemma ReadAcceptsInconsistentPool()
    ensures Read([Word(1), Word(5), Word(0)]) == Some((IndexPool([5], 0), []))
    ensures !Valid(IndexPool([5], 0)) && Count(IndexPool([5], 0)) < 0
  {
    var ts := [Word(1), Word(5), Word(0)];
    assert ReadWord(ts) == Some((1, ts[1..]));
    var body := [Word(5), Word(0)];
    assert ts[1..] == body;
    assert ReadWord(body) == Some((5, [Word(0)]));
    assert ReadWords([Word(0)], 0) == Some(([], [Word(0)]));
    assert [5] + [] == [5];
    assert ReadWords(body, 1) == Some(([5], [Word(0)]));
    assert ReadWord([Word(0)]) == Some((0, []));
  }
}
