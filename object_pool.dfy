/** `ObjectPool<T>` (Assets/Scripts/Utils/ObjectPool.cs): a LIFO stack of reusable
    objects. The source keeps one static stack per type; here it is an object,
    and `new T()` is the `spare` value the caller hands to `Get`. */
module ObjectPools {

  /** The pool after pushing `o`. */
  function Pushed<T>(pool: seq<T>, o: T): seq<T> {
    pool + [o]
  }

  /** What `Get` returns and the pool it leaves: the top of a non-empty pool,
      or `spare` and the unchanged (empty) pool. */
  function Popped<T>(pool: seq<T>, spare: T): (r: (T, seq<T>))
    ensures |pool| > 0 ==> r.0 == pool[|pool| - 1] && r.1 + [r.0] == pool
    ensures |pool| == 0 ==> r == (spare, [])
  {
    if |pool| > 0 then (pool[|pool| - 1], pool[..|pool| - 1]) else (spare, pool)
  }

  /** Releasing an object and getting one back returns that object and restores the pool. */
  lemma ReleaseThenGet<T>(pool: seq<T>, o: T, spare: T)
    ensures Popped(Pushed(pool, o), spare) == (o, pool)
  {
    assert (pool + [o])[..|pool|] == pool;
  }

  /** A non-empty pool hands back its objects in the reverse order of release. */
  lemma {:induction false} LastInFirstOut<T>(pool: seq<T>, a: T, b: T, spare: T)
    ensures var (x, rest) := Popped(Pushed(Pushed(pool, a), b), spare);
            x == b && Popped(rest, spare) == (a, pool)
  {
    ReleaseThenGet(Pushed(pool, a), b, spare);
    ReleaseThenGet(pool, a, spare);
  }

  /** A pool holding only copies of `spare` hands out `spare` and keeps only copies of it. */
  lemma PoppedFromEmpties<T>(pool: seq<T>, spare: T)
    ensures (forall k :: 0 <= k < |pool| ==> pool[k] == spare) ==>
            Popped(pool, spare).0 == spare &&
            forall k :: 0 <= k < |Popped(pool, spare).1| ==> Popped(pool, spare).1[k] == spare
  {
  }

  class ObjectPool<T> {
    var pool: seq<T>   // the top of the stack is the last element

    constructor ()
      ensures pool == []
    {
      pool := [];
    }

    /** `Get`: pops the most recently released object, or returns the new instance `spare`. */
    method Get(spare: T) returns (o: T)
      modifies this
      ensures (o, pool) == Popped(old(pool), spare)
      ensures old(pool) == [] ==> o == spare && pool == []
      ensures old(pool) != [] ==> |pool| == |old(pool)| - 1
    {
      if |pool| > 0 {
        o := pool[|pool| - 1];
        pool := pool[..|pool| - 1];
        return;
      }
      o := spare;
    }

    /** `Release(obj)`: pushes `obj`, growing the pool by one. */
    method Release(obj: T)
      modifies this
      ensures pool == Pushed(old(pool), obj)
      ensures |pool| == |old(pool)| + 1
    {
      pool := pool + [obj];
    }
  }
}
