/** The terminal allocator: a pool for every target, and room made by closing what nobody uses. */
module Allocator {
  import opened Bytes
  import opened PoolSpec
  import opened Pools

  datatype PutKind = PutUnshared | PutShared | Unshare

  class TerminalPools {
    var pools: map<Key, Pool>
    var maxsize: int
    ghost var Model: Vals // the pools as values

    ghost function Repr(): set<object>
      reads this
    {
      {this} + Pools()
    }

    ghost function Pools(): set<object>
      reads this
    {
      set k | k in pools :: pools[k]
    }

    /** Pools may have gone, none was replaced. */
    static ghost predicate KeptPools(ps: map<Key, Pool>, qs: map<Key, Pool>) {
      qs.Keys <= ps.Keys && forall k :: k in qs ==> qs[k] == ps[k]
    }

    ghost predicate Valid()
      reads this, Repr()
    {
      pools.Keys == Model.Keys && AllFit(Model) &&
      forall k :: k in pools ==> pools[k].key == k && pools[k].Abs() == Model[k]
    }

    constructor ()
      ensures Valid() && fresh(Repr()) && Model == map[] && maxsize == 256
    {
      pools, maxsize, Model := map[], 256, map[];
    }

    method SetMaxsize(n: int)
      requires Valid()
      modifies this`maxsize
      ensures Valid() && maxsize == n
      ensures |AllItems(Model)| <= n ==> Steps(State(Model, old(maxsize)), Limiting(n), State(Model, maxsize))
    {
      maxsize := n;
    }

    /** The pool k was changed. */
    ghost method Update(k: Key)
      requires k in pools && pools.Keys == Model.Keys && AllFit(Model) && pools[k].Valid()
      requires forall j :: j in pools ==> pools[j].key == j && (j != k ==> pools[j].Abs() == Model[j])
      modifies this`Model
      ensures Valid() && Model == old(Model)[k := pools[k].Abs()]
    {
      hide Fits;
      Model := Model[k := pools[k].Abs()];
    }

    /** size */
    method Size() returns (n: nat)
      requires Valid()
      ensures n == |AllItems(Model)|
    {
      hide AllItems;
      n := 0;
      var todo := pools.Keys;
      NoItems(Model);
      while todo != {}
        invariant todo <= Model.Keys && n == |AllItems(Model - todo)|
      {
        ghost var some := SomeMember(todo);
        var k :| k in todo;
        OneMorePool(Model, todo, k);
        todo := todo - {k};
        n := n + |pools[k].inuse| + |pools[k].free|;
      }
      assert Model - todo == Model;
    }

    /** A new target gets an empty pool. */
    method OpenPool(k: Key)
      requires Valid()
      modifies this`pools, this`Model
      ensures Valid() && fresh(Repr() - old(Repr())) && k in pools && Model == Opened(old(Model), k)
    {
      hide AllFit;
      OpenedSame(Model, k);
      if k !in pools {
        var p := new Pool(k);
        pools := pools[k := p];
      }
      Model := Opened(Model, k);
    }

    /** _get_pool: the pool of the target, with its limit set. */
    method GetPool(k: Key, n: int) returns (r: Reply<()>, closed: set<Terminal>)
      requires Valid()
      modifies this`pools, this`Model, Pools()
      ensures Valid() && fresh(Repr() - old(Repr())) && k in Model
      ensures r == if TooLow(PoolOf(old(Model), k), n) then Raised(TerminalPoolsBusy) else Done(())
      ensures r.Raised? ==> closed == {} && Model == Opened(old(Model), k)
      ensures r.Done? ==> Resized(old(Model), Model, k, n, closed)
    {
      hide AllFit, Resized, TooLow, Evicted, Fits, Unshared;
      SizedSame(Model, k, n);
      OpenPool(k);
      r, closed := SetMaxsizeOf(k, n);
      if r.Done? {
        PoolSized(old(Model), k, n, Model[k], closed);
      }
    }

    method SetMaxsizeOf(k: Key, n: int) returns (r: Reply<()>, closed: set<Terminal>)
      requires Valid() && k in pools && k in Model
      modifies pools[k], this`Model
      ensures Valid() && k in Model && Model == old(Model)[k := Model[k]]
      ensures r == if TooLow(old(Model)[k], n) then Raised(TerminalPoolsBusy) else Done(())
      ensures r.Raised? ==> closed == {} && Model == old(Model)
      ensures r.Done? ==>
                Model[k].maxsize == n && Evicted(old(Model)[k], Model[k], closed) &&
                closed <= Unshared(old(Model)[k]) &&
                |Model[k].free| == Min(|old(Model)[k].free|, n)
    {
      hide AllFit, TooLow, Evicted, Fits, Unshared, Items;
      FitsAt(Model, k);
      r, closed := pools[k].SetMaxsize(n);
      Update(k);
    }

    /** remove_every_nth_free of one pool. */
    method RemoveEveryNthFreeOf(k: Key, n: nat) returns (removed: nat, closed: set<Terminal>)
      requires Valid() && k in pools && k in Model && n > 0
      modifies pools[k], this`Model
      ensures Valid() && k in Model && Model == old(Model)[k := Model[k]] && Cleaned(old(Model), Model, closed)
      ensures closed <= Unshared(old(Model)[k])
      ensures removed == |closed| == Min(|old(Model)[k].free| / n, |Unshared(old(Model)[k])|)
      ensures |Model[k].free| == |old(Model)[k].free| - removed && Evicted(old(Model)[k], Model[k], closed)
      ensures closed == {} ==> Model == old(Model)
    {
      hide AllFit, Cleaned, Unshared, Fits;
      FitsAt(Model, k);
      removed, closed := pools[k].RemoveEveryNthFree(n);
      EvictedSize(Model[k], pools[k].Abs(), closed);
      PoolCleaned(Model, k, pools[k].Abs(), closed);
      Update(k);
    }

    lemma PoolsModelled()
      requires Valid()
      ensures pools.Keys == Model.Keys && AllFit(Model)
    {
    }

    /** _clean_free: half of every pool, as far as it is not shared. */
    method CleanFree() returns (removed: nat, closed: set<Terminal>)
      requires Valid()
      modifies this`Model, Pools()
      ensures Valid() && Cleaned(old(Model), Model, closed) && removed == |closed|
      ensures closed == {} ==> Model == old(Model)
      ensures Halved(old(Model), Model) && (removed == 0 <==> NoneHalved(old(Model)))
    {
      hide Cleaned, Spare, AllFit, Unshared, Fits, Evicted, HalvedBut, Half, NoneHalved, Halved, Valid;
      PoolsModelled();
      removed, closed := 0, {};
      NothingCleaned(Model);
      NoneYet(Model);
      var todo := pools.Keys;
      while todo != {}
        invariant Valid() && todo <= pools.Keys == Model.Keys == old(Model).Keys
        invariant Cleaned(old(Model), Model, closed) && removed == |closed|
        invariant closed == {} ==> Model == old(Model)
        invariant HalvedBut(old(Model), Model, todo)
      {
        ghost var some := SomeMember(todo);
        var k :| k in todo;
        ghost var before := Model;
        var n, more := RemoveEveryNthFreeOf(k, 2);
        NothingTwice(old(Model), before, Model, closed, more);
        HalvedNext(old(Model), before, Model, todo, k);
        todo := todo - {k};
        closed := closed + more;
        removed := removed + n;
      }
      AllHalved(old(Model), Model);
      NoneClosed(old(Model), Model, closed);
    }

    /** A pool that lost its last terminal goes. */
    method DropIfEmpty(k: Key, ghost before: Vals, ghost closed: set<Terminal>)
      requires Valid() && k in pools && k in Model && k in before && AllFit(before) && Model == before[k := Model[k]]
      requires Cleaned(before, Model, closed) && closed != {} && closed == Unshared(before[k])
      requires Evicted(before[k], Model[k], closed)
      modifies this`pools, this`Model
      ensures Valid() && KeptPools(old(pools), pools) && Cleaned(before, Model, closed)
      ensures Emptied(before, Model, k, closed)
    {
      hide Cleaned, Unshared, Fits, Evicted, Items, Emptied;
      EvictedItems(before, k, Model[k], closed);
      EmptiedPool(before, k, Model[k], closed);
      if |pools[k].inuse| + |pools[k].free| == 0 {
        PoolGone(before, k, Model[k], closed);
        pools := pools - {k};
        Model := Model - {k};
      }
    }

    /** _clean_free_in_random_order_or_raise: everything unshared that is free in one pool. */
    method CleanFreeInRandomOrder() returns (ok: bool, closed: set<Terminal>)
      requires Valid()
      modifies this`pools, this`Model, Pools()
      ensures Valid() && KeptPools(old(pools), pools) && Cleaned(old(Model), Model, closed)
      ensures ok <==> Spare(old(Model)) != {}
      ensures if ok then exists k :: Emptied(old(Model), Model, k, closed) else closed == {} && Model == old(Model)
    {
      hide Cleaned, Spare, AllFit, Unshared, Fits, Emptied, Evicted, Valid;
      PoolsModelled();
      closed := {};
      NothingCleaned(Model);
      var todo := pools.Keys;
      while todo != {}
        invariant Valid() && pools == old(pools) && todo <= pools.Keys
        invariant Model == old(Model) && closed == {} && Cleaned(old(Model), Model, {})
        invariant forall k :: k in Model && k !in todo ==> Unshared(Model[k]) == {}
      {
        ghost var some := SomeMember(todo);
        var k :| k in todo;
        todo := todo - {k};
        var n, taken := RemoveEveryNthFreeOf(k, 1);
        FreeSpare(old(Model), k);
        Subset(taken, Unshared(old(Model)[k]));
        if n > 0 {
          DropIfEmpty(k, old(Model), taken);
          return true, taken;
        }
      }
      NoSpare(Model);
      ok := false;
    }

    /** _try_to_clean: fails exactly when no pool has a free terminal that is not shared. */
    method TryToClean() returns (ok: bool, closed: set<Terminal>)
      requires Valid()
      modifies this`pools, this`Model, Pools()
      ensures Valid() && KeptPools(old(pools), pools) && Cleaned(old(Model), Model, closed)
      ensures ok <==> Spare(old(Model)) != {}
      ensures if ok then closed != {} && Room(old(Model), Model, closed) else closed == {} && Model == old(Model)
    {
      hide Cleaned, Spare, AllFit, Halved, NoneHalved, Emptied, Unshared;
      var n;
      n, closed := CleanFree();
      if n > 0 {
        ClosedSpare(old(Model), Model, closed);
        ok := true;
      } else {
        assert closed == {};
        ok, closed := CleanFreeInRandomOrder();
        if ok {
          ghost var k :| Emptied(old(Model), Model, k, closed);
          EmptiedSome(old(Model), Model, k, closed);
        }
      }
    }

    /** _clean_if_needed. It fails exactly when the target has nothing free, the
        limit is reached, and no pool has a free terminal that is not shared. */
    method CleanIfNeeded(k: Key) returns (ok: bool, closed: set<Terminal>)
      requires Valid() && k in pools && k in Model
      modifies this`pools, this`Model, Pools()
      ensures Valid() && KeptPools(old(pools), pools) && Cleaned(old(Model), Model, closed)
      ensures !ok <==> old(Model)[k].free == {} && |AllItems(old(Model))| >= maxsize && Spare(old(Model)) == {}
      ensures !ok ==> Model == old(Model) && closed == {}
      ensures k in pools && k in Model &&
              Model[k].inuse == old(Model)[k].inuse && Model[k].maxsize == old(Model)[k].maxsize &&
              Model[k].free == old(Model)[k].free
      ensures ok && Model[k].free == {} ==> |AllItems(Model)| < maxsize || |AllItems(Model)| < |AllItems(old(Model))|
      ensures ok ==> MakesRoom(old(Model), Model, k, maxsize, closed)
    {
      hide Cleaned, Spare, AllFit, AllItems;
      NothingCleaned(Model);
      ok, closed := true, {};
      var size := Size();
      if pools[k].free == {} && size >= maxsize {
        ok, closed := TryToClean();
        EmptyStays(old(Model), Model, k, closed);
        CleanedItems(old(Model), Model, closed);
      }
    }

    /** get. sized are the pools when the limit of the target was set, which closed some;
        cleaned when room was made, which closed more. */
    method Get(k: Key, n: int)
      returns (r: Reply<Terminal>, closed: set<Terminal>, ghost sized: Vals, ghost cleaned: Vals,
               ghost some: set<Terminal>, ghost more: set<Terminal>)
      requires Valid()
      modifies this`pools, this`Model, Pools()
      ensures Valid() && fresh(Repr() - old(Repr()))
      // What happened to the pools.
      ensures Steps(State(old(Model), maxsize), Getting(k, n, r, sized, cleaned, some, more), State(Model, maxsize))
      ensures closed == Closed(State(old(Model), maxsize), Getting(k, n, r, sized, cleaned, some, more))
      ensures r.Done? ==> k in cleaned && (cleaned[k].free == {} ==> fresh(r.value))
      // When it is refused.
      ensures k in sized
      ensures r == Raised(TerminalPoolsBusy) <==>
              TooLow(PoolOf(old(Model), k), n) || Refused(sized, k, maxsize)
      // What it means for the whole.
      ensures Balanced(old(Model), Model, closed, if r.Done? then {r.value} else {}, maxsize)
    {
      hide Resized, Cleaned, Spare, AllFit, AllItems, InUse, TooLow, Fits, Unshared, Refused, Balanced, NothingToGive,
           MakesRoom, Given, Take;
      var g;
      g, closed := GetPool(k, n);
      sized, cleaned, some, more := Model, Model, closed, {};
      if g.Done? {
        var evicted;
        r, evicted, cleaned := GetFrom(k);
        more := evicted;
        InPool(old(Model), sized, k, n, some);
        GetRefused(sized, cleaned, k, maxsize, r, more);
        closed := closed + evicted;
        assert some + {} == some;
      } else {
        r := Raised(TerminalPoolsBusy);
      }
      GetKeeps(State(old(Model), maxsize), Getting(k, n, r, sized, cleaned, some, more), Model);
    }

    /** get, in the pool of the target. */
    method GetFrom(k: Key) returns (r: Reply<Terminal>, closed: set<Terminal>, ghost cleaned: Vals)
      requires Valid() && k in pools && k in Model
      modifies this`pools, this`Model, Pools()
      ensures Valid() && KeptPools(old(pools), pools)
      ensures k in cleaned
      ensures if NothingToGive(old(Model), k, maxsize) then r == Raised(TerminalPoolsBusy) && closed == {}
              else MakesRoom(old(Model), cleaned, k, maxsize, closed) && Given(cleaned[k], k, r)
      ensures r.Raised? ==> Model == cleaned
      ensures NothingToGive(old(Model), k, maxsize) ==> cleaned == old(Model)
      ensures r.Done? ==>
                (cleaned[k].free == {} ==> fresh(r.value)) && Model == cleaned[k := Take(cleaned[k], r.value)]
    {
      hide Cleaned, Spare, AllFit, AllItems, InUse, Fits, Unshared, MakesRoom, Given, Take;
      var ok;
      ok, closed := CleanIfNeeded(k);
      cleaned := Model;
      if !ok {
        return Raised(TerminalPoolsBusy), closed, cleaned;
      }
      r := TakeFrom(k);
    }

    /** _get_terminal, in the pool of the target. */
    method TakeFrom(k: Key) returns (r: Reply<Terminal>)
      requires Valid() && k in pools && k in Model
      modifies pools[k], this`Model
      ensures Valid() && Given(old(Model)[k], k, r)
      ensures r.Raised? ==> Model == old(Model)
      ensures r.Done? ==>
                (old(Model)[k].free == {} ==> fresh(r.value)) && Model == old(Model)[k := Take(old(Model)[k], r.value)]
    {
      hide AllFit, Fits, Take;
      FitsAt(Model, k);
      r := pools[k].Get();
      assert Given(Model[k], k, r);
      Update(k);
    }

    /** _put_op: put, put_incr_shared and decr_shared. A terminal that shall not be stored is closed instead. */
    method PutOp(kind: PutKind, t: Terminal, stored: bool) returns (r: Reply<()>, closed: set<Terminal>)
      requires Valid()
      modifies this`Model, Pools()
      ensures Valid()
      ensures t.key !in old(Model) ==> r == Raised(PoolNotFound) && Model == old(Model) && closed == {}
      ensures t.key in old(Model) ==>
                (r, Model) == PutResult(old(Model), kind, t, stored) && closed == if stored then {} else {t}
      // A terminal in use, or one that is shared, always finds the pool it came from.
      ensures t in InUse(old(Model)) ==> r == Done(())
      ensures t in AllItems(old(Model)) && kind == Unshare ==> r == Done(())
      ensures AllItems(Model) == AllItems(old(Model)) - closed
      ensures InUse(Model) == InUse(old(Model)) - if r.Done? && !(stored && kind == Unshare) then {t} else {}
      ensures Steps(State(old(Model), maxsize), Putting(kind, t, stored), State(Model, maxsize))
    {
      hide AllFit, AllItems, InUse, Fits;
      closed := {};
      InUseAtHome(Model, t);
      if t.key !in pools {
        PutNothing(Model, t);
        return Raised(PoolNotFound), closed;
      }
      FitsAt(Model, t.key);
      PutFits(Model, kind, t, stored);
      r := PutInto(pools[t.key], kind, t, stored);
      if !stored {
        closed := {t};
      }
      Update(t.key);
    }

    /** The operation on the pool. */
    method PutInto(pool: Pool, kind: PutKind, t: Terminal, stored: bool) returns (r: Reply<()>)
      requires pool.Valid()
      modifies pool
      ensures pool.Valid() && (r, pool.Abs()) == PutInPool(old(pool.Abs()), kind, t, stored)
    {
      hide Fits;
      if !stored {
        pool.Remove(t);
        r := Done(());
      } else if kind == Unshare {
        pool.DecrShared(t);
        r := Done(());
      } else if kind == PutShared {
        r := pool.PutIncrShared(t);
      } else {
        r := pool.Put(t);
      }
    }

    /** remove: closes a terminal of any state, if its pool is there. */
    method Remove(t: Terminal) returns (closed: set<Terminal>)
      requires Valid()
      modifies this`Model, Pools()
      ensures Valid() && closed == if t.key in old(Model) then {t} else {}
      ensures AllItems(Model) == AllItems(old(Model)) - {t} && InUse(Model) == InUse(old(Model)) - {t}
      ensures Steps(State(old(Model), maxsize), Removing(t), State(Model, maxsize))
      ensures Model == if t.key in old(Model) then old(Model)[t.key := Without(old(Model)[t.key], t)] else old(Model)
    {
      hide AllFit, AllItems, InUse, Fits;
      closed := {};
      InUseAtHome(Model, t);
      if t.key in pools {
        FitsAt(Model, t.key);
        PutFits(Model, PutUnshared, t, false);
        pools[t.key].Remove(t);
        closed := {t};
        Update(t.key);
      } else {
        PutNothing(Model, t);
      }
    }

    /** close: everything, whether in use or not. */
    method Close() returns (closed: set<Terminal>)
      requires Valid()
      modifies this`pools, this`Model, Pools()
      ensures Valid() && Model == map[] && closed == AllItems(old(Model))
      ensures Steps(State(old(Model), maxsize), Closing, State(Model, maxsize))
    {
      hide AllFit, Fits, AllItems, Items, ClosedSoFar;
      StartClosing(Model);
      closed := {};
      var todo := pools.Keys;
      while todo != {}
        invariant todo <= pools.Keys && pools == old(pools) && Model == old(Model)
        invariant forall k :: k in pools ==> pools[k].key == k && (k in todo ==> pools[k].Abs() == Model[k])
        invariant ClosedSoFar(Model, todo, closed)
      {
        ghost var some := SomeMember(todo);
        var k :| k in todo;
        var more := pools[k].Close();
        CloseNext(Model, todo, closed, k);
        closed := closed + more;
        todo := todo - {k};
      }
      AllClosed(Model, closed);
      pools, Model := map[], map[];
      NoPools();
    }
  }

  ghost predicate ClosedSoFar(m: Vals, todo: set<Key>, closed: set<Terminal>) {
    closed <= AllItems(m) && forall k :: k in m && k !in todo ==> Items(m[k]) <= closed
  }

  lemma StartClosing(m: Vals)
    ensures ClosedSoFar(m, m.Keys, {})
  {
  }

  lemma CloseNext(m: Vals, todo: set<Key>, closed: set<Terminal>, k: Key)
    requires ClosedSoFar(m, todo, closed) && k in m
    ensures ClosedSoFar(m, todo - {k}, closed + Items(m[k]))
  {
    PoolItems(m, k);
  }

  lemma AllClosed(m: Vals, closed: set<Terminal>)
    requires ClosedSoFar(m, {}, closed)
    ensures closed == AllItems(m)
  {
  }

  /** What a pool may answer to a request for a terminal. */
  ghost predicate Given(v: Val, k: Key, r: Reply<Terminal>) {
    (r == Raised(TerminalPoolsBusy) <==> v.free == {} && |v.inuse| >= v.maxsize) &&
    if r.Done? then r.value.key == k && r.value !in v.inuse && (v.free != {} ==> r.value in v.free)
    else v.free == {}
  }

  function PutInPool(v: Val, kind: PutKind, t: Terminal, stored: bool): (Reply<()>, Val) {
    if !stored then (Done(()), Without(v, t))
    else if kind == Unshare then (Done(()), AddShare(v, t, -1))
    else if t !in v.inuse then (Raised(NotInUse), v)
    else (Done(()), if kind == PutShared then AddShare(PutFree(v, t), t, 1) else PutFree(v, t))
  }

  function PutResult(m: Vals, kind: PutKind, t: Terminal, stored: bool): (Reply<()>, Vals)
    requires t.key in m
  {
    var (r, w) := PutInPool(m[t.key], kind, t, stored);
    (r, m[t.key := w])
  }

  lemma PutFits(m: Vals, kind: PutKind, t: Terminal, stored: bool)
    requires AllFit(m) && t.key in m
    ensures var (r, w) := PutInPool(m[t.key], kind, t, stored); var o := m[t.key := w];
            Fits(w, t.key) && AllItems(o) == AllItems(m) - (if stored then {} else {t}) &&
            InUse(o) == InUse(m) - if r.Done? && !(stored && kind == Unshare) then {t} else {}
  {
    hide AllFit, AllItems, InUse;
    FitsAt(m, t.key);
    var (r, w) := PutInPool(m[t.key], kind, t, stored);
    PutPool(m[t.key], t.key, kind, t, stored);
    PoolChanged(m, t.key, w);
    InUseAtHome(m, t);
    PoolItems(m, t.key);
  }

  lemma PutPool(v: Val, k: Key, kind: PutKind, t: Terminal, stored: bool)
    requires Fits(v, k)
    ensures var (r, w) := PutInPool(v, kind, t, stored);
            Fits(w, k) && Items(w) == Items(v) - (if stored then {} else {t}) &&
            w.inuse == v.inuse - if r.Done? && !(stored && kind == Unshare) then {t} else {}
  {
    assert t in v.inuse ==> t in Items(v);
  }

  lemma PutNothing(m: Vals, t: Terminal)
    requires AllFit(m) && t.key !in m
    ensures t !in AllItems(m) && t !in InUse(m)
    ensures AllItems(m) == AllItems(m) - {t} && InUse(m) == InUse(m) - {t}
  {
    hide AllFit, AllItems, InUse;
    InUseAtHome(m, t);
  }

  lemma NoPools()
    ensures AllFit(map[]) && AllItems(map[]) == {} && InUse(map[]) == {}
  {
  }

  lemma NoItems(m: Vals)
    ensures m - m.Keys == map[] && AllItems(m - m.Keys) == {}
  {
  }

  lemma FitsAt(m: Vals, k: Key)
    requires AllFit(m) && k in m
    ensures Fits(m[k], k)
  {
  }

  /** The pool k has nothing to give: nothing free, and no room under its own or under the common limit. */
  ghost predicate Refused(m: Vals, k: Key, limit: int)
    requires k in m
  {
    m[k].free == {} && (|m[k].inuse| >= m[k].maxsize || (|AllItems(m)| >= limit && Spare(m) == {}))
  }

  /** From m to o the terminals in closed went, which were free and not shared, and those in got
      came into use; and if the limit was kept, it still is. */
  ghost predicate Balanced(m: Vals, o: Vals, closed: set<Terminal>, got: set<Terminal>, limit: int) {
    closed <= Spare(m) && AllItems(o) == AllItems(m) - closed + got && InUse(o) == InUse(m) + got &&
    (|AllItems(m)| <= limit ==> |AllItems(o)| <= limit)
  }

  /** Nothing is free for the target, the limit is reached, and nothing can be evicted. */
  ghost predicate NothingToGive(m: Vals, k: Key, limit: int)
    requires k in m
  {
    m[k].free == {} && |AllItems(m)| >= limit && Spare(m) == {}
  }

  /** What half of the free terminals of a pool come to, or fewer when fewer are not shared. */
  function Half(v: Val): nat { Min(|v.free| / 2, |Unshared(v)|) }

  ghost predicate NoneHalved(m: Vals) { forall k :: k in m ==> Half(m[k]) == 0 }

  /** Every pool but those of todo has lost its half. */
  ghost predicate HalvedBut(m: Vals, n: Vals, todo: set<Key>) {
    n.Keys == m.Keys &&
    forall k :: k in m ==> if k in todo then n[k] == m[k] else |n[k].free| == |m[k].free| - Half(m[k])
  }

  /** Every pool has lost half of its free terminals, or what of them is not shared; and no pool went. */
  ghost predicate Halved(m: Vals, n: Vals) { HalvedBut(m, n, {}) }

  /** The pool k has lost every free terminal that is not shared, and is there unless it had no other terminal. */
  ghost predicate Emptied(m: Vals, n: Vals, k: Key, closed: set<Terminal>) {
    k in m && closed == Unshared(m[k]) && closed != {} && (k in n <==> closed != Items(m[k])) &&
    n == if k in n then m[k := n[k]] else m - {k}
  }

  /** What closed tells about the pools: a half of each; and only where that is nothing in any pool, all of one. */
  ghost predicate Room(m: Vals, n: Vals, closed: set<Terminal>) {
    if NoneHalved(m) then exists k :: Emptied(m, n, k, closed) else Halved(m, n)
  }

  lemma EvictedSize(v: Val, w: Val, closed: set<Terminal>)
    requires Evicted(v, w, closed) && closed <= Unshared(v)
    ensures |w.free| == |v.free| - |closed|
  {
    assert v.free == w.free + closed;
  }

  lemma EvictedItems(m: Vals, k: Key, w: Val, closed: set<Terminal>)
    requires AllFit(m) && k in m && Evicted(m[k], w, closed) && closed == Unshared(m[k])
    ensures Items(w) == {} <==> closed == Items(m[k])
    ensures |w.inuse| + |w.free| == 0 <==> Items(w) == {}
  {
    var v := m[k];
    SpareIsFree(v);
    FitsAt(m, k);
    assert w.inuse == {} && w.free == {} ==> Items(v) == closed;
    if closed == Items(v) {
      assert v.inuse <= closed;
      assert w.inuse == {} && w.free == {};
    }
  }

  lemma EmptiedPool(m: Vals, k: Key, w: Val, closed: set<Terminal>)
    requires k in m && closed == Unshared(m[k]) && closed != {}
    ensures closed != Items(m[k]) ==> Emptied(m, m[k := w], k, closed)
    ensures closed == Items(m[k]) ==> Emptied(m, m[k := w] - {k}, k, closed)
  {
    assert m[k := w] - {k} == m - {k};
  }

  lemma NoneYet(m: Vals)
    ensures HalvedBut(m, m, m.Keys)
  {
  }

  lemma HalvedNext(m: Vals, n: Vals, o: Vals, todo: set<Key>, k: Key)
    requires k in m && k in todo && HalvedBut(m, n, todo) && k in o && o == n[k := o[k]]
    requires |o[k].free| == |n[k].free| - Min(|n[k].free| / 2, |Unshared(n[k])|)
    ensures HalvedBut(m, o, todo - {k})
  {
  }

  lemma AllHalved(m: Vals, n: Vals)
    requires HalvedBut(m, n, {})
    ensures Halved(m, n)
  {
  }

  lemma EmptiedSome(m: Vals, n: Vals, k: Key, closed: set<Terminal>)
    requires Emptied(m, n, k, closed)
    ensures closed != {} && k in m && |Unshared(m[k])| > 0
  {
  }

  lemma ClosedShrinks(m: Vals, n: Vals, closed: set<Terminal>) returns (k: Key)
    requires Cleaned(m, n, closed) && n.Keys == m.Keys && closed != {}
    ensures k in m && |n[k].free| < |m[k].free|
  {
    var t := SomeMember(closed);
    k :| k in m && t in Unshared(m[k]);
    assert Evicted(m[k], n[k], closed);
    SmallerSet(n[k].free, m[k].free, t);
  }

  lemma SmallerSet(a: set<Terminal>, b: set<Terminal>, t: Terminal)
    requires a <= b && t in b && t !in a
    ensures |a| < |b|
  {
    Subset(a, b - {t});
  }

  lemma NoneClosed(m: Vals, n: Vals, closed: set<Terminal>)
    requires Cleaned(m, n, closed) && Halved(m, n) && (closed == {} ==> n == m)
    ensures closed == {} <==> NoneHalved(m)
  {
    hide Cleaned, Half;
    if closed != {} {
      var k := ClosedShrinks(m, n, closed);
    }
  }

  /** Something is evicted exactly when nothing is free for the target and the limit is reached. */
  ghost predicate MakesRoom(m: Vals, c: Vals, k: Key, limit: int, closed: set<Terminal>)
    requires k in m
  {
    if m[k].free == {} && |AllItems(m)| >= limit then Cleaned(m, c, closed) && closed != {} && Room(m, c, closed)
    else c == m && closed == {}
  }

  // ---------- the operations on values ----------

  datatype State = State(m: Vals, limit: int)

  /** Getting: with the pools after the limit of the target was set and after room
      was made, and what either closed. */
  datatype Op =
    | Getting(k: Key, n: int, r: Reply<Terminal>, sized: Vals, cleaned: Vals, some: set<Terminal>, more: set<Terminal>)
    | Putting(kind: PutKind, t: Terminal, stored: bool)
    | Removing(t: Terminal)
    | Closing
    | Limiting(limit: int)

  ghost predicate Gets(x: State, op: Op, o: Vals)
    requires op.Getting?
  {
    var Getting(k, n, r, sized, cleaned, some, more) := op;
    if TooLow(PoolOf(x.m, k), n) then r == Raised(TerminalPoolsBusy) && o == Opened(x.m, k)
    else
      Resized(x.m, sized, k, n, some) && k in sized &&
      if NothingToGive(sized, k, x.limit) then r == Raised(TerminalPoolsBusy) && o == sized
      else
        MakesRoom(sized, cleaned, k, x.limit, more) && k in cleaned && Given(cleaned[k], k, r) &&
        o == if r.Done? then cleaned[k := Take(cleaned[k], r.value)] else cleaned
  }

  /** The limit may be any, as long as it is not below what there is. */
  ghost predicate Steps(x: State, op: Op, y: State) {
    match op
    case Getting(_, _, _, _, _, _, _) => Gets(x, op, y.m) && y.limit == x.limit
    case Putting(kind, t, stored) =>
      y == if t.key in x.m then x.(m := PutResult(x.m, kind, t, stored).1) else x
    case Removing(t) => y == if t.key in x.m then x.(m := x.m[t.key := Without(x.m[t.key], t)]) else x
    case Closing => y == x.(m := map[])
    case Limiting(limit) => |AllItems(x.m)| <= limit && y == x.(limit := limit)
  }

  /** What a get closes. */
  ghost function Closed(x: State, op: Op): set<Terminal>
    requires op.Getting?
  {
    if TooLow(PoolOf(x.m, op.k), op.n) then {}
    else if op.k in op.sized && NothingToGive(op.sized, op.k, x.limit) then op.some
    else op.some + op.more
  }

  lemma NothingHappened(m: Vals, o: Vals, limit: int)
    requires AllItems(o) == AllItems(m) && InUse(o) == InUse(m)
    ensures Balanced(m, o, {}, {}, limit)
  {
    hide AllItems, InUse, Spare;
  }

  lemma BalancedOn(m: Vals, s: Vals, o: Vals, some: set<Terminal>, more: set<Terminal>, got: set<Terminal>, limit: int)
    requires some <= Spare(m) && Spare(s) == Spare(m) - some
    requires AllItems(s) == AllItems(m) - some && InUse(s) == InUse(m)
    requires |AllItems(s)| <= |AllItems(m)| && Balanced(s, o, more, got, limit)
    ensures Balanced(m, o, some + more, got, limit)
  {
    hide AllItems, InUse, Spare;
  }

  /** Room was made in m, if there had to be, and c gave got. */
  lemma Settled(m: Vals, c: Vals, o: Vals, k: Key, closed: set<Terminal>, got: set<Terminal>, limit: int)
    requires k in c && closed <= Spare(m) && AllItems(c) == AllItems(m) - closed && InUse(c) == InUse(m)
    requires |AllItems(c)| <= |AllItems(m)| && AllItems(o) == AllItems(c) + got && InUse(o) == InUse(c) + got
    requires |got| <= 1 && (got != {} && c[k].free != {} ==> got <= AllItems(c))
    requires c[k].free == {} ==> |AllItems(c)| < limit || |AllItems(c)| < |AllItems(m)|
    ensures Balanced(m, o, closed, got, limit)
  {
    hide AllItems, InUse, Spare;
    SizeOfSum(AllItems(c), got);
  }

  lemma SizeOfSum(a: set<Terminal>, b: set<Terminal>)
    ensures |a + b| <= |a| + |b| && (b <= a ==> a + b == a)
  {
    assert a + b == a + (b - a);
    Subset(b - a, b);
  }

  /** From m to s the pool of k got limit n, and lost what closed holds of its free terminals. */
  ghost predicate Resized(m: Vals, s: Vals, k: Key, n: int, closed: set<Terminal>) {
    k in s && s == Sized(m, k, n)[k := s[k]] && Cleaned(Sized(m, k, n), s, closed) &&
    s[k].maxsize == n && s[k].inuse == PoolOf(m, k).inuse && |s[k].free| == Min(|PoolOf(m, k).free|, n)
  }

  lemma PoolSized(m: Vals, k: Key, n: int, w: Val, closed: set<Terminal>)
    requires AllFit(Sized(m, k, n)) && Evicted(PoolOf(m, k), w, closed) && w.maxsize == n
    requires closed <= Unshared(PoolOf(m, k)) && |w.free| == Min(|PoolOf(m, k).free|, n)
    ensures Resized(m, Opened(m, k)[k := w], k, n, closed)
  {
    hide AllFit, Cleaned;
    var s := Sized(m, k, n);
    assert Unshared(s[k]) == Unshared(PoolOf(m, k));
    PoolCleaned(s, k, w, closed);
    assert s[k := w] == m[k := w] == Opened(m, k)[k := w];
  }

  lemma NothingTwice(m: Vals, n: Vals, o: Vals, closed: set<Terminal>, more: set<Terminal>)
    requires AllFit(m) && Cleaned(m, n, closed) && Cleaned(n, o, more)
    ensures Cleaned(m, o, closed + more) && |closed + more| == |closed| + |more|
  {
    CleanedOn(m, n, o, closed, more);
    SpareLeft(m, n, closed);
    assert closed !! more;
  }

  lemma FreeSpare(m: Vals, k: Key)
    requires k in m
    ensures |Unshared(m[k])| <= |m[k].free|
    ensures Unshared(m[k]) != {} ==> Spare(m) != {}
  {
    Subset(Unshared(m[k]), m[k].free);
    if Unshared(m[k]) != {} {
      var t := SomeMember(Unshared(m[k]));
      assert t in Spare(m);
    }
  }

  lemma NoSpare(m: Vals)
    requires forall k :: k in m ==> Unshared(m[k]) == {}
    ensures Spare(m) == {}
  {
  }

  lemma ClosedSpare(m: Vals, n: Vals, closed: set<Terminal>)
    requires Cleaned(m, n, closed)
    ensures closed <= Spare(m) && (closed != {} ==> Spare(m) != {})
  {
  }

  /** A pool with nothing free is left as it is. */
  lemma EmptyStays(m: Vals, n: Vals, k: Key, closed: set<Terminal>)
    requires Cleaned(m, n, closed) && k in m && m[k].free == {}
    ensures k in n && n[k].inuse == m[k].inuse && n[k].free == {} && n[k].maxsize == m[k].maxsize
  {
    assert k in n ==> Evicted(m[k], n[k], closed);
  }

  lemma GotPool(m: Vals, s: Vals, k: Key, n: int, closed: set<Terminal>)
    requires AllFit(m) && Resized(m, s, k, n, closed)
    ensures closed <= Spare(m) && AllItems(s) == AllItems(m) - closed && InUse(s) == InUse(m) && AllFit(s)
    ensures |AllItems(s)| <= |AllItems(m)| && Spare(s) == Spare(m) - closed
    ensures k in s && s[k].maxsize == n && s[k].inuse == PoolOf(m, k).inuse
  {
    hide AllFit, AllItems, InUse, Spare, Cleaned;
    SizedSame(m, k, n);
    AfterCleaning(Sized(m, k, n), s, closed);
  }

  lemma AfterCleaning(m: Vals, n: Vals, closed: set<Terminal>)
    requires AllFit(m) && Cleaned(m, n, closed)
    ensures closed <= Spare(m) && AllItems(n) == AllItems(m) - closed && InUse(n) == InUse(m) && AllFit(n)
    ensures |AllItems(n)| <= |AllItems(m)| && Spare(n) == Spare(m) - closed
  {
    hide AllFit, AllItems, InUse, Spare, Cleaned;
    ClosedSpare(m, n, closed);
    CleanedItems(m, n, closed);
    CleanedInUse(m, n, closed);
    CleanedFits(m, n, closed);
    SpareLeft(m, n, closed);
  }

  lemma Taken(m: Vals, k: Key, t: Terminal)
    requires AllFit(m) && k in m && t.key == k && t !in m[k].inuse
    ensures var n := m[k := Take(m[k], t)];
            AllFit(n) && AllItems(n) == AllItems(m) + {t} && InUse(n) == InUse(m) + {t} && t !in InUse(m)
    ensures m[k].free != {} && t in m[k].free ==> t in AllItems(m)
  {
    hide AllFit, AllItems, InUse;
    FitsAt(m, k);
    TakeFits(m[k], k, t);
    PoolChanged(m, k, Take(m[k], t));
    InUseAtHome(m, t);
    PoolItems(m, k);
  }

  lemma PoolItems(m: Vals, k: Key)
    requires k in m
    ensures Items(m[k]) <= AllItems(m) && m[k].inuse <= InUse(m)
  {
  }

  // ---------- runs ----------

  ghost predicate Fine(x: State) { AllFit(x.m) && |AllItems(x.m)| <= x.limit }

  /** The terminals in use after op, when us were in use before. */
  function Holding(us: set<Terminal>, op: Op): set<Terminal> {
    match op
    case Getting(_, _, r, _, _, _, _) => if r.Done? then us + {r.value} else us
    case Putting(kind, t, stored) => if stored && kind == Unshare then us else us - {t}
    case Removing(t) => us - {t}
    case Closing => {}
    case Limiting(_) => us
  }

  lemma InPool(m: Vals, s: Vals, k: Key, n: int, closed: set<Terminal>)
    requires Resized(m, s, k, n, closed)
    ensures k in s
  {
  }

  /** A get that was not refused by the limit of its target is refused exactly when the pool has nothing to give. */
  lemma GetRefused(m: Vals, c: Vals, k: Key, limit: int, r: Reply<Terminal>, closed: set<Terminal>)
    requires k in m && k in c
    requires if NothingToGive(m, k, limit) then r == Raised(TerminalPoolsBusy)
             else MakesRoom(m, c, k, limit, closed) && Given(c[k], k, r)
    ensures r == Raised(TerminalPoolsBusy) <==> Refused(m, k, limit)
  {
    hide Cleaned, AllItems;
    if !NothingToGive(m, k, limit) && m[k].free == {} && |AllItems(m)| >= limit {
      EmptyStays(m, c, k, closed);
    }
  }

  lemma GetKeeps(x: State, op: Op, o: Vals)
    requires op.Getting? && AllFit(x.m) && Gets(x, op, o)
    ensures AllFit(o) && Balanced(x.m, o, Closed(x, op), if op.r.Done? then {op.r.value} else {}, x.limit)
  {
    hide Resized, Cleaned, Spare, AllFit, AllItems, InUse, TooLow, Balanced, MakesRoom, NothingToGive, Given;
    var Getting(k, n, r, sized, cleaned, some, more) := op;
    if TooLow(PoolOf(x.m, k), n) {
      OpenedSame(x.m, k);
      NothingHappened(x.m, o, x.limit);
    } else {
      GotPool(x.m, sized, k, n, some);
      if NothingToGive(sized, k, x.limit) {
        NothingHappened(sized, sized, x.limit);
        BalancedOn(x.m, sized, sized, some, {}, {}, x.limit);
        assert some + {} == some;
      } else {
        GiveKeeps(sized, cleaned, o, k, r, more, x.limit);
        BalancedOn(x.m, sized, o, some, more, if r.Done? then {r.value} else {}, x.limit);
      }
    }
  }

  lemma GiveKeeps(m: Vals, c: Vals, o: Vals, k: Key, r: Reply<Terminal>, closed: set<Terminal>, limit: int)
    requires AllFit(m) && k in m && k in c && MakesRoom(m, c, k, limit, closed) && Given(c[k], k, r)
    requires o == if r.Done? then c[k := Take(c[k], r.value)] else c
    ensures AllFit(o) && Balanced(m, o, closed, if r.Done? then {r.value} else {}, limit)
  {
    hide Cleaned, Spare, AllFit, AllItems, InUse, Take;
    var got := if r.Done? then {r.value} else {};
    NothingCleaned(m);
    AfterCleaning(m, c, closed);
    CleanedItems(m, c, closed);
    if m[k].free == {} {
      EmptyStays(m, c, k, closed);
    }
    if r.Done? {
      Taken(c, k, r.value);
    } else {
      assert AllItems(c) == AllItems(c) + {} && InUse(c) == InUse(c) + {};
    }
    Settled(m, c, o, k, closed, got, limit);
  }

  lemma PutKeeps(x: State, op: Op, y: State)
    requires Fine(x) && Steps(x, op, y) && (op.Putting? || op.Removing?)
    ensures Fine(y) && InUse(y.m) == Holding(InUse(x.m), op)
  {
    hide AllFit, AllItems, InUse;
    InUseAtHome(x.m, op.t);
    if op.t.key in x.m {
      PutFits(x.m, if op.Putting? then op.kind else PutUnshared, op.t, op.Putting? && op.stored);
      PutOthersFit(x.m, op.t.key, y.m);
      Subset(AllItems(y.m), AllItems(x.m));
    } else {
      PutNothing(x.m, op.t);
    }
  }

  lemma PutOthersFit(m: Vals, k: Key, o: Vals)
    requires AllFit(m) && k in m && k in o && Fits(o[k], k) && o == m[k := o[k]]
    ensures AllFit(o)
  {
  }

  lemma StepKeeps(x: State, op: Op, y: State)
    requires Fine(x) && Steps(x, op, y)
    ensures Fine(y) && InUse(y.m) == Holding(InUse(x.m), op)
  {
    hide AllFit, AllItems, InUse, Gets;
    match op
    case Getting(_, _, _, _, _, _, _) => GetKeeps(x, op, y.m);
    case Putting(_, _, _) => PutKeeps(x, op, y);
    case Removing(_) => PutKeeps(x, op, y);
    case Closing => NoPools();
    case Limiting(_) =>
  }

  // ---------- shares ----------

  function CountIn(m: Vals, t: Terminal): int { Count(PoolOf(m, t.key), t) }

  /** What op does to the shares of t: one more when it is put back as shared, one less when it is unshared. */
  ghost function ShareChange(x: State, op: Op, t: Terminal): int {
    match op
    case Putting(kind, u, stored) =>
      if u != t || !stored then 0
      else if kind == Unshare then -1
      else if kind == PutShared && t in InUse(x.m) then 1
      else 0
    case _ => 0
  }

  lemma EvictedCounts(m: Vals, n: Vals, closed: set<Terminal>, t: Terminal)
    requires AllFit(m) && AllFit(n) && Cleaned(m, n, closed) && t in AllItems(n)
    ensures CountIn(n, t) == CountIn(m, t)
  {
    InUseAtHome(n, t);
    assert Evicted(m[t.key], n[t.key], closed);
  }

  /** No step but these changes the shares of a terminal that stays. */
  lemma SharesOfStep(x: State, op: Op, y: State, t: Terminal)
    requires StaysOver(x, op, y, t)
    ensures CountIn(y.m, t) == CountIn(x.m, t) + ShareChange(x, op, t)
  {
    hide AllFit, AllItems, InUse, Gets, Closed;
    match op
    case Getting(_, _, _, _, _, _, _) => SharesOfGet(x, op, y.m, t);
    case Putting(_, u, _) =>
      InUseAtHome(x.m, t);
      InUseAtHome(y.m, t);
    case Removing(u) =>
      InUseAtHome(x.m, t);
      InUseAtHome(y.m, t);
    case Closing => NoPools();
    case Limiting(_) =>
  }

  lemma SharesOfGet(x: State, op: Op, o: Vals, t: Terminal)
    requires op.Getting? && AllFit(x.m) && AllFit(o) && Gets(x, op, o) && t in AllItems(x.m) && t !in Closed(x, op)
    ensures CountIn(o, t) == CountIn(x.m, t)
  {
    hide AllFit, AllItems, InUse, Cleaned, Spare, Resized, TooLow, MakesRoom, NothingToGive, Given;
    var Getting(k, n, r, sized, cleaned, some, more) := op;
    if !TooLow(PoolOf(x.m, k), n) {
      GotPool(x.m, sized, k, n, some);
      SharesOfResizing(x.m, sized, k, n, some, t);
      if !NothingToGive(sized, k, x.limit) {
        SharesOfMakingRoom(sized, cleaned, k, x.limit, more, t);
      }
    }
  }

  lemma SharesOfMakingRoom(m: Vals, c: Vals, k: Key, limit: int, closed: set<Terminal>, t: Terminal)
    requires AllFit(m) && k in m && MakesRoom(m, c, k, limit, closed) && t in AllItems(m) && t !in closed
    ensures CountIn(c, t) == CountIn(m, t)
  {
    hide AllFit, AllItems, Cleaned;
    if c != m {
      AfterCleaning(m, c, closed);
      EvictedCounts(m, c, closed, t);
    }
  }

  lemma SharesOfResizing(m: Vals, s: Vals, k: Key, n: int, closed: set<Terminal>, t: Terminal)
    requires AllFit(m) && AllFit(s) && Resized(m, s, k, n, closed) && t in AllItems(s)
    ensures CountIn(s, t) == CountIn(m, t)
  {
    hide AllFit, AllItems, Cleaned;
    SizedSame(m, k, n);
    EvictedCounts(Sized(m, k, n), s, closed, t);
  }

  /** The terminal is there before and after the step, and no get closes it. */
  ghost predicate StaysOver(x: State, op: Op, y: State, t: Terminal) {
    AllFit(x.m) && AllFit(y.m) && Steps(x, op, y) && t in AllItems(x.m) && t in AllItems(y.m) &&
    (op.Getting? ==> t !in Closed(x, op))
  }

  ghost predicate Stays(xs: seq<State>, ops: seq<Op>, i: nat, t: Terminal) {
    |xs| == |ops| + 1 && i <= |ops| && forall j :: i <= j < |ops| ==> StaysOver(xs[j], ops[j], xs[j + 1], t)
  }

  /** The shares that came, less those that went, from the i-th state on. */
  ghost function SharesSince(xs: seq<State>, ops: seq<Op>, i: nat, t: Terminal): int
    requires |xs| == |ops| + 1 && i <= |ops|
    decreases |ops| - i
  {
    if i == |ops| then 0 else ShareChange(xs[i], ops[i], t) + SharesSince(xs, ops, i + 1, t)
  }

  /** Over every run: a free terminal that was there without a share may be evicted exactly
      when it has since been unshared as often as it was put back as shared. */
  lemma {:induction false} SharedOverRun(xs: seq<State>, ops: seq<Op>, i: nat, t: Terminal)
    requires Stays(xs, ops, i, t)
    ensures CountIn(xs[|ops|].m, t) == CountIn(xs[i].m, t) + SharesSince(xs, ops, i, t)
    ensures i < |ops| && CountIn(xs[i].m, t) == 0 ==>
              (t in Spare(xs[|ops|].m) <==> t !in InUse(xs[|ops|].m) && SharesSince(xs, ops, i, t) == 0)
    decreases |ops| - i
  {
    hide AllFit, AllItems, InUse, Steps, Spare, Closed, ShareChange;
    if i < |ops| {
      SharesOfStep(xs[i], ops[i], xs[i + 1], t);
      SharedOverRun(xs, ops, i + 1, t);
      var n := |ops| - 1;
      assert StaysOver(xs[n], ops[n], xs[n + 1], t);
      SpareExactlyWhen(xs[n + 1].m, t);
    }
  }

  lemma SpareExactlyWhen(m: Vals, t: Terminal)
    requires AllFit(m) && t in AllItems(m)
    ensures t in Spare(m) <==> t !in InUse(m) && CountIn(m, t) == 0
  {
    InUseAtHome(m, t);
    if t in Spare(m) {
      var k := SpareItem(m, t);
      assert k == t.key;
    } else {
      assert t !in Unshared(m[t.key]);
    }
  }

  ghost predicate IsRun(xs: seq<State>, ops: seq<Op>) {
    |xs| == |ops| + 1 && xs[0].m == map[] && xs[0].limit >= 0 &&
    forall i :: 0 <= i < |ops| ==> Steps(xs[i], ops[i], xs[i + 1])
  }

  /** The terminals that were given and have not come back. */
  function Outstanding(ops: seq<Op>): set<Terminal> {
    if ops == [] then {} else Holding(Outstanding(ops[..|ops| - 1]), ops[|ops| - 1])
  }

  /** Over every run of the operations, the limit changing on the way but never below what there is: the limit is
      kept, the terminals in use are exactly the outstanding ones, and each of them is in use in
      the pool of its own target, where it can be put back. */
  lemma {:induction false} RunIsSafe(xs: seq<State>, ops: seq<Op>)
    requires IsRun(xs, ops)
    ensures var last := xs[|ops|];
            Fine(last) && InUse(last.m) == Outstanding(ops) &&
            forall t :: t in Outstanding(ops) ==> t.key in last.m && t in last.m[t.key].inuse
    decreases |ops|
  {
    hide AllFit, AllItems, InUse, Steps;
    var last, n := xs[|ops|], |ops| - 1;
    if ops == [] {
      NoPools();
    } else {
      RunIsSafe(xs[..n + 1], ops[..n]);
      assert Steps(xs[n], ops[n], last);
      StepKeeps(xs[n], ops[n], last);
    }
    forall t | t in InUse(last.m)
      ensures t.key in last.m && t in last.m[t.key].inuse
    {
      InUseAtHome(last.m, t);
    }
  }
}
