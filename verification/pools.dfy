/** Pools of terminals as they run: one pool for every target, one limit for all. */
module Pools {
  import opened Bytes
  import opened PoolSpec

  datatype Fault =
    | TerminalPoolsBusy
    | PoolNotFound
    | NotInUse       // a KeyError: what is put back is not in use
    | CreationFailed // the factory raised

  datatype Reply<+T> = Done(value: T) | Raised(fault: Fault)

  class Pool {
    const key: Key // the target of the factory
    var maxsize: int
    var inuse: set<Terminal>
    var free: set<Terminal>
    var shared: map<Terminal, int>

    ghost predicate Valid()
      reads this
    {
      Fits(Abs(), key)
    }

    function Abs(): Val
      reads this
    {
      Val(free, inuse, shared, maxsize)
    }

    constructor (key: Key)
      ensures Valid() && this.key == key && Abs() == EMPTY
    {
      this.key, maxsize, inuse, free, shared := key, 0, {}, {}, map[];
    }

    /** A free terminal if there is one, else a new one as long as fewer than maxsize are in use. */
    method Get() returns (r: Reply<Terminal>)
      requires Valid()
      modifies this
      ensures Valid()
      ensures r.Done? ==>
                r.value.key == key && (if old(free) != {} then r.value in old(free) else fresh(r.value)) &&
                r.value !in old(inuse) && Abs() == Take(old(Abs()), r.value)
      ensures r.Raised? ==> Abs() == old(Abs()) && old(free) == {}
      ensures r == Raised(TerminalPoolsBusy) <==> old(free) == {} && |old(inuse)| >= old(maxsize)
      ensures r.Raised? ==> r.fault == TerminalPoolsBusy || r.fault == CreationFailed
    {
      hide Fits;
      var item;
      if free != {} {
        ghost var some := SomeMember(free);
        item :| item in free;
        FreeItem(Abs(), key, item);
        free := free - {item};
      } else if |inuse| >= maxsize {
        return Raised(TerminalPoolsBusy);
      } else {
        var raises: bool := *;
        if raises {
          return Raised(CreationFailed);
        }
        item := new Terminal(key);
        assert free == {} == free - {item};
      }
      TakeFits(old(Abs()), key, item);
      inuse := inuse + {item};
      r := Done(item);
    }

    method SharedFreeSize() returns (n: nat)
      ensures n == |free - Unshared(Abs())|
    {
      n := 0;
      ghost var all, seen := free - Unshared(Abs()), {};
      var todo := free;
      while todo != {}
        invariant todo <= free && n == |seen| && seen <= all <= seen + todo && seen !! todo
      {
        ghost var some := SomeMember(todo);
        var i :| i in todo;
        todo := todo - {i};
        if Count(Abs(), i) != 0 {
          seen := seen + {i};
          n := n + 1;
        }
      }
      assert seen == all;
    }

    /** Refused when more are in use or shared. Otherwise free terminals go until at most n are
        free: the pool as a whole is then within n exactly when nothing was in use, or all was within n before. */
    method SetMaxsize(n: int) returns (r: Reply<()>, closed: set<Terminal>)
      requires Valid()
      modifies this
      ensures Valid()
      ensures r == (if TooLow(old(Abs()), n) then Raised(TerminalPoolsBusy) else Done(()))
      ensures r.Raised? <==> n < |Items(old(Abs())) - Unshared(old(Abs()))|
      ensures r.Raised? ==> Abs() == old(Abs()) && closed == {}
      ensures r.Done? ==>
                maxsize == n && Evicted(old(Abs()), Abs(), closed) && closed <= Unshared(old(Abs())) &&
                |free| == Min(|old(free)|, n)
      ensures r.Done? ==> (|Items(Abs())| <= n <==> old(inuse) == {} || |Items(old(Abs()))| <= n)
    {
      hide Evicted, Unshared, Items, Fits;
      TooLowExactlyWhen(Abs(), key, n);
      var sharedFree := SharedFreeSize();
      if n < |inuse| + sharedFree {
        return Raised(TerminalPoolsBusy), {};
      }
      var removed;
      removed, closed := RemoveNFree(|free| - n);
      WithinNewSize(old(Abs()), key, Abs(), closed, n);
      maxsize := n;
      r := Done(());
    }

    method Put(item: Terminal) returns (r: Reply<()>)
      requires Valid()
      modifies this
      ensures Valid() && Abs() == if item in old(inuse) then PutFree(old(Abs()), item) else old(Abs())
      ensures r == if item in old(inuse) then Done(()) else Raised(NotInUse)
    {
      if item !in inuse {
        return Raised(NotInUse);
      }
      inuse := inuse - {item};
      free := free + {item};
      r := Done(());
    }

    method PutIncrShared(item: Terminal) returns (r: Reply<()>)
      requires Valid()
      modifies this
      ensures Valid()
      ensures Abs() == if item in old(inuse) then AddShare(PutFree(old(Abs()), item), item, 1) else old(Abs())
      ensures r == if item in old(inuse) then Done(()) else Raised(NotInUse)
    {
      r := Put(item);
      if r.Done? {
        shared := shared[item := Count(Abs(), item) + 1];
      }
    }

    method DecrShared(item: Terminal)
      requires Valid()
      modifies this
      ensures Valid() && Abs() == AddShare(old(Abs()), item, -1)
    {
      shared := shared[item := Count(Abs(), item) - 1];
    }

    /** Closes a terminal and forgets it, whatever its state. */
    method Remove(item: Terminal)
      requires Valid()
      modifies this
      ensures Valid() && Abs() == Without(old(Abs()), item)
    {
      shared := shared[item := 0];
      inuse := inuse - {item};
      free := free - {item};
    }

    /** As many free unshared terminals as there are, but at most n. */
    method RemoveNFree(n: int) returns (removed: nat, closed: set<Terminal>)
      requires Valid()
      modifies this
      ensures Valid() && maxsize == old(maxsize) && Evicted(old(Abs()), Abs(), closed)
      ensures closed <= Unshared(old(Abs())) && removed == |closed| == Min(Max(0, n), |Unshared(old(Abs()))|)
      ensures closed == {} ==> Abs() == old(Abs())
    {
      hide Evicted, Fits, Unshared;
      removed, closed := 0, {};
      NothingEvicted(Abs());
      SpareIsFree(Abs());
      ghost var spare := Unshared(Abs());
      var todo := free;
      while todo != {} && removed < n
        invariant Valid() && maxsize == old(maxsize) && Evicted(old(Abs()), Abs(), closed)
        invariant closed <= spare && removed == |closed| <= Max(0, n)
        invariant todo <= free && spare <= closed + todo
        invariant closed == {} ==> Abs() == old(Abs())
      {
        ghost var some := SomeMember(todo);
        var i :| i in todo;
        todo := todo - {i};
        SpareLeftOver(old(Abs()), Abs(), closed, i);
        if Count(Abs(), i) == 0 {
          EvictedOne(old(Abs()), Abs(), key, closed, i);
          Remove(i);
          closed := closed + {i};
          removed := removed + 1;
        }
      }
      Subset(closed, spare);
      if todo == {} {
        assert closed == spare;
      }
    }

    method RemoveEveryNthFree(n: nat) returns (removed: nat, closed: set<Terminal>)
      requires Valid() && n > 0
      modifies this
      ensures Valid() && maxsize == old(maxsize) && Evicted(old(Abs()), Abs(), closed)
      ensures closed <= Unshared(old(Abs())) && removed == |closed| == Min(|old(free)| / n, |Unshared(old(Abs()))|)
      ensures closed == {} ==> Abs() == old(Abs())
    {
      removed, closed := RemoveNFree(|free| / n);
    }

    method Close() returns (closed: set<Terminal>)
      modifies this
      ensures Valid() && closed == Items(old(Abs())) && Abs() == EMPTY.(maxsize := maxsize) && maxsize == old(maxsize)
    {
      closed := inuse + free;
      inuse, free, shared := {}, {}, map[];
    }
  }
}
