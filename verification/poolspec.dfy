/** Pools of terminals as values: what is free, in use and shared in every pool, and what eviction may take. */
module PoolSpec {
  import opened Bytes

  /** The shells and the zone that lead to a target, as text. */
  type Key = string

  class Terminal {
    const key: Key

    constructor (key: Key)
      ensures this.key == key
    {
      this.key := key;
    }
  }

  datatype Val = Val(free: set<Terminal>, inuse: set<Terminal>, shared: map<Terminal, int>, maxsize: int)

  const EMPTY := Val({}, {}, map[], 0)

  /** A counter that was never touched is 0; one that went below 0 counts as shared. */
  function Count(v: Val, t: Terminal): int { if t in v.shared then v.shared[t] else 0 }

  function Unshared(v: Val): set<Terminal> { set t | t in v.free && Count(v, t) == 0 }

  function Items(v: Val): set<Terminal> { v.free + v.inuse }

  /** All terminals of a pool lead to its target, and none is free and in use. */
  ghost predicate Fits(v: Val, k: Key) {
    v.free !! v.inuse && forall t :: t in Items(v) ==> t.key == k
  }

  /** w is v after closing the terminals in closed, of which only free unshared ones are in v. */
  ghost predicate Evicted(v: Val, w: Val, closed: set<Terminal>) {
    w.inuse == v.inuse && w.free == v.free - closed && v.free * closed <= Unshared(v) &&
    forall t :: t in Items(w) ==> Count(w, t) == Count(v, t)
  }

  lemma EvictedOn(v: Val, w: Val, x: Val, closed: set<Terminal>, more: set<Terminal>)
    requires Evicted(v, w, closed) && Evicted(w, x, more)
    ensures Evicted(v, x, closed + more)
  {
    assert forall t :: t in v.free * more && t !in closed ==> t in w.free * more;
  }

  lemma SharedRest(v: Val)
    ensures |v.free| == |Unshared(v)| + |v.free - Unshared(v)|
  {
    assert v.free == Unshared(v) + (v.free - Unshared(v));
  }

  lemma Subset<T>(a: set<T>, b: set<T>)
    requires a <= b
    ensures |a| <= |b| && (|a| == |b| ==> a == b)
  {
    assert b == a + (b - a);
    if |a| == |b| {
      assert b - a == {};
    }
  }

  lemma FreeItem(v: Val, k: Key, t: Terminal)
    requires Fits(v, k) && t in v.free
    ensures t.key == k && t !in v.inuse
  {
    assert t in Items(v);
  }

  lemma TakeFits(v: Val, k: Key, t: Terminal)
    requires Fits(v, k) && t.key == k && t !in v.inuse
    ensures Fits(Take(v, t), k)
  {
  }

  predicate TooLow(v: Val, n: int) { n < |v.inuse| + |v.free - Unshared(v)| }

  function Take(v: Val, t: Terminal): Val { v.(free := v.free - {t}, inuse := v.inuse + {t}) }

  function PutFree(v: Val, t: Terminal): Val { v.(inuse := v.inuse - {t}, free := v.free + {t}) }

  function AddShare(v: Val, t: Terminal, n: int): Val { v.(shared := v.shared[t := Count(v, t) + n]) }

  function Without(v: Val, t: Terminal): Val {
    v.(inuse := v.inuse - {t}, free := v.free - {t}, shared := v.shared[t := 0])
  }

  /** A limit is too low exactly when more terminals are in use or shared than it allows. */
  lemma TooLowExactlyWhen(v: Val, k: Key, n: int)
    requires Fits(v, k)
    ensures TooLow(v, n) <==> n < |Items(v) - Unshared(v)|
  {
    assert Items(v) - Unshared(v) == v.inuse + (v.free - Unshared(v));
  }

  lemma NothingEvicted(v: Val)
    ensures Evicted(v, v, {})
  {
    assert v.free - {} == v.free;
  }

  lemma SpareIsFree(v: Val)
    ensures Unshared(v) <= v.free
  {
  }

  lemma SpareLeftOver(v: Val, w: Val, closed: set<Terminal>, t: Terminal)
    requires Evicted(v, w, closed) && t in w.free
    ensures t in Unshared(v) <==> Count(w, t) == 0
  {
  }

  lemma EvictedOne(v: Val, w: Val, k: Key, closed: set<Terminal>, t: Terminal)
    requires Evicted(v, w, closed) && Fits(w, k) && t in w.free && Count(w, t) == 0
    ensures t in Unshared(v) && t !in closed && Evicted(v, Without(w, t), closed + {t})
  {
    assert w.inuse - {t} == w.inuse;
  }

  /** The pool as a whole is within the new limit exactly when nothing is in use, or all was within it before. */
  lemma WithinNewSize(v: Val, k: Key, w: Val, closed: set<Terminal>, n: int)
    requires Evicted(v, w, closed) && closed <= Unshared(v) && Fits(v, k) && !TooLow(v, n)
    requires |closed| == Min(Max(0, |v.free| - n), |Unshared(v)|)
    ensures Evicted(v, w.(maxsize := n), closed) && Fits(w.(maxsize := n), k)
    ensures |w.free| == Min(|v.free|, n)
    ensures |Items(w.(maxsize := n))| <= n <==> v.inuse == {} || |Items(v)| <= n
  {
    SharedRest(v);
    assert v.free == w.free + closed;
    assert |Items(v)| == |v.free| + |v.inuse| && |Items(w)| == |w.free| + |w.inuse|;
  }

  /** A limit that is not refused, and that the pool nevertheless exceeds: what
      may go is counted from the free terminals alone, so nothing goes here. */
  lemma LimitExceeded(a: Terminal, b: Terminal)
    requires a != b && a.key == b.key
    ensures var v := Val({a}, {b}, map[], 2);
            Fits(v, a.key) && !TooLow(v, 1) && Unshared(v) == {a} && |v.free| - 1 == 0 && |Items(v)| > 1
  {
    var v := Val({a}, {b}, map[], 2);
    assert Unshared(v) == {a};
    assert Items(v) == {a, b};
  }

  // ---------- shares ----------

  /** What happens to one terminal: it is handed out, put back, put back with
      one share more, or a share is taken back. */
  datatype Use = HandedOut | PutBack | PutBackShared | TakenBack

  function After(v: Val, t: Terminal, us: seq<Use>): Val {
    if us == [] then v
    else
      var w := After(v, t, us[..|us| - 1]);
      match us[|us| - 1]
      case HandedOut => Take(w, t)
      case PutBack => PutFree(w, t)
      case PutBackShared => AddShare(PutFree(w, t), t, 1)
      case TakenBack => AddShare(w, t, -1)
  }

  /** Shares that were not taken back. */
  function Shares(us: seq<Use>): nat {
    if us == [] then 0
    else
      var n := Shares(us[..|us| - 1]);
      match us[|us| - 1]
      case PutBackShared => n + 1
      case TakenBack => if n > 0 then n - 1 else 0
      case _ => n
  }

  /** Shares that were taken back though there was none. */
  function Surplus(us: seq<Use>): nat {
    if us == [] then 0
    else
      var front := us[..|us| - 1];
      Surplus(front) + if us[|us| - 1] == TakenBack && Shares(front) == 0 then 1 else 0
  }

  lemma {:induction false} CounterAfter(v: Val, t: Terminal, us: seq<Use>)
    ensures Count(After(v, t, us), t) == Count(v, t) + Shares(us) - Surplus(us)
  {
    if us != [] {
      CounterAfter(v, t, us[..|us| - 1]);
    }
  }

  /** A free terminal that began unshared may be evicted exactly when it was unshared without a share as often as it
      has shares now. One with a share is so kept from eviction if and only if its counter is not 0. */
  lemma EvictableExactlyWhen(v: Val, t: Terminal, us: seq<Use>)
    requires Count(v, t) == 0 && t in After(v, t, us).free
    ensures t in Unshared(After(v, t, us)) <==> Surplus(us) == Shares(us)
    ensures Shares(us) > 0 ==> (t in Unshared(After(v, t, us)) <==> Count(After(v, t, us), t) == 0)
  {
    CounterAfter(v, t, us);
  }

  /** A terminal in use is unshared once too often and then put back as shared: it has a share, and may be evicted. */
  lemma SharedButEvictable(v: Val, t: Terminal)
    requires t in v.inuse && Count(v, t) == 0
    ensures var us := [TakenBack, PutBackShared];
            Shares(us) == 1 && t in Unshared(After(v, t, us))
  {
    var us := [TakenBack, PutBackShared];
    assert us[..1] == [TakenBack] && us[..1][..0] == [];
    assert Shares(us[..1]) == 0 && Surplus(us[..1]) == 1;
    assert t in After(v, t, us).free;
    EvictableExactlyWhen(v, t, us);
  }

  // ---------- all pools ----------

  type Vals = map<Key, Val>

  ghost predicate AllFit(m: Vals) { forall k :: k in m ==> Fits(m[k], k) }

  ghost function AllItems(m: Vals): set<Terminal> { set k, t | k in m && t in Items(m[k]) :: t }

  ghost function InUse(m: Vals): set<Terminal> { set k, t | k in m && t in m[k].inuse :: t }

  /** What eviction may take. */
  ghost function Spare(m: Vals): set<Terminal> { set k, t | k in m && t in Unshared(m[k]) :: t }

  /** n is m after closing closed; pools that lost their last terminal may be gone. */
  ghost predicate Cleaned(m: Vals, n: Vals, closed: set<Terminal>) {
    closed <= Spare(m) && n.Keys <= m.Keys &&
    (forall k :: k in n ==> Evicted(m[k], n[k], closed) && n[k].maxsize == m[k].maxsize) &&
    forall k :: k in m && k !in n ==> m[k].inuse == {} && m[k].free <= closed && m[k].free != {}
  }

  lemma OnePool(m: Vals, j: Key, k: Key, t: Terminal)
    requires AllFit(m) && j in m && k in m && t in Items(m[j]) && t in Items(m[k])
    ensures j == k == t.key
  {
  }

  lemma SpareItem(m: Vals, t: Terminal) returns (k: Key)
    requires AllFit(m) && t in Spare(m)
    ensures k in m && t in Unshared(m[k]) && t in Items(m[k]) && t in AllItems(m)
    ensures forall j :: j in m && j != k ==> t !in Items(m[j])
  {
    k :| k in m && t in Unshared(m[k]);
    forall j | j in m && j != k
      ensures t !in Items(m[j])
    {
      if t in Items(m[j]) {
        OnePool(m, j, k, t);
      }
    }
  }

  lemma CleanedFits(m: Vals, n: Vals, closed: set<Terminal>)
    requires AllFit(m) && Cleaned(m, n, closed)
    ensures AllFit(n)
  {
  }

  /** Eviction takes exactly the closed terminals away, none of which was in use. */
  lemma CleanedItems(m: Vals, n: Vals, closed: set<Terminal>)
    requires AllFit(m) && Cleaned(m, n, closed)
    ensures closed <= AllItems(m) && AllItems(n) == AllItems(m) - closed
    ensures |AllItems(n)| == |AllItems(m)| - |closed|
  {
    forall t | t in closed
      ensures t in AllItems(m) && t !in AllItems(n)
    {
      var k := SpareItem(m, t);
      forall j | j in n
        ensures t !in Items(n[j])
      {
        assert Evicted(m[j], n[j], closed);
      }
    }
    forall t | t in AllItems(m) && t !in closed
      ensures t in AllItems(n)
    {
      var k :| k in m && t in Items(m[k]);
      assert k in n ==> Evicted(m[k], n[k], closed) && t in Items(n[k]);
    }
    forall t | t in AllItems(n)
      ensures t in AllItems(m)
    {
      var k :| k in n && t in Items(n[k]);
      assert Evicted(m[k], n[k], closed) && t in Items(m[k]);
    }
    assert AllItems(n) == AllItems(m) - closed;
  }

  lemma CleanedInUse(m: Vals, n: Vals, closed: set<Terminal>)
    requires Cleaned(m, n, closed)
    ensures InUse(n) == InUse(m)
  {
    forall t | t in InUse(m)
      ensures t in InUse(n)
    {
      var k :| k in m && t in m[k].inuse;
      assert k in n ==> Evicted(m[k], n[k], closed);
    }
    forall t | t in InUse(n)
      ensures t in InUse(m)
    {
      var k :| k in n && t in n[k].inuse;
      assert Evicted(m[k], n[k], closed);
    }
  }

  lemma SpareLeft(m: Vals, n: Vals, closed: set<Terminal>)
    requires AllFit(m) && Cleaned(m, n, closed)
    ensures Spare(n) == Spare(m) - closed
  {
    forall t | t in Spare(m) && t !in closed
      ensures t in Spare(n)
    {
      var k :| k in m && t in Unshared(m[k]);
      assert k in n && t in n[k].free && t in Unshared(n[k]);
    }
    forall t | t in Spare(n)
      ensures t in Spare(m) && t !in closed
    {
      var k :| k in n && t in Unshared(n[k]);
      assert t in Unshared(m[k]);
    }
  }

  lemma CleanedOn(m: Vals, n: Vals, o: Vals, closed: set<Terminal>, more: set<Terminal>)
    requires AllFit(m) && Cleaned(m, n, closed) && Cleaned(n, o, more)
    ensures Cleaned(m, o, closed + more)
  {
    SpareLeft(m, n, closed);
    forall k | k in o
      ensures Evicted(m[k], o[k], closed + more) && o[k].maxsize == m[k].maxsize
    {
      EvictedOn(m[k], n[k], o[k], closed, more);
    }
    forall k | k in m && k !in o
      ensures m[k].inuse == {} && m[k].free <= closed + more && m[k].free != {}
    {
      if k in n {
        assert n[k].free <= m[k].free;
      }
    }
  }

  lemma NothingCleaned(m: Vals)
    ensures Cleaned(m, m, {})
  {
    assert forall k :: k in m ==> m[k].free == m[k].free - {};
  }

  lemma PoolCleaned(m: Vals, k: Key, w: Val, closed: set<Terminal>)
    requires k in m && Evicted(m[k], w, closed) && closed <= Unshared(m[k]) && w.maxsize == m[k].maxsize && AllFit(m)
    ensures Cleaned(m, m[k := w], closed)
  {
    forall j | j in m && j != k
      ensures Evicted(m[j], m[j], closed)
    {
      forall t | t in closed
        ensures t !in m[j].free
      {
        assert t in Items(m[k]);
        if t in m[j].free {
          OnePool(m, j, k, t);
        }
      }
      assert m[j].free - closed == m[j].free;
    }
  }

  /** The pool k has lost its last terminal by what was closed, and goes. */
  lemma PoolGone(m: Vals, k: Key, w: Val, closed: set<Terminal>)
    requires k in m && AllFit(m) && Cleaned(m, m[k := w], closed) && closed != {} && closed <= Unshared(m[k])
    requires Items(w) == {}
    ensures Cleaned(m, m[k := w] - {k}, closed)
  {
    assert Evicted(m[k], m[k := w][k], closed);
    var some := SomeMember(closed);
    assert some in m[k].free;
  }

  /** One pool changes its contents. */
  lemma PoolChanged(m: Vals, k: Key, w: Val)
    requires AllFit(m) && k in m && Fits(w, k)
    ensures AllFit(m[k := w])
    ensures AllItems(m[k := w]) == AllItems(m) - Items(m[k]) + Items(w)
    ensures InUse(m[k := w]) == InUse(m) - m[k].inuse + w.inuse
  {
    var n := m[k := w];
    forall t | t in AllItems(m) && t !in Items(m[k])
      ensures t in AllItems(n)
    {
      var j :| j in m && t in Items(m[j]);
      assert j in n && n[j] == m[j];
    }
    forall t | t in Items(w)
      ensures t in AllItems(n)
    {
      assert k in n && n[k] == w;
    }
    forall t | t in AllItems(n)
      ensures t in AllItems(m) - Items(m[k]) + Items(w)
    {
      var j :| j in n && t in Items(n[j]);
      if j != k && t in Items(m[k]) {
        OnePool(m, j, k, t);
      }
    }
    InUseChanged(m, k, w);
  }

  lemma InUseChanged(m: Vals, k: Key, w: Val)
    requires AllFit(m) && k in m
    ensures InUse(m[k := w]) == InUse(m) - m[k].inuse + w.inuse
  {
    var n := m[k := w];
    forall t | t in InUse(m) && t !in m[k].inuse
      ensures t in InUse(n)
    {
      var j :| j in m && t in m[j].inuse;
      assert j in n && n[j] == m[j];
    }
    forall t | t in w.inuse
      ensures t in InUse(n)
    {
      assert k in n && n[k] == w;
    }
    forall t | t in InUse(n)
      ensures t in InUse(m) - m[k].inuse + w.inuse
    {
      var j :| j in n && t in n[j].inuse;
      if j != k && t in m[k].inuse {
        assert t in Items(m[j]) && t in Items(m[k]);
        OnePool(m, j, k, t);
      }
    }
  }

  function PoolOf(m: Vals, k: Key): Val { if k in m then m[k] else EMPTY }

  /** An empty pool for a new target. */
  function Opened(m: Vals, k: Key): Vals { m[k := PoolOf(m, k)] }

  function Sized(m: Vals, k: Key, n: int): Vals { m[k := PoolOf(m, k).(maxsize := n)] }

  lemma SizedSame(m: Vals, k: Key, n: int)
    requires AllFit(m)
    ensures AllFit(Sized(m, k, n)) && AllItems(Sized(m, k, n)) == AllItems(m) && InUse(Sized(m, k, n)) == InUse(m)
    ensures Spare(Sized(m, k, n)) == Spare(m)
  {
    SameSpare(m, k, n);
    var o := Sized(m, k, n);
    if k in m {
      PoolChanged(m, k, m[k].(maxsize := n));
      assert Items(m[k]) <= AllItems(m) && m[k].inuse <= InUse(m);
    } else {
      assert forall j :: j in m ==> j in o && o[j] == m[j];
      assert forall j :: j in o && j != k ==> j in m && o[j] == m[j];
      SameItems(m, o, k);
    }
  }

  lemma SameItems(m: Vals, o: Vals, k: Key)
    requires (forall j :: j in m ==> j in o && o[j] == m[j]) && forall j :: j in o && j != k ==> j in m && o[j] == m[j]
    requires k in o && Items(o[k]) == {}
    ensures AllItems(o) == AllItems(m) && InUse(o) == InUse(m)
  {
    forall t | t in AllItems(o)
      ensures t in AllItems(m)
    {
      var j :| j in o && t in Items(o[j]);
      assert j in m;
    }
    forall t | t in InUse(o)
      ensures t in InUse(m)
    {
      var j :| j in o && t in o[j].inuse;
      assert t in Items(o[j]);
      assert j in m;
    }
  }

  lemma OpenedSame(m: Vals, k: Key)
    requires AllFit(m)
    ensures AllFit(Opened(m, k)) && AllItems(Opened(m, k)) == AllItems(m) && InUse(Opened(m, k)) == InUse(m)
  {
    hide AllFit, AllItems, InUse, Spare;
    SizedSame(m, k, PoolOf(m, k).maxsize);
    assert Opened(m, k) == Sized(m, k, PoolOf(m, k).maxsize);
  }

  lemma SameSpare(m: Vals, k: Key, n: int)
    ensures Spare(Sized(m, k, n)) == Spare(m)
  {
    var o := Sized(m, k, n);
    forall t | t in Spare(m)
      ensures t in Spare(o)
    {
      var j :| j in m && t in Unshared(m[j]);
      assert t in Unshared(o[j]);
    }
    forall t | t in Spare(o)
      ensures t in Spare(m)
    {
      var j :| j in o && t in Unshared(o[j]);
      assert t in Unshared(PoolOf(m, j));
    }
  }

  /** The terminals of one more pool. */
  lemma OneMorePool(m: Vals, todo: set<Key>, k: Key)
    requires AllFit(m) && k in m && k in todo
    ensures |AllItems(m - (todo - {k}))| == |AllItems(m - todo)| + |m[k].inuse| + |m[k].free|
  {
    var n, o := m - (todo - {k}), m - todo;
    forall t | t in AllItems(o)
      ensures t in AllItems(n) && t !in Items(m[k])
    {
      var j :| j in o && t in Items(o[j]);
      assert j in n && n[j] == m[j];
      if t in Items(m[k]) {
        OnePool(m, j, k, t);
      }
    }
    forall t | t in Items(m[k])
      ensures t in AllItems(n)
    {
      assert k in n && n[k] == m[k];
    }
    forall t | t in AllItems(n) && t !in Items(m[k])
      ensures t in AllItems(o)
    {
      var j :| j in n && t in Items(n[j]);
      assert j in o && o[j] == m[j];
    }
    assert AllItems(n) == AllItems(o) + Items(m[k]);
    assert |Items(m[k])| == |m[k].free| + |m[k].inuse|;
  }

  /** A terminal in use is in use in the pool of its own target, which is there. */
  lemma InUseAtHome(m: Vals, t: Terminal)
    requires AllFit(m)
    ensures t in InUse(m) <==> t.key in m && t in m[t.key].inuse
    ensures t in AllItems(m) <==> t.key in m && t in Items(m[t.key])
  {
    if t in InUse(m) {
      var k :| k in m && t in m[k].inuse;
      assert t in Items(m[k]);
    }
    if t in AllItems(m) {
      var k :| k in m && t in Items(m[k]);
    }
  }
}
