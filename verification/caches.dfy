/** The reply cache as it runs: a clock that never goes back, countdowns, and a compressed set of retired uids. */
module Caches {
  import opened Bytes
  import opened Msgs
  import opened CacheSpec
  import opened TimedCache

  // ---------- the set of retired uids ----------

  /** set(range(lo, hi)) */
  function Range(lo: int, hi: int): (s: set<int>)
    ensures forall i :: i in s <==> lo <= i < hi
    ensures |s| == Max(0, hi - lo)
    decreases hi - lo
  {
    if lo < hi then Range(lo, hi - 1) + {hi - 1} else {}
  }

  /** The set added, by its ends and its gaps. */
  ghost predicate Stores(lo: int, hi: int, missing: set<int>, added: set<int>) {
    lo in added && hi in added && (forall i :: i in added ==> lo <= i <= hi) &&
    (forall i :: i in missing <==> lo <= i <= hi && i !in added)
  }

  lemma StoresAbove(lo: int, hi: int, missing: set<int>, added: set<int>, i: int)
    requires Stores(lo, hi, missing, added) && i > hi
    ensures Stores(lo, i, missing + Range(hi + 1, i), added + {i})
  {
    hide Range;
  }

  lemma StoresBelow(lo: int, hi: int, missing: set<int>, added: set<int>, i: int)
    requires Stores(lo, hi, missing, added) && i < lo
    ensures Stores(i, hi, missing + Range(i + 1, lo), added + {i})
  {
    hide Range;
  }

  lemma StoresOne(i: int)
    ensures Stores(i, i, {}, {} + {i})
  {
  }

  /** The ends are in the set, and so is what is no gap. */
  lemma StoresAlready(lo: int, hi: int, missing: set<int>, added: set<int>, i: int)
    requires Stores(lo, hi, missing, added) && lo <= i <= hi && (i == lo || i == hi || i !in missing)
    ensures i in added && i !in missing
  {
  }

  lemma StoresBetween(lo: int, hi: int, missing: set<int>, added: set<int>, i: int)
    requires Stores(lo, hi, missing, added) && lo <= i <= hi
    ensures Stores(lo, hi, missing - {i}, added + {i})
    ensures i !in missing ==> missing - {i} == missing
  {
  }

  /** Stores a set of mostly consecutive integers by its ends and its gaps. */
  class ConsecutiveSet {
    var min: Option<int>
    var max: Option<int>
    var missing: set<int>
    ghost var Added: set<int>

    ghost predicate Valid()
      reads this
    {
      if min.None? then max.None? && missing == {} && Added == {}
      else
        max.Some? && Stores(min.value, max.value, missing, Added)
    }

    constructor ()
      ensures Valid() && Added == {}
    {
      min, max, missing, Added := None, None, {}, {};
    }

    method Add(i: int)
      requires Valid()
      modifies this
      ensures Valid() && Added == old(Added) + {i}
    {
      hide Range, Stores;
      if min.None? {
        min, max := Some(i), Some(i);
        StoresOne(i);
      } else if i > max.value {
        StoresAbove(min.value, max.value, missing, Added, i);
        missing := missing + Range(max.value + 1, i);
        max := Some(i);
      } else if min.value < i < max.value && i in missing {
        StoresBetween(min.value, max.value, missing, Added, i);
        missing := missing - {i};
      } else if i < min.value {
        StoresBelow(min.value, max.value, missing, Added, i);
        missing := missing + Range(i + 1, min.value);
        min := Some(i);
      } else {
        StoresBetween(min.value, max.value, missing, Added, i);
        StoresAlready(min.value, max.value, missing, Added, i);
      }
      Added := Added + {i};
    }

    /** Exactly the integers that were added are in it. */
    predicate Contains(i: int)
      requires Valid()
      reads this
      ensures Contains(i) <==> i in Added
    {
      min.Some? && min.value <= i <= max.value && i !in missing
    }

    /** What is stored grows with the gaps only. */
    function Len(): (n: nat)
      requires Valid()
      reads this
      ensures n == if Added == {} then 0 else max.value - min.value + 1 - |Added|
    {
      assert min.Some? ==> |missing| == max.value - min.value + 1 - |Added| by {
        if min.Some? {
          assert Range(min.value, max.value + 1) == missing + Added;
        }
      }
      |missing|
    }
  }

  // ---------- the clock ----------

  const MIN_INCR := 0.01

  /** Turns the readings of a clock that may be set back into readings that only grow. */
  class Monotonic {
    var delta: real
    var previousTime: real
    var lastRaw: real // what the raw clock showed last

    ghost predicate Valid()
      reads this
    {
      previousTime == lastRaw + delta
    }

    constructor (raw: real)
      ensures Valid() && lastRaw == raw && previousTime == raw
    {
      delta, previousTime, lastRaw := 0.0, raw, raw;
    }

    /** Advances by the raw step when the raw clock advances, and by a little when it does not. */
    method Time(raw: real) returns (t: real)
      requires Valid()
      modifies this
      ensures Valid() && lastRaw == raw && previousTime == t
      ensures t - old(previousTime) == if raw > old(lastRaw) then raw - old(lastRaw) else 0.01
    {
      var correctedTime := raw + delta;
      if correctedTime <= previousTime {
        correctedTime := previousTime + MIN_INCR;
        delta := correctedTime - raw;
      }
      previousTime := correctedTime;
      lastRaw := raw;
      t := correctedTime;
    }
  }

  // ---------- one cached reply ----------

  datatype Timeout = Finite(value: real) | Infinite

  class MsgCache {
    const msg: Msg
    var timeout: Timeout
    var timeouts: seq<real>           // what the generator has not yielded
    ghost var deadline: Option<real>  // when the wait after the last send is over

    ghost function AsSlot(): Slot
      requires timeout.Finite?
      reads this
    {
      Slot(msg, timeout.value, timeouts, deadline)
    }

    constructor (msg: Msg, retry: Retry)
      ensures this.msg == msg && timeout.Finite? && AsSlot() == NewSlot(msg, retry)
    {
      this.msg, timeout, timeouts, deadline := msg, Finite(0.0), Timeouts(retry), None;
    }

    /** Counts down; or, when the wait is over, sends and begins the next wait; or gives up. */
    method SendExpired(elapsed: real, ghost now: real) returns (send: bool)
      requires timeout.Finite?
      modifies this
      ensures send <==> elapsed >= old(timeout.value) && old(timeouts) != []
      ensures send ==> timeout.Finite? && [timeout.value] + timeouts == old(timeouts)
      ensures match Tick(old(AsSlot()), elapsed, now)
              case Some(s) => timeout.Finite? && AsSlot() == s
              case None => timeout == Infinite
    {
      send := false;
      if elapsed < timeout.value {
        timeout := Finite(timeout.value - elapsed);
      } else if timeouts != [] {
        timeout := Finite(timeouts[0]);
        deadline := Some(now + timeouts[0]);
        timeouts := timeouts[1..];
        send := true;
      } else {
        timeout := Infinite;
      }
    }
  }

  // ---------- all cached replies ----------

  class MsgCaches {
    const retry: Retry
    const long: Msg -> bool // takes more than one frame, so that sending it waits, and may raise
    var msgcaches: map<int, MsgCache>
    const monotonic: Monotonic
    var lap: real
    const removed: ConsecutiveSet
    var sent: seq<Msg> // what went to send_msg

    ghost var Clocked: Timed // the same as a value

    ghost function Repr(): set<object>
      reads this
    {
      {this, monotonic, removed} + Entries()
    }

    ghost function Entries(): set<object>
      reads this
    {
      set u | u in msgcaches :: msgcaches[u]
    }

    /** The cache without its clock. */
    ghost function Model(): Cache
      reads this
    {
      Untimed(Clocked)
    }

    ghost function Now(): Moment
      reads this, monotonic
    {
      Moment(Clocked, monotonic.previousTime)
    }

    ghost predicate Valid()
      reads this, Repr()
    {
      monotonic.Valid() && removed.Valid() && lap <= monotonic.previousTime &&
      Clocked.retry == retry && Clocked.lap == lap && Clocked.removed == removed.Added && Clocked.sent == sent &&
      msgcaches.Keys == Clocked.slots.Keys && forall u :: u in msgcaches ==> Mirrored(u)
    }

    ghost predicate Mirrored(u: int)
      requires u in msgcaches && u in Clocked.slots
      reads this, msgcaches[u]
    {
      var c := msgcaches[u];
      c.msg.uid == u && c.timeout.Finite? && c.AsSlot() == Clocked.slots[u]
    }

    constructor (retry: Retry, long: Msg -> bool, raw: real)
      ensures Valid() && fresh(Repr()) && this.retry == retry && this.long == long
      ensures Clocked.slots == map[] && Model() == Cache(map[], {}, []) && OnTime(Clocked)
    {
      this.retry, this.long, msgcaches, sent := retry, long, map[], [];
      var m := new Monotonic(raw);
      var r := new ConsecutiveSet();
      var t := m.Time(raw);
      monotonic, removed, lap := m, r, t;
      Clocked := Timed(retry, map[], {}, [], t);
    }

    method PushMsg(msg: Msg)
      requires Valid()
      modifies this`msgcaches, this`Clocked
      ensures Valid() && fresh(Repr() - old(Repr()))
      ensures Clocked == PushTimed(old(Clocked), msg) && Model() == Push(old(Model()), msg, retry)
    {
      var c := new MsgCache(msg, retry);
      PushUntimed(Clocked, msg);
      msgcaches := msgcaches[msg.uid := c];
      Clocked := PushTimed(Clocked, msg);
    }

    method Remove(msg: Msg)
      requires Valid()
      modifies this`msgcaches, this`Clocked, removed
      ensures Valid() && Entries() <= old(Entries())
      ensures Clocked == RemoveTimed(old(Clocked), msg.uid)
      ensures Model() == CacheSpec.Remove(old(Model()), msg.uid)
    {
      RemoveUntimed(Clocked, msg.uid);
      if msg.uid in msgcaches {
        RemoveUid(msg.uid);
        Clocked := RemoveTimed(Clocked, msg.uid);
      }
    }

    method RemoveUid(u: int)
      requires removed.Valid() && u in msgcaches
      modifies this`msgcaches, removed
      ensures msgcaches == old(msgcaches) - {u}
      ensures removed.Valid() && removed.Added == old(removed.Added) + {u}
    {
      msgcaches := msgcaches - {u};
      removed.Add(u);
    }

    /** The entry u of send_expired; true when its message goes to send_msg. */
    method Visit(u: int, raw: real) returns (send: bool)
      requires Valid() && u in msgcaches
      modifies this`msgcaches, this`sent, this`Clocked, monotonic, removed, msgcaches[u]
      ensures Valid() && Entries() <= old(Entries())
      ensures msgcaches == old(msgcaches) || msgcaches == old(msgcaches) - {u}
      ensures var now := monotonic.previousTime;
              Clocked == TimedCache.Visit(old(Clocked), u, now) && (send <==> Goes(old(Clocked), u, now)) &&
              now - old(monotonic.previousTime) == Advance(old(monotonic.lastRaw), raw)
    {
      var now := monotonic.Time(raw);
      var c := msgcaches[u];
      send := c.SendExpired(now - lap, now);
      forall v | v in msgcaches && v != u
        ensures Mirrored(v)
      {
        assert old(Mirrored(v));
      }
      Settle(u, c, now, send);
    }

    /** Sends, or takes out, the entry u after its countdown was updated. */
    method Settle(u: int, c: MsgCache, ghost now: real, send: bool)
      requires monotonic.Valid() && removed.Valid() && lap <= monotonic.previousTime
      requires Clocked.retry == retry && Clocked.lap == lap && Clocked.removed == removed.Added && Clocked.sent == sent
      requires msgcaches.Keys == Clocked.slots.Keys && u in msgcaches && msgcaches[u] == c && c.msg.uid == u
      requires forall v :: v in msgcaches && v != u ==> Mirrored(v)
      requires send <==> Goes(Clocked, u, now)
      requires match Tick(Clocked.slots[u], now - lap, now)
               case Some(s) => c.timeout.Finite? && c.AsSlot() == s
               case None => c.timeout == Infinite
      modifies this`msgcaches, this`sent, this`Clocked, removed
      ensures Valid() && Clocked == TimedCache.Visit(old(Clocked), u, now)
      ensures msgcaches == old(msgcaches) || msgcaches == old(msgcaches) - {u}
    {
      hide Tick, NewSlot;
      ghost var x := Clocked;
      VisitFields(x, u, now);
      if send {
        sent := sent + [c.msg];
      }
      if c.timeout == Infinite {
        RemoveUid(u);
      }
      Clocked := TimedCache.Visit(x, u, now);
    }

    /** send_expired. first is the first reading of the raw clock. A send may raise: then the pass
        ends there, and the lap stays where it was. */
    method SendExpired(first: real) returns (raised: bool, ghost vs: Visits)
      requires Valid()
      modifies this`msgcaches, this`sent, this`Clocked, this`lap, monotonic, removed, Entries()
      ensures Valid() && Entries() <= old(Entries())
      ensures Round(old(Clocked), vs, old(monotonic.previousTime))
      ensures vs != [] ==>
                vs[0].1 - old(monotonic.previousTime) == Advance(old(monotonic.lastRaw), first) &&
                vs[|vs| - 1].1 <= monotonic.previousTime
      ensures if raised then
                Raised(old(Clocked), vs) && Clocked == VisitAll(old(Clocked), vs)
              else
                Whole(old(Clocked), vs) && Clocked == VisitAll(old(Clocked), vs).(lap := monotonic.previousTime)
      ensures PassedOver(old(Now()), vs, !raised, Now())
      ensures !raised && OnTime(old(Clocked)) ==> OnTime(Clocked)
      ensures Model() == ExpireAll(old(Model()), Fired(old(Clocked), vs))
      ensures forall u :: u in Fired(old(Clocked), vs) <==>
                          exists i :: 0 <= i < |vs| && vs[i].0 == u && Due(old(Clocked), u, vs[i].1)
    {
      hide VisitAll, Fired, ExpireAll, Due, Round, Visited, Whole, Raised, OnTime, PassedOver;
      ghost var x, start, lastRaw := Clocked, monotonic.previousTime, monotonic.lastRaw;
      ghost var todo;
      var raw;
      raised, raw, vs, todo := VisitEach(first);
      PassSoFar(x, start, vs, todo, Clocked, monotonic.previousTime);
      if raised {
        RaisedCuts(x, start, vs);
      } else {
        StartLap(raw);
        WholePass(x, start, vs, monotonic.previousTime);
        WholePassOnTime(x, vs, start, lap);
      }
    }

    /** The last of the visits sends a message that takes more than one frame. */
    ghost predicate Raised(x: Timed, vs: Visits) {
      vs != [] &&
      var y, (u, now) := VisitAll(x, vs[..|vs| - 1]), vs[|vs| - 1];
      Goes(y, u, now) && long(y.slots[u].msg)
    }

    lemma RaisedCuts(x: Timed, start: real, vs: Visits)
      requires Round(x, vs, start) && Raised(x, vs)
      ensures vs != [] && PassedOver(Moment(x, start), vs, false, Moment(VisitAll(x, vs), vs[|vs| - 1].1))
    {
      CutPass(x, start, vs);
    }

    lemma SlotMsg(u: int)
      requires Valid() && u in msgcaches
      ensures Mirrored(u) && Clocked.slots[u].msg == msgcaches[u].msg
    {
    }

    /** Entries may have gone, none was replaced. */
    static ghost predicate Kept(ms: map<int, MsgCache>, ns: map<int, MsgCache>) {
      ns.Keys <= ms.Keys && forall u :: u in ns ==> ns[u] == ms[u]
    }

    /** The loop of send_expired: ends early when a send raises. */
    method VisitEach(first: real) returns (raised: bool, raw: real, ghost vs: Visits, ghost todo: set<int>)
      requires Valid()
      modifies this`msgcaches, this`sent, this`Clocked, monotonic, removed, Entries()
      ensures Valid() && Kept(old(msgcaches), msgcaches)
      ensures InPass(old(Clocked), old(monotonic.previousTime), vs, todo, old(monotonic.lastRaw), first, raw)
      ensures if raised then Raised(old(Clocked), vs) else todo == {}
    {
      hide InPass, VisitAll, Raised, Valid;
      ghost var x, start, lastRaw := Clocked, monotonic.previousTime, monotonic.lastRaw;
      vs := [];
      StartPass(first);
      raised, raw := false, first;
      var left := msgcaches.Keys;
      todo := left;
      while left != {}
        invariant Valid() && Kept(old(msgcaches), msgcaches)
        invariant InPass(x, start, vs, left, lastRaw, first, raw) && left <= msgcaches.Keys
        invariant !raised && todo == left
        decreases |left|
      {
        ghost var some := SomeMember(left);
        var u :| u in left;
        raised, raw, vs := VisitNext(x, start, vs, left, lastRaw, first, u, raw);
        left := left - {u};
        todo := left;
        if raised {
          return;
        }
      }
    }

    /** In a pass whose first reading of the raw clock is first; raw is what that clock shows next. */
    ghost predicate InPass(x: Timed, start: real, vs: Visits, todo: set<int>, lastRaw: real, first: real, raw: real)
      reads this, monotonic
    {
      Passing(x, start, vs, todo, Clocked, monotonic.previousTime) &&
      if vs == [] then raw == first && monotonic.lastRaw == lastRaw else vs[0].1 - start == Advance(lastRaw, first)
    }

    /** The next entry of the pass, what the raw clock shows then, and whether its send raises. */
    method VisitNext(ghost x: Timed, ghost start: real, ghost vs: Visits, ghost todo: set<int>, ghost lastRaw: real,
                     ghost first: real, u: int, raw: real)
      returns (raises: bool, next: real, ghost ws: Visits)
      requires Valid() && u in msgcaches && u in todo && InPass(x, start, vs, todo, lastRaw, first, raw)
      modifies this`msgcaches, this`sent, this`Clocked, monotonic, removed, msgcaches[u]
      ensures Valid() && Kept(old(msgcaches), msgcaches) && msgcaches.Keys >= old(msgcaches).Keys - {u}
      ensures InPass(x, start, ws, todo - {u}, lastRaw, first, next)
      ensures raises ==> Raised(x, ws)
    {
      hide Round, Visited, VisitAll, TimedCache.Visit, Goes, Mirrored;
      assert Mirrored(u) && Clocked.slots[u].msg == msgcaches[u].msg by { SlotMsg(u); }
      var msg := msgcaches[u].msg;
      ghost var y, before := Clocked, monotonic.previousTime;
      var send := Visit(u, raw);
      PassGoesOn(x, start, vs, todo, y, before, u, monotonic.previousTime);
      ws := vs + [(u, monotonic.previousTime)];
      assert ws[..|vs|] == vs;
      raises := false;
      if send {
        var garbled: bool := *;
        raises := garbled && long(msg);
      }
      next := *;
    }

    lemma StartPass(first: real)
      requires Valid()
      ensures InPass(Clocked, monotonic.previousTime, [], msgcaches.Keys, monotonic.lastRaw, first, first)
    {
      PassBegins(Clocked, monotonic.previousTime);
    }

    method StartLap(raw: real)
      requires Valid()
      modifies this`lap, this`Clocked, monotonic
      ensures Valid() && monotonic.previousTime > old(monotonic.previousTime)
      ensures Clocked == old(Clocked).(lap := monotonic.previousTime) && Model() == old(Model())
    {
      lap := monotonic.Time(raw);
      Clocked := Clocked.(lap := lap);
    }

    /** The callback that puts a message on the wire. */
    method SendMsg(msg: Msg)
      requires Valid()
      modifies this`sent, this`Clocked
      ensures Valid() && Model() == old(Model()).(sent := old(Model()).sent + [msg])
    {
      sent := sent + [msg];
      Clocked := Clocked.(sent := sent);
    }

    /** timeout: the shortest wait, infinite when nothing is cached. */
    method MinTimeout() returns (t: Timeout)
      requires Valid()
      ensures t.Infinite? <==> Clocked.slots.Keys == {}
      ensures t.Finite? ==>
                (exists u :: u in Clocked.slots && Clocked.slots[u].timeout == t.value) &&
                forall u :: u in Clocked.slots ==> t.value <= Clocked.slots[u].timeout
    {
      t := Infinite;
      var todo := msgcaches.Keys;
      while todo != {}
        invariant todo <= msgcaches.Keys
        invariant t.Infinite? <==> todo == msgcaches.Keys
        invariant t.Finite? ==> exists u :: u in Clocked.slots && Clocked.slots[u].timeout == t.value
        invariant t.Finite? ==> forall u :: u in Clocked.slots && u !in todo ==> t.value <= Clocked.slots[u].timeout
      {
        ghost var some := SomeMember(todo);
        var u :| u in todo;
        assert Mirrored(u);
        var v := msgcaches[u].timeout.value;
        if t.Infinite? || v < t.value {
          t := Finite(v);
        }
        todo := todo - {u};
      }
    }
  }

  /** How far the corrected clock goes between two readings of the raw clock. */
  function Advance(lastRaw: real, raw: real): (d: real)
    ensures d > 0.0
  {
    if raw > lastRaw then raw - lastRaw else MIN_INCR
  }

  lemma PushUntimed(x: Timed, m: Msg)
    ensures Untimed(PushTimed(x, m)) == Push(Untimed(x), m, x.retry)
  {
    assert Untimed(PushTimed(x, m)).cached == Push(Untimed(x), m, x.retry).cached;
  }

  lemma RemoveUntimed(x: Timed, u: int)
    ensures Untimed(RemoveTimed(x, u)) == CacheSpec.Remove(Untimed(x), u)
  {
    assert Untimed(RemoveTimed(x, u)).cached == CacheSpec.Remove(Untimed(x), u).cached;
  }
}
