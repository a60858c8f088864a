/**
 The reply cache with its clock: countdowns that are measured from one lap to the
 next, and what becomes of them when a pass over the cache is cut short.
 */
module TimedCache {
  import opened Bytes
  import opened Msgs
  import opened CacheSpec
  import opened SharedIo
  import opened ChunkSpec
  import Decimals

  /** A cached reply: its countdown, the waits its schedule has not used, and, once it
      was sent, the time before which the schedule does not want it sent again. */
  datatype Slot = Slot(msg: Msg, timeout: real, waits: seq<real>, deadline: Option<real>)

  datatype Timed = Timed(retry: Retry, slots: map<int, Slot>, removed: set<int>, sent: seq<Msg>, lap: real)

  function NewSlot(m: Msg, r: Retry): Slot { Slot(m, 0.0, Timeouts(r), None) }

  /** MsgCache.send_expired at time now; None when the schedule has run out. */
  function Tick(s: Slot, elapsed: real, now: real): Option<Slot> {
    if elapsed < s.timeout then Some(s.(timeout := s.timeout - elapsed))
    else if s.waits != [] then Some(Slot(s.msg, s.waits[0], s.waits[1..], Some(now + s.waits[0])))
    else None
  }

  predicate Due(x: Timed, u: int, now: real) {
    u in x.slots && now - x.lap >= x.slots[u].timeout
  }

  predicate Goes(x: Timed, u: int, now: real) { Due(x, u, now) && x.slots[u].waits != [] }

  /** The entry u of MsgCaches.send_expired, with the clock at now. */
  function Visit(x: Timed, u: int, now: real): (y: Timed)
    ensures y.lap == x.lap && y.retry == x.retry
  {
    if u !in x.slots then x
    else
      var s := x.slots[u];
      match Tick(s, now - x.lap, now)
      case Some(t) => x.(slots := x.slots[u := t], sent := if Goes(x, u, now) then x.sent + [s.msg] else x.sent)
      case None => x.(slots := x.slots - {u}, removed := x.removed + {u})
  }

  lemma VisitFields(x: Timed, u: int, now: real)
    requires u in x.slots
    ensures var y, t := Visit(x, u, now), Tick(x.slots[u], now - x.lap, now);
            y.sent == (if Goes(x, u, now) then x.sent + [x.slots[u].msg] else x.sent) &&
            y.removed == (if t.None? then x.removed + {u} else x.removed) &&
            y.slots == (if t.Some? then x.slots[u := t.value] else x.slots - {u}) &&
            (t.Some? ==> t.value.msg == x.slots[u].msg) && (t.None? ==> !Goes(x, u, now))
  {
  }

  type Visits = seq<(int, real)>

  function VisitAll(x: Timed, vs: Visits): (y: Timed)
    ensures y.lap == x.lap && y.retry == x.retry
  {
    if vs == [] then x
    else
      var v := vs[|vs| - 1];
      Visit(VisitAll(x, vs[..|vs| - 1]), v.0, v.1)
  }

  function PushTimed(x: Timed, m: Msg): Timed { x.(slots := x.slots[m.uid := NewSlot(m, x.retry)]) }

  function RemoveTimed(x: Timed, u: int): Timed {
    if u in x.slots then x.(slots := x.slots - {u}, removed := x.removed + {u}) else x
  }

  /** A pass over x, or the beginning of one: no entry twice, and a clock that advances from t. */
  ghost predicate Round(x: Timed, vs: Visits, t: real) {
    (forall i :: 0 <= i < |vs| ==> vs[i].0 in x.slots && vs[i].1 > t) &&
    (forall i, j :: 0 <= i < j < |vs| ==> vs[i].0 != vs[j].0 && vs[i].1 < vs[j].1)
  }

  ghost predicate Visited(u: int, vs: Visits) { exists i :: 0 <= i < |vs| && vs[i].0 == u }

  ghost predicate Whole(x: Timed, vs: Visits) { forall u :: u in x.slots ==> Visited(u, vs) }

  lemma RoundFront(x: Timed, vs: Visits, t: real)
    requires Round(x, vs, t) && vs != []
    ensures Round(x, vs[..|vs| - 1], t) && !Visited(vs[|vs| - 1].0, vs[..|vs| - 1])
  {
  }

  lemma LastReading(x: Timed, vs: Visits, t: real)
    requires Round(x, vs, t)
    ensures vs != [] ==> vs[|vs| - 1].1 > t
  {
  }

  lemma NoVisits(x: Timed, t: real)
    ensures Round(x, [], t) && VisitAll(x, []) == x && forall u :: !Visited(u, [])
  {
  }

  lemma RoundOn(x: Timed, vs: Visits, t: real, u: int, now: real)
    requires Round(x, vs, t) && u in x.slots && !Visited(u, vs) && now > t
    requires vs != [] ==> now > vs[|vs| - 1].1
    ensures Round(x, vs + [(u, now)], t) && VisitAll(x, vs + [(u, now)]) == Visit(VisitAll(x, vs), u, now)
  {
    hide Visit;
    assert (vs + [(u, now)])[..|vs|] == vs;
  }

  lemma VisitedOn(vs: Visits, u: int, now: real)
    ensures forall v :: Visited(v, vs + [(u, now)]) <==> Visited(v, vs) || v == u
  {
    var ws := vs + [(u, now)];
    forall v | Visited(v, vs) || v == u
      ensures Visited(v, ws)
    {
      if v == u {
        assert ws[|vs|].0 == u;
      } else {
        var i :| 0 <= i < |vs| && vs[i].0 == v;
        assert ws[i].0 == v;
      }
    }
  }

  /** A pass that began with x at time start has come to y at time clock: vs were visited, todo were not. */
  ghost predicate Passing(x: Timed, start: real, vs: Visits, todo: set<int>, y: Timed, clock: real) {
    Round(x, vs, start) && y == VisitAll(x, vs) && todo <= x.slots.Keys &&
    (forall u :: u in x.slots ==> (Visited(u, vs) <==> u !in todo)) &&
    clock == if vs == [] then start else vs[|vs| - 1].1
  }

  lemma PassBegins(x: Timed, start: real)
    ensures Passing(x, start, [], x.slots.Keys, x, start)
  {
    NoVisits(x, start);
  }

  lemma PassGoesOn(x: Timed, start: real, vs: Visits, todo: set<int>, y: Timed, clock: real, u: int, now: real)
    requires Passing(x, start, vs, todo, y, clock) && u in todo && now > clock
    ensures Passing(x, start, vs + [(u, now)], todo - {u}, Visit(y, u, now), now)
  {
    hide VisitAll, Visit, Visited, Round;
    LastReading(x, vs, start);
    assert !Visited(u, vs);
    RoundOn(x, vs, start, u, now);
    VisitedOn(vs, u, now);
  }

  lemma PassSoFar(x: Timed, start: real, vs: Visits, todo: set<int>, y: Timed, clock: real)
    requires Passing(x, start, vs, todo, y, clock)
    ensures Round(x, vs, start) && y == VisitAll(x, vs) && clock >= start && (todo == {} ==> Whole(x, vs))
    ensures forall i :: 0 <= i < |vs| ==> vs[i].1 <= clock
    ensures Untimed(y) == ExpireAll(Untimed(x), Fired(x, vs))
    ensures forall u :: u in Fired(x, vs) <==> exists i :: 0 <= i < |vs| && vs[i].0 == u && Due(x, u, vs[i].1)
  {
    hide VisitAll, Fired, ExpireAll, Due, Untimed;
    VisitsAreWakeUps(x, vs, start);
    LastReading(x, vs, start);
  }

  /** Entries are independent of each other: a visit depends on the entry and the lap alone. */
  lemma {:induction false} OthersUntouched(x: Timed, vs: Visits, u: int)
    requires !Visited(u, vs)
    ensures var y := VisitAll(x, vs); (u in y.slots <==> u in x.slots) && (u in x.slots ==> y.slots[u] == x.slots[u])
  {
    if vs != [] {
      var front := vs[..|vs| - 1];
      assert forall i :: 0 <= i < |front| ==> front[i] == vs[i];
      assert vs[|vs| - 1].0 != u;
      OthersUntouched(x, front, u);
    }
  }

  lemma {:induction false} SlotAfter(x: Timed, vs: Visits, t: real, i: nat)
    requires Round(x, vs, t) && i < |vs|
    ensures var y, (u, n) := VisitAll(x, vs), vs[i]; var z := Visit(x, u, n);
            (u in y.slots <==> u in z.slots) && (u in y.slots ==> y.slots[u] == z.slots[u])
  {
    var front := vs[..|vs| - 1];
    RoundFront(x, vs, t);
    if i == |vs| - 1 {
      OthersUntouched(x, front, vs[i].0);
    } else {
      SlotAfter(x, front, t, i);
    }
  }

  lemma {:induction false} SlotsShrink(x: Timed, vs: Visits)
    ensures VisitAll(x, vs).slots.Keys <= x.slots.Keys
  {
    if vs != [] {
      SlotsShrink(x, vs[..|vs| - 1]);
    }
  }

  // ---------- without the clock ----------

  function Untimed(x: Timed): Cache {
    Cache(map u | u in x.slots :: Entry(x.slots[u].msg, |x.slots[u].waits|), x.removed, x.sent)
  }

  function Fired(x: Timed, vs: Visits): seq<int> {
    if vs == [] then []
    else
      var front, v := vs[..|vs| - 1], vs[|vs| - 1];
      Fired(x, front) + if Due(VisitAll(x, front), v.0, v.1) then [v.0] else []
  }

  lemma VisitUntimed(x: Timed, u: int, now: real)
    ensures Untimed(Visit(x, u, now)) == if Due(x, u, now) then Expire(Untimed(x), u) else Untimed(x)
  {
    var y := Visit(x, u, now);
    if u in x.slots {
      if !Due(x, u, now) {
        assert Untimed(y).cached == Untimed(x).cached;
      } else {
        assert Untimed(y).cached == Expire(Untimed(x), u).cached;
      }
    }
  }

  lemma {:induction false} VisitsExpire(x: Timed, vs: Visits)
    ensures Untimed(VisitAll(x, vs)) == ExpireAll(Untimed(x), Fired(x, vs))
  {
    hide Untimed, Visit, Due, Expire;
    if vs != [] {
      var front, v := vs[..|vs| - 1], vs[|vs| - 1];
      VisitsExpire(x, front);
      VisitUntimed(VisitAll(x, front), v.0, v.1);
      var fs := Fired(x, front);
      if Due(VisitAll(x, front), v.0, v.1) {
        assert (fs + [v.0])[..|fs|] == fs;
      } else {
        assert fs + [] == fs;
      }
    }
  }

  lemma {:induction false} FiredAreDue(x: Timed, vs: Visits, t: real)
    requires Round(x, vs, t)
    ensures Unique(Fired(x, vs))
    ensures forall u :: u in Fired(x, vs) <==> exists i :: 0 <= i < |vs| && vs[i].0 == u && Due(x, u, vs[i].1)
  {
    hide VisitAll, Round;
    if vs != [] {
      var n := |vs| - 1;
      var front, v := vs[..n], vs[n];
      RoundFront(x, vs, t);
      FiredAreDue(x, front, t);
      OthersUntouched(x, front, v.0);
      assert Due(VisitAll(x, front), v.0, v.1) <==> Due(x, v.0, v.1);
      assert v.0 !in Fired(x, front);
      FiredGrows(x, vs);
    }
  }

  /** A pass is a row of wake-ups: of those entries, and only those, whose wait is over. */
  lemma VisitsAreWakeUps(x: Timed, vs: Visits, t: real)
    requires Round(x, vs, t)
    ensures Untimed(VisitAll(x, vs)) == ExpireAll(Untimed(x), Fired(x, vs)) && Unique(Fired(x, vs))
    ensures forall u :: u in Fired(x, vs) <==> exists i :: 0 <= i < |vs| && vs[i].0 == u && Due(x, u, vs[i].1)
  {
    hide *;
    VisitsExpire(x, vs);
    FiredAreDue(x, vs, t);
  }

  /** What is due before a whole pass is woken up by it. */
  lemma DueInPass(x: Timed, vs: Visits, t: real)
    requires Round(x, vs, t) && Whole(x, vs)
    ensures forall u :: Due(x, u, t) ==> u in Fired(x, vs)
  {
    hide Fired;
    FiredAreDue(x, vs, t);
    forall u | Due(x, u, t)
      ensures u in Fired(x, vs)
    {
      assert Visited(u, vs);
      var i :| 0 <= i < |vs| && vs[i].0 == u;
      assert Due(x, u, vs[i].1);
    }
  }

  lemma FiredGrows(x: Timed, vs: Visits)
    requires vs != []
    ensures var n := |vs| - 1;
            forall u :: (exists i :: 0 <= i < |vs| && vs[i].0 == u && Due(x, u, vs[i].1)) <==>
                        (exists i :: 0 <= i < n && vs[..n][i].0 == u && Due(x, u, vs[..n][i].1)) ||
                        (vs[n].0 == u && Due(x, u, vs[n].1))
  {
    var n := |vs| - 1;
    assert forall i :: 0 <= i < n ==> vs[..n][i] == vs[i];
  }

  // ---------- the distance between sends ----------

  /** The schedule sends the entry before the wait after its last send is over. */
  predicate Early(x: Timed, u: int, now: real) {
    Goes(x, u, now) && x.slots[u].deadline.Some? && now < x.slots[u].deadline.value
  }

  ghost predicate SlotOnTime(s: Slot, lap: real) {
    s.deadline.Some? ==> s.deadline.value <= lap + s.timeout
  }

  ghost predicate OnTime(x: Timed) { forall u :: u in x.slots ==> SlotOnTime(x.slots[u], x.lap) }

  /** In a pass over a cache that is on time no entry goes out early. */
  lemma NoneEarly(x: Timed, vs: Visits, t: real, i: nat)
    requires OnTime(x) && Round(x, vs, t) && i < |vs|
    ensures !Early(VisitAll(x, vs[..i]), vs[i].0, vs[i].1)
  {
    hide VisitAll;
    assert !Visited(vs[i].0, vs[..i]);
    OthersUntouched(x, vs[..i], vs[i].0);
    assert SlotOnTime(x.slots[vs[i].0], x.lap);
  }

  /** After a whole pass, with the lap moved to its end, a cache that was on time is on time again. */
  lemma PassOnTime(x: Timed, vs: Visits, end: real)
    requires OnTime(x) && Round(x, vs, x.lap) && Whole(x, vs) && forall i :: 0 <= i < |vs| ==> vs[i].1 <= end
    ensures OnTime(VisitAll(x, vs).(lap := end))
  {
    hide VisitAll, Round;
    var y := VisitAll(x, vs);
    SlotsShrink(x, vs);
    forall u | u in y.slots
      ensures SlotOnTime(y.slots[u], end)
    {
      assert Visited(u, vs) && SlotOnTime(x.slots[u], x.lap);
      var i :| 0 <= i < |vs| && vs[i].0 == u;
      SlotAfter(x, vs, x.lap, i);
    }
  }

  lemma WholePassOnTime(x: Timed, vs: Visits, t: real, end: real)
    requires Round(x, vs, t) && Whole(x, vs) && x.lap <= t && (vs != [] ==> vs[|vs| - 1].1 <= end)
    ensures OnTime(x) ==> OnTime(VisitAll(x, vs).(lap := end))
  {
    if OnTime(x) {
      assert Round(x, vs, x.lap);
      PassOnTime(x, vs, end);
    }
  }

  /** A pass over x visits u at time n and is cut short: the lap stays. Behind visits ws to other entries
      u goes out early exactly as follows. If it was sent: from its new wait behind the old lap to
      that wait behind its send. If it was counted down: the time up to n counts twice. */
  lemma EarlyAfterCut(x: Timed, vs: Visits, t: real, i: nat, ws: Visits, now: real)
    requires Round(x, vs, t) && i < |vs| && !Visited(vs[i].0, ws)
    ensures var (u, n) := vs[i]; var y, s := VisitAll(VisitAll(x, vs), ws), x.slots[u];
            Early(y, u, now) <==>
            if Due(x, u, n) then |s.waits| > 1 && x.lap + s.waits[0] <= now < n + s.waits[0]
            else s.waits != [] && s.deadline.Some? && x.lap + s.timeout - (n - x.lap) <= now < s.deadline.value
  {
    hide VisitAll;
    SlotAfter(x, vs, t, i);
    OthersUntouched(VisitAll(x, vs), ws, vs[i].0);
  }

  /** A schedule of three sends, ten seconds apart. The second send, at 10.02, raises;
      the third goes out 0.01 seconds later. */
  lemma ThirdSendTooEarly(m: Msg)
    ensures var r := Retry(3, 10.0, 10.0);
            var x := Timed(r, map[m.uid := NewSlot(m, r)], {}, [], 0.0);
            var y := Visit(x, m.uid, 0.01).(lap := 0.02); // the first pass is whole
            var z := Visit(y, m.uid, 10.02);              // the second is cut short
            Goes(x, m.uid, 0.01) && !Early(y, m.uid, 10.02) && Goes(y, m.uid, 10.02) && Early(z, m.uid, 10.03)
  {
    var r := Retry(3, 10.0, 10.0);
    assert Timeouts(r) == [10.0, 10.0, 10.0];
    var x := Timed(r, map[m.uid := NewSlot(m, r)], {}, [], 0.0);
    var y := Visit(x, m.uid, 0.01).(lap := 0.02);
    assert y.slots[m.uid] == Slot(m, 10.0, [10.0, 10.0], Some(10.01));
    var z := Visit(y, m.uid, 10.02);
    assert z.slots[m.uid] == Slot(m, 10.0, [10.0], Some(20.02)) && z.lap == 0.02;
  }

  /** An entry that was only counted down, at 6.0 of its 10 seconds, in a pass that
      another send cut short: in the next pass, at 6.03, it goes out. */
  lemma CountedTwice(r: Retry, m: Msg, n: Msg)
    requires m.uid != n.uid
    ensures var x := Timed(r, map[m.uid := Slot(m, 10.0, [1.0], Some(10.0)), n.uid := Slot(n, 5.0, [1.0], Some(5.0))],
                           {}, [], 0.0);
            var y := Visit(Visit(x, m.uid, 6.0), n.uid, 6.01);
            !Due(x, m.uid, 6.0) && Goes(Visit(x, m.uid, 6.0), n.uid, 6.01) && Early(y, m.uid, 6.03)
  {
  }

  /** An entry whose send raised at 11.0, a second behind the lap, and that a whole pass at 12.0 counted
      down: it goes out at 20.5, half a second before its wait is over. */
  lemma EarlyAfterWholePass(r: Retry, m: Msg)
    ensures var x := Timed(r, map[m.uid := Slot(m, 1.0, [10.0, 10.0], None)], {}, [], 10.0);
            var y := Visit(x, m.uid, 11.0);
            var z := Visit(y, m.uid, 12.0).(lap := 12.0);
            Goes(x, m.uid, 11.0) && !Due(y, m.uid, 12.0) && Early(z, m.uid, 20.5)
  {
  }

  // ---------- histories ----------

  /** What may happen to the cache. CutShort: the last send of the pass raises. */
  datatype Happening =
    | Pushed(m: Msg)
    | Acknowledged(u: int)
    | Passed(vs: Visits, end: real)
    | CutShort(vs: Visits)

  /** The cache, and what its clock showed last. */
  datatype Moment = Moment(x: Timed, clock: real)

  ghost predicate Possible(a: Moment, e: Happening) {
    match e
    case Pushed(_) => true
    case Acknowledged(_) => true
    case Passed(vs, end) =>
      Round(a.x, vs, a.clock) && Whole(a.x, vs) && end > a.clock && forall i :: 0 <= i < |vs| ==> vs[i].1 <= end
    case CutShort(vs) =>
      Round(a.x, vs, a.clock) && vs != [] && Goes(VisitAll(a.x, vs[..|vs| - 1]), vs[|vs| - 1].0, vs[|vs| - 1].1)
  }

  function Happens(a: Moment, e: Happening): Moment {
    match e
    case Pushed(m) => a.(x := PushTimed(a.x, m))
    case Acknowledged(u) => a.(x := RemoveTimed(a.x, u))
    case Passed(vs, end) => Moment(VisitAll(a.x, vs).(lap := end), end)
    case CutShort(vs) => if vs == [] then a else Moment(VisitAll(a.x, vs), vs[|vs| - 1].1)
  }

  /** Between the two moments lies a pass with the visits vs, whole or cut short. */
  ghost predicate PassedOver(a: Moment, vs: Visits, whole: bool, b: Moment) {
    var e := if whole then Passed(vs, b.clock) else CutShort(vs);
    Possible(a, e) && b == Happens(a, e)
  }

  lemma WholePass(x: Timed, start: real, vs: Visits, end: real)
    requires Round(x, vs, start) && Whole(x, vs) && end > start && forall i :: 0 <= i < |vs| ==> vs[i].1 <= end
    ensures PassedOver(Moment(x, start), vs, true, Moment(VisitAll(x, vs).(lap := end), end))
  {
  }

  lemma CutPass(x: Timed, start: real, vs: Visits)
    requires Round(x, vs, start) && vs != [] && Goes(VisitAll(x, vs[..|vs| - 1]), vs[|vs| - 1].0, vs[|vs| - 1].1)
    ensures PassedOver(Moment(x, start), vs, false, Moment(VisitAll(x, vs), vs[|vs| - 1].1))
  {
  }

  ghost predicate IsHistory(ms: seq<Moment>, es: seq<Happening>) {
    |ms| == |es| + 1 && ms[0].x.slots == map[] && ms[0].x.lap <= ms[0].clock &&
    forall i :: 0 <= i < |es| ==> Possible(ms[i], es[i]) && ms[i + 1] == Happens(ms[i], es[i])
  }

  /** When u is visited in vs, if it is. */
  function Reading(vs: Visits, u: int): Option<real> {
    if vs == [] then None
    else if vs[|vs| - 1].0 == u then Some(vs[|vs| - 1].1)
    else Reading(vs[..|vs| - 1], u)
  }

  /** What is kept of an entry that was sent: when its wait is over, and how much earlier its countdown ends. */
  datatype Account = Account(due: real, debt: real)

  /** The account after a pass that ends with the lap at lap. A send opens a new one. The countdown runs again from
      that lap, wherever the visit was: what lies between the two is made good, or counted a second time. */
  function Booked(x: Timed, vs: Visits, lap: real, u: int, a: Option<Account>): Option<Account> {
    match Reading(vs, u)
    case None => a
    case Some(n) =>
      if Goes(x, u, n) then Some(Account(n + x.slots[u].waits[0], n - lap))
      else if Due(x, u, n) || a == None then None
      else Some(Account(a.value.due, a.value.debt + (n - lap)))
  }

  /** The account of u after a history. */
  function Book(ms: seq<Moment>, es: seq<Happening>, u: int): Option<Account>
    requires |ms| == |es| + 1
  {
    if es == [] then None
    else
      var n := |es| - 1;
      var a, x := Book(ms[..n + 1], es[..n], u), ms[n].x;
      match es[n]
      case Pushed(m) => if m.uid == u then None else a
      case Acknowledged(_) => a
      case Passed(vs, end) => Booked(x, vs, end, u, a)
      case CutShort(vs) => Booked(x, vs, x.lap, u, a)
  }

  ghost predicate Balanced(s: Slot, lap: real, a: Option<Account>) {
    match a
    case None => s.deadline == None
    case Some(b) => s.deadline == Some(b.due) && lap + s.timeout == b.due - b.debt
  }

  lemma {:induction false} ReadingFound(vs: Visits, u: int)
    ensures Reading(vs, u).None? ==> !Visited(u, vs)
    ensures Reading(vs, u).Some? ==> exists i :: 0 <= i < |vs| && vs[i] == (u, Reading(vs, u).value)
  {
    if vs != [] {
      var n := |vs| - 1;
      ReadingFound(vs[..n], u);
      assert vs == vs[..n] + [vs[n]];
    }
  }

  /** One entry over one pass. */
  lemma PassBooked(x: Timed, vs: Visits, t: real, lap: real, u: int, a: Option<Account>)
    requires Round(x, vs, t) && u in x.slots && u in VisitAll(x, vs).slots && Balanced(x.slots[u], x.lap, a)
    requires Visited(u, vs) || lap == x.lap
    ensures Balanced(VisitAll(x, vs).slots[u], lap, Booked(x, vs, lap, u, a))
  {
    hide VisitAll, Round;
    ReadingFound(vs, u);
    if Reading(vs, u).Some? {
      var i :| 0 <= i < |vs| && vs[i] == (u, Reading(vs, u).value);
      SlotAfter(x, vs, t, i);
    } else {
      OthersUntouched(x, vs, u);
    }
  }

  lemma PushBooked(x: Timed, m: Msg, u: int, a: Option<Account>)
    requires u in x.slots ==> Balanced(x.slots[u], x.lap, a)
    requires u in PushTimed(x, m).slots
    ensures Balanced(PushTimed(x, m).slots[u], x.lap, if m.uid == u then None else a)
  {
  }

  /** After every history each account says where the countdown ends. */
  lemma {:induction false} BooksBalance(ms: seq<Moment>, es: seq<Happening>, u: int)
    requires IsHistory(ms, es) && u in ms[|es|].x.slots
    ensures Balanced(ms[|es|].x.slots[u], ms[|es|].x.lap, Book(ms, es, u))
    decreases |es|
  {
    hide VisitAll, Booked, Balanced;
    if es != [] {
      var n := |es| - 1;
      var x, a := ms[n].x, Book(ms[..n + 1], es[..n], u);
      assert Possible(ms[n], es[n]) && ms[n + 1] == Happens(ms[n], es[n]);
      if u in x.slots {
        BooksBalance(ms[..n + 1], es[..n], u);
      }
      match es[n]
      case Pushed(m) => PushBooked(x, m, u, a);
      case Acknowledged(_) =>
      case Passed(vs, end) =>
        SlotsShrink(x, vs);
        PassBooked(x, vs, ms[n].clock, end, u, a);
      case CutShort(vs) =>
        SlotsShrink(x, vs);
        PassBooked(x, vs, ms[n].clock, x.lap, u, a);
    }
  }

  /** The clock never stands before the lap. */
  lemma {:induction false} LapPassed(ms: seq<Moment>, es: seq<Happening>)
    requires IsHistory(ms, es)
    ensures ms[|es|].x.lap <= ms[|es|].clock
    decreases |es|
  {
    if es != [] {
      var n := |es| - 1;
      LapPassed(ms[..n + 1], es[..n]);
      assert Possible(ms[n], es[n]) && ms[n + 1] == Happens(ms[n], es[n]);
    }
  }

  // ---------- the schedule in a history ----------

  /** When a pass over x sends u, if it does. */
  function SentIn(x: Timed, vs: Visits, u: int): seq<real> {
    match Reading(vs, u)
    case None => []
    case Some(n) => if Goes(x, u, n) then [n] else []
  }

  /** When the schedule has sent u since its last push. */
  function SendTimes(ms: seq<Moment>, es: seq<Happening>, u: int): seq<real>
    requires |ms| == |es| + 1
  {
    if es == [] then []
    else
      var n := |es| - 1;
      var ts := SendTimes(ms[..n + 1], es[..n], u);
      match es[n]
      case Pushed(m) => if m.uid == u then [] else ts
      case Acknowledged(_) => ts
      case Passed(vs, _) => ts + SentIn(ms[n].x, vs, u)
      case CutShort(vs) => ts + SentIn(ms[n].x, vs, u)
  }

  /** Before the first send there is no wait. After the k-th the k-th wait of the schedule runs from that send,
      and the waits behind it are left, in their order. */
  ghost predicate AsScheduled(r: Retry, s: Slot, ts: seq<real>) {
    var waits, k := Timeouts(r), |ts|;
    k <= |waits| && s.waits == waits[k..] &&
    if k == 0 then s.timeout == 0.0 && s.deadline == None else s.deadline == Some(ts[k - 1] + waits[k - 1])
  }

  lemma PassScheduled(x: Timed, vs: Visits, t: real, r: Retry, u: int, ts: seq<real>)
    requires Round(x, vs, t) && x.lap <= t && u in x.slots && u in VisitAll(x, vs).slots
    requires AsScheduled(r, x.slots[u], ts)
    ensures AsScheduled(r, VisitAll(x, vs).slots[u], ts + SentIn(x, vs, u))
  {
    hide VisitAll, Timeouts;
    ReadingFound(vs, u);
    if Reading(vs, u).Some? {
      var i :| 0 <= i < |vs| && vs[i] == (u, Reading(vs, u).value);
      SlotAfter(x, vs, t, i);
      assert ts + [] == ts;
    } else {
      OthersUntouched(x, vs, u);
      assert ts + [] == ts;
    }
  }

  lemma PushScheduled(x: Timed, m: Msg, r: Retry, u: int, ts: seq<real>)
    requires x.retry == r && (u in x.slots ==> AsScheduled(r, x.slots[u], ts))
    requires u in PushTimed(x, m).slots
    ensures AsScheduled(r, PushTimed(x, m).slots[u], if m.uid == u then [] else ts)
  {
    assert Timeouts(r)[0..] == Timeouts(r);
  }

  lemma {:induction false} SameRetry(ms: seq<Moment>, es: seq<Happening>)
    requires IsHistory(ms, es)
    ensures ms[|es|].x.retry == ms[0].x.retry
    decreases |es|
  {
    if es != [] {
      var n := |es| - 1;
      SameRetry(ms[..n + 1], es[..n]);
      assert ms[n + 1] == Happens(ms[n], es[n]);
    }
  }

  /** Over every history each entry follows the schedule: interval after each send but the last, timeout after that. */
  lemma {:induction false} ScheduleFollowed(ms: seq<Moment>, es: seq<Happening>, u: int)
    requires IsHistory(ms, es) && u in ms[|es|].x.slots
    ensures AsScheduled(ms[0].x.retry, ms[|es|].x.slots[u], SendTimes(ms, es, u))
    decreases |es|
  {
    hide VisitAll, SentIn, AsScheduled;
    if es != [] {
      var n := |es| - 1;
      var x, ts := ms[n].x, SendTimes(ms[..n + 1], es[..n], u);
      assert Possible(ms[n], es[n]) && ms[n + 1] == Happens(ms[n], es[n]);
      LapPassed(ms[..n + 1], es[..n]);
      SameRetry(ms[..n + 1], es[..n]);
      if u in x.slots {
        ScheduleFollowed(ms[..n + 1], es[..n], u);
      }
      match es[n]
      case Pushed(m) => PushScheduled(x, m, x.retry, u, ts);
      case Acknowledged(_) =>
      case Passed(vs, end) =>
        SlotsShrink(x, vs);
        PassScheduled(x, vs, ms[n].clock, x.retry, u, ts);
      case CutShort(vs) =>
        SlotsShrink(x, vs);
        PassScheduled(x, vs, ms[n].clock, x.retry, u, ts);
    }
  }

  /** After every history, and in the next pass behind visits ws to other entries: the entry u goes out early
      exactly between the end of its countdown, by its account, and the end of its wait. */
  lemma EarlyExactlyWhen(ms: seq<Moment>, es: seq<Happening>, u: int, ws: Visits, now: real)
    requires IsHistory(ms, es) && u in ms[|es|].x.slots && !Visited(u, ws)
    ensures Early(VisitAll(ms[|es|].x, ws), u, now) <==>
            ms[|es|].x.slots[u].waits != [] &&
            match Book(ms, es, u)
            case None => false
            case Some(b) => b.due - b.debt <= now < b.due
    ensures var ts, r := SendTimes(ms, es, u), ms[0].x.retry;
            match Book(ms, es, u)
            case None => ts == []
            case Some(b) => ts != [] && b.due == ts[|ts| - 1] + if |ts| < Max(1, r.tries) then r.interval else r.timeout
  {
    hide VisitAll, Book, Timeouts, SendTimes;
    BooksBalance(ms, es, u);
    ScheduleFollowed(ms, es, u);
    OthersUntouched(ms[|es|].x, ws, u);
  }

  /** It can still go out early exactly if it has a send left, was sent, owes time, and its wait is not over. */
  lemma EarlyIffInDebt(ms: seq<Moment>, es: seq<Happening>, u: int)
    requires IsHistory(ms, es) && u in ms[|es|].x.slots
    ensures (exists now :: now > ms[|es|].clock && Early(ms[|es|].x, u, now)) <==>
            ms[|es|].x.slots[u].waits != [] &&
            match Book(ms, es, u)
            case None => false
            case Some(b) => b.debt > 0.0 && ms[|es|].clock < b.due
  {
    hide VisitAll, Book;
    var x, clock := ms[|es|].x, ms[|es|].clock;
    BooksBalance(ms, es, u);
    match Book(ms, es, u)
    case None =>
    case Some(b) =>
      if x.slots[u].waits != [] && b.debt > 0.0 && clock < b.due {
        var from := if clock < b.due - b.debt then b.due - b.debt else clock;
        assert Early(x, u, (from + b.due) / 2.0);
      }
  }

  lemma {:induction false} HistoryOnTime(ms: seq<Moment>, es: seq<Happening>)
    requires IsHistory(ms, es) && forall e :: e in es ==> !e.CutShort?
    ensures OnTime(ms[|es|].x)
    decreases |es|
  {
    hide VisitAll;
    if es != [] {
      var n := |es| - 1;
      HistoryOnTime(ms[..n + 1], es[..n]);
      LapPassed(ms[..n + 1], es[..n]);
      assert Possible(ms[n], es[n]) && ms[n + 1] == Happens(ms[n], es[n]);
      if es[n].Passed? {
        WholePassOnTime(ms[n].x, es[n].vs, ms[n].clock, es[n].end);
      }
    }
  }

  /** As long as no send has raised: a visit of u at now sends it first at once, then no sooner than interval after
      the send before, and as often as tries says; and it retires u no sooner than timeout after the last send. */
  lemma NeverEarly(ms: seq<Moment>, es: seq<Happening>, vs: Visits, i: nat)
    requires IsHistory(ms, es) && forall e :: e in es ==> !e.CutShort?
    requires Round(ms[|es|].x, vs, ms[|es|].clock) && i < |vs|
    ensures var (u, now) := vs[i];
            var y, ts, r := VisitAll(ms[|es|].x, vs[..i]), SendTimes(ms, es, u), ms[0].x.retry;
            u in y.slots && (ts == [] ==> Goes(y, u, now)) &&
            (Due(y, u, now) && ts != [] ==>
              now >= ts[|ts| - 1] + if |ts| < Max(1, r.tries) then r.interval else r.timeout) &&
            (Due(y, u, now) ==> (Goes(y, u, now) <==> |ts| < Max(1, r.tries)))
  {
    hide VisitAll, Book, Timeouts;
    var u, now, x := vs[i].0, vs[i].1, ms[|es|].x;
    HistoryOnTime(ms, es);
    LapPassed(ms, es);
    ScheduleFollowed(ms, es, u);
    assert !Visited(u, vs[..i]);
    OthersUntouched(x, vs[..i], u);
    assert SlotOnTime(x.slots[u], x.lap);
  }

  // ---------- draining ----------

  type Serializer = Msg -> seq<Byte>

  /** The message fits one frame, whose id is 0: writing it waits for nothing. */
  predicate Short(ser: Serializer, m: Msg) { |StrMessage(ser(m))| <= CHUNKSIZE }

  /** Nothing that is still to be sent needs an acknowledgement of a frame. */
  ghost predicate AllShort(ser: Serializer, x: Timed) {
    forall u :: u in x.slots && x.slots[u].waits != [] ==> Short(ser, x.slots[u].msg)
  }

  /** A visit that does not send a long message neither adds one nor takes one away. */
  lemma ShortKept(ser: Serializer, x: Timed, u: int, now: real)
    requires Goes(x, u, now) ==> Short(ser, x.slots[u].msg)
    ensures AllShort(ser, Visit(x, u, now)) <==> AllShort(ser, x)
  {
    hide Short;
    var y := Visit(x, u, now);
    if u in x.slots && !AllShort(ser, x) {
      var v :| v in x.slots && x.slots[v].waits != [] && !Short(ser, x.slots[v].msg);
      assert v in y.slots && y.slots[v].waits != [] && y.slots[v].msg == x.slots[v].msg;
    }
  }

  /** A reply of 1970 bytes takes two frames. */
  lemma TwoFramesAreLong(ser: Serializer, x: Timed, m: Msg, r: Retry)
    requires |ser(m)| == 1970 && x.slots == map[m.uid := NewSlot(m, r)]
    ensures CHUNKSIZE < |StrMessage(ser(m))| <= 2 * CHUNKSIZE && !AllShort(ser, x)
  {
    LengthField(1970);
    assert x.slots[m.uid].waits != [];
  }

  lemma LengthField(n: nat)
    requires n < 2000
    ensures |Decimals.Padded(n, STR_LEN_WIDTH)| == STR_LEN_WIDTH
  {
    assert Decimals.Pow10(STR_LEN_WIDTH) == 100000000000;
    Decimals.PaddedLength(n, STR_LEN_WIDTH);
  }

  /** A pass after the shortest wait of all does some work: an entry is sent or retired. */
  lemma ShortestWaitWorks(x: Timed, vs: Visits, t: real, u: int)
    requires Round(x, vs, t) && Whole(x, vs) && u in x.slots && vs != [] && x.lap + x.slots[u].timeout <= vs[0].1
    ensures u in Fired(x, vs) && Work(Untimed(VisitAll(x, vs)).cached) < Work(Untimed(x).cached)
  {
    hide Work;
    VisitsAreWakeUps(x, vs, t);
    var i :| 0 <= i < |vs| && vs[i].0 == u;
    assert Due(x, u, vs[i].1);
    ExpireAllWorks(Untimed(x), Fired(x, vs));
  }
}
