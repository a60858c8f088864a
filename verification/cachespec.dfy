/** The reply cache as a value: what is cached with how many scheduled sends left, what was retired, what was sent. */
module CacheSpec {
  import opened Bytes
  import opened Msgs

  // ---------- the retry schedule ----------

  datatype Retry = Retry(tries: int, interval: real, timeout: real)

  /** Retry.timeouts: the waits after each send. */
  function Timeouts(r: Retry): (w: seq<real>)
    ensures |w| == Max(1, r.tries)
    ensures w[|w| - 1] == r.timeout && forall i :: 0 <= i < |w| - 1 ==> w[i] == r.interval
  {
    seq(Max(0, r.tries - 1), _ => r.interval) + [r.timeout]
  }

  // ---------- the cache ----------

  datatype Entry = Entry(msg: Msg, left: nat)

  datatype Cache = Cache(cached: map<int, Entry>, removed: set<int>, sent: seq<Msg>)

  function Push(c: Cache, m: Msg, r: Retry): Cache {
    c.(cached := c.cached[m.uid := Entry(m, |Timeouts(r)|)])
  }

  function Remove(c: Cache, u: int): Cache {
    if u in c.cached then c.(cached := c.cached - {u}, removed := c.removed + {u}) else c
  }

  /** The wait of entry u is over: it is sent again, or retired when its schedule has run out. */
  function Expire(c: Cache, u: int): Cache {
    if u !in c.cached then c
    else
      var e := c.cached[u];
      if e.left > 0 then c.(cached := c.cached[u := e.(left := e.left - 1)], sent := c.sent + [e.msg])
      else Remove(c, u)
  }

  function ExpireAll(c: Cache, us: seq<int>): Cache {
    if us == [] then c else Expire(ExpireAll(c, us[..|us| - 1]), us[|us| - 1])
  }

  // ---------- draining ----------

  /** One ticket for every send left, and one for the retirement, of every entry. */
  ghost function Tickets(m: map<int, Entry>): set<(int, nat)> {
    set u, k | u in m && 0 <= k <= m[u].left :: (u, k)
  }

  ghost function Work(m: map<int, Entry>): nat { |Tickets(m)| }

  /** Every wake-up of an entry is one unit of work, whether it sends or retires. */
  lemma ExpireWorks(c: Cache, u: int)
    requires u in c.cached
    ensures Work(Expire(c, u).cached) == Work(c.cached) - 1
  {
    var ticket := (u, c.cached[u].left);
    assert ticket in Tickets(c.cached);
    assert Tickets(Expire(c, u).cached) == Tickets(c.cached) - {ticket};
  }

  ghost predicate Unique(us: seq<int>) {
    forall i, j :: 0 <= i < j < |us| ==> us[i] != us[j]
  }

  lemma {:induction false} ExpireAllOthers(c: Cache, us: seq<int>)
    ensures forall u :: u !in us ==>
              (u in ExpireAll(c, us).cached <==> u in c.cached) &&
              (u in c.cached ==> ExpireAll(c, us).cached[u] == c.cached[u]) &&
              (u in ExpireAll(c, us).removed <==> u in c.removed)
  {
    if us != [] {
      ExpireAllOthers(c, us[..|us| - 1]);
      assert us == us[..|us| - 1] + [us[|us| - 1]];
    }
  }

  lemma {:induction false} ExpireAllWorks(c: Cache, us: seq<int>)
    requires Unique(us) && forall u :: u in us ==> u in c.cached
    ensures Work(ExpireAll(c, us).cached) == Work(c.cached) - |us|
  {
    if us != [] {
      var front := us[..|us| - 1];
      ExpireAllWorks(c, front);
      ExpireAllOthers(c, front);
      ExpireWorks(ExpireAll(c, front), us[|us| - 1]);
    }
  }

  /** Nothing but the schedule and remove() takes an entry out, and what goes out is remembered. */
  lemma {:induction false} ExpireAllRemembers(c: Cache, us: seq<int>)
    ensures var d := ExpireAll(c, us);
            d.cached.Keys + d.removed == c.cached.Keys + c.removed &&
            c.removed <= d.removed && d.cached.Keys <= c.cached.Keys && c.sent <= d.sent
    ensures forall u :: u in ExpireAll(c, us).cached ==> ExpireAll(c, us).cached[u].msg == c.cached[u].msg
  {
    if us != [] {
      ExpireAllRemembers(c, us[..|us| - 1]);
    }
  }

  /** An entry that is woken up and has a send left is sent. */
  lemma {:induction false} FiredIsSent(c: Cache, us: seq<int>, u: int)
    ensures c.sent <= ExpireAll(c, us).sent
    ensures u in us && u in c.cached && c.cached[u].left > 0 ==>
              c.cached[u].msg in ExpireAll(c, us).sent[|c.sent|..]
  {
    if us != [] {
      var n := |us| - 1;
      var d, e := ExpireAll(c, us[..n]), ExpireAll(c, us);
      FiredIsSent(c, us[..n], u);
      assert e.sent[|c.sent|..] == d.sent[|c.sent|..] + e.sent[|d.sent|..];
      assert us == us[..n] + [us[n]];
      if u !in us[..n] {
        ExpireAllOthers(c, us[..n]);
      }
    }
  }

  // ---------- the schedule ----------

  ghost predicate Keyed(c: Cache) {
    forall u :: u in c.cached ==> c.cached[u].msg.uid == u
  }

  /** How often something with uid u was sent. */
  function Sends(sent: seq<Msg>, u: int): nat {
    if sent == [] then 0
    else Sends(sent[..|sent| - 1], u) + if sent[|sent| - 1].uid == u then 1 else 0
  }

  function Left(c: Cache, u: int): nat {
    if u in c.cached then c.cached[u].left else 0
  }

  /** The schedule trades a send left for a send made, for every reply. */
  lemma {:induction false} ExpireAllConserves(c: Cache, us: seq<int>, u: int)
    requires Keyed(c)
    ensures var d := ExpireAll(c, us);
            Keyed(d) && Sends(d.sent, u) + Left(d, u) == Sends(c.sent, u) + Left(c, u)
  {
    if us != [] {
      var d := ExpireAll(c, us[..|us| - 1]);
      ExpireAllConserves(c, us[..|us| - 1], u);
      var e := Expire(d, us[|us| - 1]);
      assert e.sent != d.sent ==> e.sent[..|e.sent| - 1] == d.sent;
    }
  }

  /** From c to d no entry was lost, and no send was lost or added. */
  ghost predicate Accounted(c: Cache, d: Cache) {
    c.cached.Keys + c.removed == d.cached.Keys + d.removed &&
    forall u :: Sends(d.sent, u) + Left(d, u) == Sends(c.sent, u) + Left(c, u)
  }

  lemma ExpireAllAccounted(c: Cache, us: seq<int>)
    requires Keyed(c)
    ensures Accounted(c, ExpireAll(c, us))
  {
    ExpireAllRemembers(c, us);
    forall u
      ensures var d := ExpireAll(c, us); Sends(d.sent, u) + Left(d, u) == Sends(c.sent, u) + Left(c, u)
    {
      ExpireAllConserves(c, us, u);
    }
  }

  /** A reply that nobody acknowledges is sent max(1, tries) times by the schedule before it is retired. */
  lemma WholeSchedule(c: Cache, m: Msg, r: Retry, us: seq<int>)
    requires Keyed(c) && m.uid !in ExpireAll(Push(c, m, r), us).cached
    ensures Sends(ExpireAll(Push(c, m, r), us).sent, m.uid) == Sends(c.sent, m.uid) + Max(1, r.tries)
  {
    ExpireAllConserves(Push(c, m, r), us, m.uid);
  }

  lemma NoWorkLeft(m: map<int, Entry>)
    ensures Work(m) == 0 <==> m.Keys == {}
  {
    if m.Keys != {} {
      var u := SomeMember(m.Keys);
      assert (u, 0) in Tickets(m);
    }
  }
}
