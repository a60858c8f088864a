/**
 Client and server together, over two queues that keep the order of messages and
 may lose any of them.
 */
module Protocol {
  import opened Bytes
  import opened Msgs
  import opened CacheSpec
  import opened Servers
  import opened Clients

  // ---------- the system ----------

  datatype Sys = Sys(
    client: Client,
    toServer: seq<Msg>,
    toClient: seq<Msg>,
    server: Server,
    unsent: Option<int>,     // the reply that the server has made and is about to send
    acked: set<int>,         // replies that an acknowledgement took out of the cache
    scheduled: map<int, nat>) // how often the schedule has sent the reply with a uid

  const NO_CALLS := Client([], Idle, map[])

  function Initial(cfg: Config): Sys {
    Sys(NO_CALLS, [], [], Started(cfg), Some(SERVER_ID_UID), {}, map[SERVER_ID_UID := 0])
  }

  datatype Move =
    | Call(request: Msg)
    | ClientTimer
    | ClientReceives
    | ServerReceives
    | ServerWakes(u: int)
    | ServerRaises // a send of the server, while it handles a message
    | LoseToServer(i: nat)
    | LoseToClient(i: nat)

  predicate Enabled(x: Sys, v: Move) {
    match v
    case Call(m) => x.client.phase == Idle && Replying(m)
    case ClientTimer => x.client.phase != Idle && x.client.requests != []
    case ClientReceives => x.toClient != [] && (x.client.phase != Idle ==> x.client.requests != [])
    case ServerReceives => x.toServer != [] && x.server.running && x.unsent.None?
    case ServerWakes(u) => x.server.running && u in x.server.cache.cached
    case ServerRaises => x.server.running
    case LoseToServer(i) => i < |x.toServer|
    case LoseToClient(i) => i < |x.toClient|
  }

  function Without(q: seq<Msg>, i: nat): seq<Msg>
    requires i < |q|
  {
    q[..i] + q[i + 1..]
  }

  /** The server takes a step, and what it sends goes into the queue. */
  function ServerSteps(cfg: Config, x: Sys, e: Event): Sys {
    var t := Step(cfg, x.server, e);
    var n := |x.server.cache.sent|;
    x.(server := t, toClient := x.toClient + if n <= |t.cache.sent| then t.cache.sent[n..] else [])
  }

  function Moves(cfg: Config, x: Sys, v: Move): Sys
    requires Enabled(x, v)
  {
    match v
    case Call(m) =>
      var c := Begin(x.client, m, cfg.retry);
      x.(client := c, toServer := x.toServer + [c.requests[LastUid(c)]])
    case ClientTimer =>
      var t := React(Talk(x.client, x.toServer), TimerEnds);
      x.(client := t.c, toServer := t.sent)
    case ClientReceives =>
      var t := React(Talk(x.client, x.toServer), Got(x.toClient[0]));
      x.(client := t.c, toClient := x.toClient[1..], toServer := t.sent)
    case ServerReceives =>
      var m := x.toServer[0];
      var y := ServerSteps(cfg, x.(toServer := x.toServer[1..]), Receive(m));
      if m.cls == Ack then
        y.(acked := if m.uid in x.server.cache.cached then x.acked + {m.uid} else x.acked)
      else if |y.server.handled| > |x.server.handled| then
        y.(scheduled := x.scheduled[m.uid := 0], unsent := Some(m.uid))
      else y
    case ServerWakes(u) =>
      var y := ServerSteps(cfg, x, Wake(u)).(unsent := if x.unsent == Some(u) then None else x.unsent);
      if x.server.cache.cached[u].left > 0 then
        y.(scheduled := x.scheduled[u := 1 + if u in x.scheduled then x.scheduled[u] else 0])
      else y
    case ServerRaises => ServerSteps(cfg, x, Raises)
    case LoseToServer(i) => x.(toServer := Without(x.toServer, i))
    case LoseToClient(i) => x.(toClient := Without(x.toClient, i))
  }

  ghost predicate IsRun(cfg: Config, run: seq<Sys>, moves: seq<Move>) {
    |run| == |moves| + 1 && run[0] == Initial(cfg) &&
    forall i :: 0 <= i < |moves| ==> Enabled(run[i], moves[i]) && run[i + 1] == Moves(cfg, run[i], moves[i])
  }

  ghost predicate Reachable(cfg: Config, x: Sys) {
    exists run, moves :: IsRun(cfg, run, moves) && x == run[|run| - 1]
  }

  // ---------- the invariant ----------

  /** What may stand before what in the queue to the server: requests in the order of
      their uids, and no request behind its own acknowledgement. */
  ghost predicate MayPrecede(a: Msg, b: Msg) {
    Replying(b) ==> (if Replying(a) then a.uid <= b.uid else a.uid != b.uid)
  }

  ghost predicate Ordered(q: seq<Msg>) {
    forall i, j :: 0 <= i < j < |q| ==> MayPrecede(q[i], q[j])
  }

  /** A message from the client: a request of a call, or the acknowledgement of a reply to a call that is over. */
  ghost predicate FromClient(c: Client, m: Msg) {
    if Replying(m) then 0 <= m.uid < |c.requests| && m == c.requests[m.uid]
    else m.cls == Ack && m.uid < |c.requests| && !Active(c, m.uid)
  }

  ghost predicate FromServer(cfg: Config, x: Sys, m: Msg) {
    if m.cls == Ack then m.uid < |x.client.requests| else m == cfg.fatal || IsAnswer(cfg, x.server, m)
  }

  ghost predicate QueueInv(x: Sys) {
    Ordered(x.toServer) && (forall m :: m in x.toServer ==> FromClient(x.client, m)) &&
    forall u :: 0 <= u < |x.client.requests| ==> x.client.requests[u].uid == u && Replying(x.client.requests[u])
  }

  /** The server has handled requests of the client, in the order of their uids, and none that is still to come. */
  ghost predicate OrderInv(x: Sys) {
    var hs := x.server.handled;
    (forall i :: 0 <= i < |hs| ==> Replying(hs[i]) && FromClient(x.client, hs[i])) &&
    (forall i, j :: 0 <= i < j < |hs| ==> hs[i].uid < hs[j].uid) &&
    (forall i, m :: 0 <= i < |hs| && m in x.toServer && Replying(m) ==> hs[i].uid <= m.uid)
  }

  /** Acknowledged replies are out of the cache, and their requests out of the queue and of the client's hands. */
  ghost predicate AckInv(x: Sys) {
    x.acked <= x.server.cache.removed &&
    (forall u :: u in x.server.cache.cached || u in x.server.cache.removed ==> u < |x.client.requests|) &&
    forall u :: u in x.acked ==>
      !Active(x.client, u) && forall m :: m in x.toServer && Replying(m) ==> m.uid != u
  }

  ghost predicate ScheduleInv(cfg: Config, x: Sys) {
    var n := |Timeouts(cfg.retry)|;
    (forall u :: u in x.server.cache.cached ==>
      u in x.scheduled && x.scheduled[u] + x.server.cache.cached[u].left == n) &&
    (forall u :: u in x.server.cache.removed && u !in x.acked ==> u in x.scheduled && x.scheduled[u] == n) &&
    x.server.cache.cached.Keys !! x.server.cache.removed
  }

  ghost predicate AnswerInv(cfg: Config, x: Sys) {
    (forall m :: m in x.toClient ==> FromServer(cfg, x, m)) &&
    (x.client.phase != Idle ==> x.client.requests != []) &&
    forall u :: u in x.client.results && x.client.results[u].Returned? ==>
      0 <= u < |x.client.requests| &&
      var m := x.client.results[u].m;
      m.uid == u && m.cls != FatalPythonErrorReply && FromServer(cfg, x, m)
  }

  ghost predicate Inv(cfg: Config, x: Sys) {
    QueueInv(x) && OrderInv(x) && AckInv(x) && ScheduleInv(cfg, x) && AnswerInv(cfg, x) && Remembers(cfg, x.server)
  }

  // ---------- the queues ----------

  lemma EnqueueOrdered(q: seq<Msg>, m: Msg)
    requires Ordered(q) && forall a :: a in q ==> MayPrecede(a, m)
    ensures Ordered(q + [m]) && forall a :: a in q + [m] <==> a in q || a == m
  {
  }

  lemma WithoutOrdered(q: seq<Msg>, i: nat)
    requires Ordered(q) && i < |q|
    ensures Ordered(Without(q, i)) && forall a :: a in Without(q, i) ==> a in q
  {
    var r := Without(q, i);
    assert forall k :: 0 <= k < |r| ==> r[k] == q[if k < i then k else k + 1];
  }

  lemma HeadComesFirst(q: seq<Msg>)
    requires Ordered(q) && q != []
    ensures Ordered(q[1..]) && forall a :: a in q[1..] ==> a in q && MayPrecede(q[0], a)
  {
    forall a | a in q[1..]
      ensures a in q && MayPrecede(q[0], a)
    {
      var j :| 0 <= j < |q[1..]| && q[1..][j] == a;
      assert a == q[j + 1];
    }
  }

  // ---------- moves of the client and of the queues ----------

  /** The server's side of the invariant does not depend on the client's phase, as long as calls only grow
      and the current call is not one that was acknowledged. */
  lemma CallKeeps(cfg: Config, x: Sys, m: Msg)
    requires Inv(cfg, x) && Enabled(x, Call(m))
    ensures Inv(cfg, Moves(cfg, x, Call(m)))
  {
    hide Remembers, IsAnswer, Ordered, Timeouts;
    var y := Moves(cfg, x, Call(m));
    assert LastUid(y.client) == |x.client.requests|;
    var r := y.client.requests[LastUid(y.client)];
    EnqueueOrdered(x.toServer, r);
    assert y.toServer == x.toServer + [r];
    forall a | FromClient(x.client, a)
      ensures FromClient(y.client, a)
    {
    }
    SameFromServer(cfg, x, y);
  }

  lemma SameFromServer(cfg: Config, x: Sys, y: Sys)
    requires x.server.handled == y.server.handled && |x.client.requests| <= |y.client.requests|
    ensures forall m :: FromServer(cfg, x, m) ==> FromServer(cfg, y, m)
  {
    hide IsAnswer;
    SameAnswers(cfg, x.server, y.server);
  }

  lemma TimerKeeps(cfg: Config, x: Sys)
    requires Inv(cfg, x) && Enabled(x, ClientTimer)
    ensures Inv(cfg, Moves(cfg, x, ClientTimer))
  {
    hide Remembers, IsAnswer, Ordered, Timeouts;
    var y := Moves(cfg, x, ClientTimer);
    var r := x.client.requests[LastUid(x.client)];
    EnqueueOrdered(x.toServer, r);
    forall a | FromClient(x.client, a)
      ensures FromClient(y.client, a)
    {
    }
    SameFromServer(cfg, x, y);
  }

  lemma ReceivesKeeps(cfg: Config, x: Sys)
    requires Inv(cfg, x) && Enabled(x, ClientReceives) && cfg.fatal.cls == FatalPythonErrorReply
    ensures Inv(cfg, Moves(cfg, x, ClientReceives))
  {
    hide Remembers, IsAnswer, Ordered, Timeouts;
    var y, m := Moves(cfg, x, ClientReceives), x.toClient[0];
    assert FromServer(cfg, x, m);
    AnswerUid(cfg, x, m);
    forall a | FromClient(x.client, a)
      ensures FromClient(y.client, a)
    {
    }
    if AckFor(m) != [] {
      EnqueueOrdered(x.toServer, AckFor(m)[0]);
      assert FromClient(y.client, AckFor(m)[0]);
    } else {
      assert y.toServer == x.toServer;
    }
    SameFromServer(cfg, x, y);
  }

  lemma AnswerUid(cfg: Config, x: Sys, m: Msg)
    requires OrderInv(x) && FromServer(cfg, x, m)
    ensures m != cfg.fatal ==> m.uid < |x.client.requests|
  {
    if m.cls != Ack && m != cfg.fatal && m != Msg(ServerIdReply, SERVER_ID_UID, Str(cfg.serverId)) {
      var k :| Answered(x.server, k, m.uid) && m == ReplyTo(cfg, x.server.handled[..k + 1]);
      assert FromClient(x.client, x.server.handled[k]);
    }
  }

  lemma LoseKeeps(cfg: Config, x: Sys, v: Move)
    requires Inv(cfg, x) && Enabled(x, v) && (v.LoseToServer? || v.LoseToClient?)
    ensures Inv(cfg, Moves(cfg, x, v))
  {
    hide Remembers, IsAnswer, Ordered, Timeouts;
    var y := Moves(cfg, x, v);
    if v.LoseToServer? {
      WithoutOrdered(x.toServer, v.i);
    } else {
      assert forall m :: m in y.toClient ==> m in x.toClient;
    }
    SameFromServer(cfg, x, y);
  }

  // ---------- moves of the server ----------

  lemma Appended(a: seq<Msg>, b: seq<Msg>)
    ensures (a + b)[|a|..] == b
    ensures forall q: seq<Msg>, m :: m in q + b ==> m in q || m in b
  {
  }

  lemma WakesKeeps(cfg: Config, x: Sys, u: int)
    requires Inv(cfg, x) && Enabled(x, ServerWakes(u))
    ensures Inv(cfg, Moves(cfg, x, ServerWakes(u)))
  {
    hide Remembers, IsAnswer, Ordered, Timeouts;
    var y := Moves(cfg, x, ServerWakes(u));
    StepRemembers(cfg, x.server, Wake(u));
    var e := x.server.cache.cached[u];
    CachedIsAnswer(cfg, x.server, u);
    Appended(x.server.cache.sent, if e.left > 0 then [e.msg] else []);
    SameFromServer(cfg, x, y);
  }

  lemma RaisesKeeps(cfg: Config, x: Sys)
    requires Inv(cfg, x) && Enabled(x, ServerRaises) && cfg.fatal.cls == FatalPythonErrorReply
    ensures Inv(cfg, Moves(cfg, x, ServerRaises))
  {
    hide Remembers, IsAnswer, Ordered, Timeouts;
    var y := Moves(cfg, x, ServerRaises);
    StepRemembers(cfg, x.server, Raises);
    assert y.server.cache.sent == x.server.cache.sent + [cfg.fatal];
    Appended(x.server.cache.sent, [cfg.fatal]);
    SameFromServer(cfg, x, y);
  }

  lemma CachedIsAnswer(cfg: Config, s: Server, u: int)
    requires Remembers(cfg, s) && u in s.cache.cached
    ensures IsAnswer(cfg, s, s.cache.cached[u].msg) && s.cache.cached[u].msg.uid == u
  {
  }

  lemma AckArrives(cfg: Config, x: Sys)
    requires Inv(cfg, x) && Enabled(x, ServerReceives) && x.toServer[0].cls == Ack
    ensures Inv(cfg, Moves(cfg, x, ServerReceives))
  {
    hide Remembers, IsAnswer, Ordered, Timeouts;
    var y, m := Moves(cfg, x, ServerReceives), x.toServer[0];
    StepRemembers(cfg, x.server, Receive(m));
    Appended(x.server.cache.sent, []);
    assert FromClient(x.client, m);
    HeadComesFirst(x.toServer);
    SameFromServer(cfg, x, y);
  }

  /** A request that the server knows already: the reply again, or the end of the server. */
  lemma KnownRequestArrives(cfg: Config, x: Sys)
    requires Inv(cfg, x) && Enabled(x, ServerReceives) && Replying(x.toServer[0])
    requires cfg.fatal.cls == FatalPythonErrorReply
    requires var u := x.toServer[0].uid; u in x.server.cache.cached || u in x.server.cache.removed
    ensures Inv(cfg, Moves(cfg, x, ServerReceives))
  {
    hide Remembers, IsAnswer, Ordered, Timeouts;
    var y, m := Moves(cfg, x, ServerReceives), x.toServer[0];
    StepRemembers(cfg, x.server, Receive(m));
    assert FromClient(x.client, m);
    HeadComesFirst(x.toServer);
    var c := x.server.cache;
    if m.uid in c.cached {
      CachedIsAnswer(cfg, x.server, m.uid);
    }
    var answer := if m.uid in c.cached then c.cached[m.uid].msg else cfg.fatal;
    assert y.server.cache.sent == c.sent + [Msg(Ack, m.uid, NoArg), answer];
    Appended(c.sent, [Msg(Ack, m.uid, NoArg), answer]);
    SameFromServer(cfg, x, y);
  }

  lemma UnknownUid(s: Server, cfg: Config, u: int)
    requires Remembers(cfg, s) && u !in s.cache.cached && u !in s.cache.removed
    ensures forall i :: 0 <= i < |s.handled| && Replying(s.handled[i]) ==> s.handled[i].uid != u
  {
    forall i | 0 <= i < |s.handled| && Replying(s.handled[i])
      ensures s.handled[i].uid != u
    {
      assert Answered(s, i, s.handled[i].uid);
    }
  }

  lemma NewRequestFields(cfg: Config, x: Sys)
    requires Enabled(x, ServerReceives) && Replying(x.toServer[0])
    requires var u := x.toServer[0].uid; u !in x.server.cache.cached && u !in x.server.cache.removed
    ensures var y, m, c := Moves(cfg, x, ServerReceives), x.toServer[0], x.server.cache;
            var hs := x.server.handled + [m];
            y.server == Step(cfg, x.server, Receive(m)) && y.server.running && y.server.handled == hs &&
            y.server.cache.removed == c.removed &&
            y.server.cache.cached == c.cached[ReplyTo(cfg, hs).uid := Entry(ReplyTo(cfg, hs), |Timeouts(cfg.retry)|)] &&
            y.client == x.client && y.toServer == x.toServer[1..] &&
            y.toClient == x.toClient + [Msg(Ack, m.uid, NoArg)] &&
            y.acked == x.acked && y.scheduled == x.scheduled[m.uid := 0]
  {
    hide ReplyTo, Timeouts;
    var m := x.toServer[0];
    Appended(x.server.cache.sent, [Msg(Ack, m.uid, NoArg)]);
  }

  /** A request that the server does not know: its uid is larger than all before it. */
  lemma NewRequestArrives(cfg: Config, x: Sys)
    requires Inv(cfg, x) && Enabled(x, ServerReceives) && Replying(x.toServer[0])
    requires var u := x.toServer[0].uid; u !in x.server.cache.cached && u !in x.server.cache.removed
    ensures Inv(cfg, Moves(cfg, x, ServerReceives))
  {
    hide Remembers, IsAnswer, Ordered, Timeouts, ReplyTo, Moves, Step;
    var y, m := Moves(cfg, x, ServerReceives), x.toServer[0];
    var hs := x.server.handled;
    NewRequestFields(cfg, x);
    StepRemembers(cfg, x.server, Receive(m));
    ReplyUid(cfg, hs + [m]);
    UnknownUid(x.server, cfg, m.uid);
    assert FromClient(x.client, m);
    HeadComesFirst(x.toServer);
    forall a | FromServer(cfg, x, a)
      ensures FromServer(cfg, y, a)
    {
      if a.cls != Ack && a != cfg.fatal {
        AnswersStay(cfg, x.server, y.server, a);
      }
    }
  }

  // ---------- runs ----------

  lemma MoveKeeps(cfg: Config, x: Sys, v: Move)
    requires Inv(cfg, x) && Enabled(x, v) && cfg.fatal.cls == FatalPythonErrorReply
    ensures Inv(cfg, Moves(cfg, x, v))
  {
    match v
    case Call(m) => CallKeeps(cfg, x, m);
    case ClientTimer => TimerKeeps(cfg, x);
    case ClientReceives => ReceivesKeeps(cfg, x);
    case ServerWakes(u) => WakesKeeps(cfg, x, u);
    case ServerRaises => RaisesKeeps(cfg, x);
    case LoseToServer(_) => LoseKeeps(cfg, x, v);
    case LoseToClient(_) => LoseKeeps(cfg, x, v);
    case ServerReceives =>
      var m := x.toServer[0];
      assert FromClient(x.client, m);
      if m.cls == Ack {
        AckArrives(cfg, x);
      } else if m.uid in x.server.cache.cached || m.uid in x.server.cache.removed {
        KnownRequestArrives(cfg, x);
      } else {
        NewRequestArrives(cfg, x);
      }
  }

  lemma {:induction false} RunKeeps(cfg: Config, run: seq<Sys>, moves: seq<Move>)
    requires IsRun(cfg, run, moves) && cfg.fatal.cls == FatalPythonErrorReply
    ensures Inv(cfg, run[|run| - 1])
    decreases |moves|
  {
    if moves == [] {
      assert Remembers(cfg, Started(cfg)) by { RunRemembers(cfg, []); }
    } else {
      hide Inv;
      var n := |moves| - 1;
      RunKeeps(cfg, run[..n + 1], moves[..n]);
      MoveKeeps(cfg, run[n], moves[n]);
    }
  }

  lemma ReachableKeeps(cfg: Config, x: Sys)
    requires Reachable(cfg, x) && cfg.fatal.cls == FatalPythonErrorReply
    ensures Inv(cfg, x)
  {
    hide Inv;
    var run, moves :| IsRun(cfg, run, moves) && x == run[|run| - 1];
    RunKeeps(cfg, run, moves);
  }

  /** Whatever a call returned carries its uid; and if it is not an acknowledgement it is the reply of
      the one execution of that call's request, computed after the executions before it and no others. */
  lemma AnswerIntegrity(cfg: Config, x: Sys, u: int)
    requires Reachable(cfg, x) && cfg.fatal.cls == FatalPythonErrorReply
    requires u in x.client.results && x.client.results[u].Returned?
    ensures 0 <= u < |x.client.requests| && x.client.results[u].m.uid == u
    ensures x.client.results[u].m.cls != Ack ==>
              exists k :: OnlyExecution(x, k, u) && Answers(cfg, x.server.handled[..k + 1], x.client.results[u].m)
  {
    hide Remembers, Answers, ReplyTo;
    ReachableKeeps(cfg, x);
    var m := x.client.results[u].m;
    if m.cls != Ack {
      assert FromServer(cfg, x, m);
      IsTheAnswer(cfg, x.server, m);
      var k :| Answered(x.server, k, u) && Answers(cfg, x.server.handled[..k + 1], m);
      assert FromClient(x.client, x.server.handled[k]);
      assert OnlyExecution(x, k, u);
    }
  }

  /** The request of call u was the k-th message to be handled, and no other time. */
  ghost predicate OnlyExecution(x: Sys, k: int, u: int)
    requires 0 <= u < |x.client.requests|
  {
    0 <= k < |x.server.handled| && x.server.handled[k] == x.client.requests[u] &&
    forall i :: 0 <= i < |x.server.handled| && i != k ==> x.server.handled[i].uid != u
  }

  /** Requests are executed in the order of their calls, each at most once. */
  lemma ExecutedInOrder(cfg: Config, x: Sys, i: int, j: int)
    requires Reachable(cfg, x) && cfg.fatal.cls == FatalPythonErrorReply
    requires 0 <= i < j < |x.server.handled|
    ensures 0 <= x.server.handled[i].uid < x.server.handled[j].uid < |x.client.requests|
    ensures x.server.handled[j] == x.client.requests[x.server.handled[j].uid]
  {
    ReachableKeeps(cfg, x);
    assert FromClient(x.client, x.server.handled[i]) && FromClient(x.client, x.server.handled[j]);
  }

  /** No copy of a request follows its acknowledgement in the queue to the server. */
  lemma NoRequestBehindAck(cfg: Config, x: Sys, i: int, j: int)
    requires Reachable(cfg, x) && cfg.fatal.cls == FatalPythonErrorReply
    requires 0 <= i < j < |x.toServer| && x.toServer[i].cls == Ack && x.toServer[i].uid == x.toServer[j].uid
    ensures !Replying(x.toServer[j])
  {
    ReachableKeeps(cfg, x);
    assert MayPrecede(x.toServer[i], x.toServer[j]);
  }

  /** The server gives up on a repeated request only when the reply had been sent as often as its
      schedule says, max(1, tries) times, and no acknowledgement had come. */
  lemma NoFalseAlreadyRemoved(cfg: Config, x: Sys)
    requires Reachable(cfg, x) && cfg.fatal.cls == FatalPythonErrorReply
    requires Enabled(x, ServerReceives) && !Moves(cfg, x, ServerReceives).server.running
    ensures var u := x.toServer[0].uid;
            Replying(x.toServer[0]) && u in x.server.cache.removed && u !in x.acked &&
            u in x.scheduled && x.scheduled[u] == Max(1, cfg.retry.tries)
  {
    hide Remembers, Ordered;
    ReachableKeeps(cfg, x);
    assert FromClient(x.client, x.toServer[0]);
  }

  /** In every reachable state: what the schedule has sent of a reply, and what it still will, is max(1, tries);
      and a reply that left the cache without an acknowledgement was sent that often. */
  lemma ScheduleKept(cfg: Config, x: Sys, u: int)
    requires Reachable(cfg, x) && cfg.fatal.cls == FatalPythonErrorReply
    requires u in x.server.cache.cached || (u in x.server.cache.removed && u !in x.acked)
    ensures u in x.scheduled &&
            x.scheduled[u] + (if u in x.server.cache.cached then x.server.cache.cached[u].left else 0) ==
            Max(1, cfg.retry.tries)
  {
    hide Remembers, Ordered;
    ReachableKeeps(cfg, x);
  }

  // ---------- an acknowledgement as the answer ----------

  lemma ReachesNext(cfg: Config, x: Sys, v: Move)
    requires Reachable(cfg, x) && Enabled(x, v)
    ensures Reachable(cfg, Moves(cfg, x, v))
  {
    hide Moves, Enabled;
    var run, moves :| IsRun(cfg, run, moves) && x == run[|run| - 1];
    var run', moves' := run + [Moves(cfg, x, v)], moves + [v];
    assert forall i :: 0 <= i < |run| ==> run'[i] == run[i];
    assert forall i :: 0 <= i < |moves| ==> moves'[i] == moves[i];
    assert IsRun(cfg, run', moves') && Moves(cfg, x, v) == run'[|run'| - 1];
  }

  lemma ReachesInitial(cfg: Config)
    ensures Reachable(cfg, Initial(cfg))
  {
    assert IsRun(cfg, [Initial(cfg)], []);
  }

  const FIRST_REQUEST := Msg(ServerIdRequest, 0, NoArg)
  const FIRST_ACK := Msg(Ack, 0, NoArg)

  /** The server has announced its id, and that was lost; the first request is on its way. */
  lemma FirstRequestSent(cfg: Config) returns (x: Sys)
    ensures Reachable(cfg, x) && x.toServer == [FIRST_REQUEST] && x.toClient == [] && x.unsent == None
    ensures x.server == Step(cfg, Started(cfg), Wake(SERVER_ID_UID)) && x.server.running
    ensures x.client == Client([FIRST_REQUEST], Collecting(|Timeouts(cfg.retry)| - 1), map[])
  {
    hide Reachable, Timeouts;
    var x0 := Initial(cfg);
    ReachesInitial(cfg);
    var x1 := Moves(cfg, x0, ServerWakes(SERVER_ID_UID));
    ReachesNext(cfg, x0, ServerWakes(SERVER_ID_UID));
    assert x1.toClient == [Hello(cfg)];
    var x2 := Moves(cfg, x1, LoseToClient(0));
    ReachesNext(cfg, x1, LoseToClient(0));
    assert x2.toClient == [];
    x := Moves(cfg, x2, Call(FIRST_REQUEST));
    ReachesNext(cfg, x2, Call(FIRST_REQUEST));
  }

  lemma ServesFirst(cfg: Config)
    ensures var s0 := Step(cfg, Started(cfg), Wake(SERVER_ID_UID)); var s := Step(cfg, s0, Receive(FIRST_REQUEST));
            s0.running && s.running && s.cache.sent == s0.cache.sent + [FIRST_ACK] &&
            s0.handled == [] && s.handled == [FIRST_REQUEST] &&
            0 in s.cache.cached && s.cache.cached[0].left > 0
  {
    var s0 := Step(cfg, Started(cfg), Wake(SERVER_ID_UID));
    assert |Timeouts(cfg.retry)| >= 1;
  }

  /** The first request was received and acknowledged, and the reply sent at once. */
  lemma FirstRequestServed(cfg: Config) returns (x: Sys)
    ensures Reachable(cfg, x) && x.toServer == [] && x.server.running && x.unsent == None
    ensures |x.toClient| == 2 && x.toClient[0] == FIRST_ACK
    ensures x.client == Client([FIRST_REQUEST], Collecting(|Timeouts(cfg.retry)| - 1), map[])
    ensures 0 in x.server.cache.cached
  {
    hide Reachable, Timeouts, Started, Step, Moves;
    var x0 := FirstRequestSent(cfg);
    ServesFirst(cfg);
    var x1 := ServerTakes(cfg, x0);
    ReachesNext(cfg, x0, ServerReceives);
    x := ServerSends(cfg, x1);
    ReachesNext(cfg, x1, ServerWakes(0));
  }

  lemma ServerTakes(cfg: Config, x: Sys) returns (y: Sys)
    requires x.toServer == [FIRST_REQUEST] && x.server.running && x.unsent == None
    requires var s := Step(cfg, x.server, Receive(FIRST_REQUEST));
             s.running && s.cache.sent == x.server.cache.sent + [FIRST_ACK] && |s.handled| > |x.server.handled|
    ensures Enabled(x, ServerReceives) && y == Moves(cfg, x, ServerReceives)
    ensures y.toServer == [] && y.toClient == x.toClient + [FIRST_ACK] && y.client == x.client && y.unsent == Some(0)
    ensures y.server == Step(cfg, x.server, Receive(FIRST_REQUEST))
  {
    hide Step;
    y := Moves(cfg, x, ServerReceives);
    Appended(x.server.cache.sent, [FIRST_ACK]);
  }

  lemma ServerSends(cfg: Config, x: Sys) returns (y: Sys)
    requires x.server.running && 0 in x.server.cache.cached && x.server.cache.cached[0].left > 0 && x.unsent == Some(0)
    ensures Enabled(x, ServerWakes(0)) && y == Moves(cfg, x, ServerWakes(0))
    ensures y.toClient == x.toClient + [x.server.cache.cached[0].msg] && y.unsent == None && y.server.running
    ensures y.toServer == x.toServer && y.client == x.client && 0 in y.server.cache.cached
  {
    y := Moves(cfg, x, ServerWakes(0));
    Appended(x.server.cache.sent, [x.server.cache.cached[0].msg]);
  }

  /** The reply is lost; a second copy of the request brings a second acknowledgement, ahead of the reply. */
  lemma RequestRepeated(cfg: Config, x: Sys) returns (y: Sys)
    requires Reachable(cfg, x) && x.toServer == [] && x.server.running && x.unsent == None
    requires |x.toClient| == 2 && x.toClient[0] == FIRST_ACK
    requires x.client.requests == [FIRST_REQUEST] && x.client.phase.Collecting? && x.client.phase.left > 0
    requires 0 in x.server.cache.cached
    ensures Reachable(cfg, y) && |y.toClient| == 3 && y.toClient[0] == y.toClient[1] == FIRST_ACK
    ensures y.client.requests == [FIRST_REQUEST] && y.client.phase.Collecting?
  {
    hide Reachable;
    var x0 := Moves(cfg, x, LoseToClient(1));
    ReachesNext(cfg, x, LoseToClient(1));
    assert x0.toClient == [FIRST_ACK];
    var x1 := Moves(cfg, x0, ClientTimer);
    ReachesNext(cfg, x0, ClientTimer);
    assert x1.toServer == [FIRST_REQUEST];
    y := Moves(cfg, x1, ServerReceives);
    ReachesNext(cfg, x1, ServerReceives);
    var n, reply := x.server.cache.sent, x.server.cache.cached[0].msg;
    assert y.server.cache.sent == n + [FIRST_ACK, reply];
    Appended(n, [FIRST_ACK, reply]);
  }

  lemma AckEndsCall(cfg: Config, x: Sys)
    requires Reachable(cfg, x) && x.client.requests == [FIRST_REQUEST] && x.client.phase.Awaiting?
    requires x.toClient != [] && x.toClient[0] == FIRST_ACK
    ensures exists y :: Reachable(cfg, y) && 0 in y.client.results && y.client.results[0] == Returned(FIRST_ACK)
  {
    hide Reachable;
    ReachesNext(cfg, x, ClientReceives);
  }

  /** The test for a reply looks at the request instead of the answer. With every retry schedule
      some run returns a late or a repeated acknowledgement as the answer of a call. */
  lemma AckMayBeReturned(cfg: Config)
    ensures exists x :: Reachable(cfg, x) && 0 in x.client.results && x.client.results[0] == Returned(FIRST_ACK)
  {
    hide Reachable, Timeouts;
    var x := FirstRequestServed(cfg);
    if |Timeouts(cfg.retry)| > 1 {
      x := RequestRepeated(cfg, x);
      ReachesNext(cfg, x, ClientReceives);
      AckEndsCall(cfg, Moves(cfg, x, ClientReceives));
    } else {
      ReachesNext(cfg, x, ClientTimer);
      AckEndsCall(cfg, Moves(cfg, x, ClientTimer));
    }
  }
}
