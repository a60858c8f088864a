/** The server half: acknowledge, then answer from the cache or run the handler once. */
module Servers {
  import opened Bytes
  import opened Encodings
  import opened Msgs
  import opened CacheSpec
  import opened Caches
  import opened TimedCache

  /** What the server does not decide itself. The value of a command is what the
      interpreter makes of it after all commands before it. */
  datatype Config = Config(
    retry: Retry,
    serverId: Text,
    eval: seq<Arg> -> Arg,
    fatal: Msg,
    long: Msg -> bool) // takes more than one frame

  datatype Server = Server(
    cache: Cache,
    handled: seq<Msg>, // the messages whose handler ran, in order
    running: bool)

  predicate IsRequest(m: Msg) {
    m.cls in {ExecCommandRequest, ExitRequest, ServerIdRequest, SendCommandRequest}
  }

  /** Requests whose handler sends a reply. */
  predicate Replying(m: Msg) { m.cls == ExecCommandRequest || m.cls == ServerIdRequest }

  function Commands(ms: seq<Msg>): seq<Arg> {
    if ms == [] then []
    else
      var m := ms[|ms| - 1];
      Commands(ms[..|ms| - 1]) + if m.cls in {ExecCommandRequest, SendCommandRequest} then [m.arg] else []
  }

  /** The reply that the handler of the last of ms makes. */
  function ReplyTo(cfg: Config, ms: seq<Msg>): Msg
    requires ms != []
  {
    var m := ms[|ms| - 1];
    if m.cls == ExecCommandRequest then Msg(ExecCommandReply, m.uid, cfg.eval(Commands(ms)))
    else Msg(ServerIdReply, m.uid, Str(cfg.serverId))
  }

  // ---------- what a reply is ----------

  /** cs are the arguments of the messages of ms that ask for a command, which stand at exactly the positions at. */
  ghost predicate AsksFor(ms: seq<Msg>, at: seq<int>, cs: seq<Arg>) {
    |at| == |cs| && (forall i, j :: 0 <= i < j < |at| ==> at[i] < at[j]) &&
    (forall p :: p in at <==> 0 <= p < |ms| && (ms[p].cls == ExecCommandRequest || ms[p].cls == SendCommandRequest)) &&
    forall i :: 0 <= i < |at| && 0 <= at[i] < |ms| ==> cs[i] == ms[at[i]].arg
  }

  /** m answers the last of ms: a command with its value behind all commands before
      it, its own last; a request for the server id with that id. */
  ghost predicate Answers(cfg: Config, ms: seq<Msg>, m: Msg) {
    ms != [] &&
    var q := ms[|ms| - 1];
    m.uid == q.uid &&
    (q.cls == ExecCommandRequest ==>
      m.cls == ExecCommandReply &&
      exists at, cs :: AsksFor(ms, at, cs) && cs != [] && at[|at| - 1] == |ms| - 1 && m.arg == cfg.eval(cs)) &&
    (q.cls == ServerIdRequest ==> m.cls == ServerIdReply && m.arg == Str(cfg.serverId))
  }

  lemma AsksOn(ms: seq<Msg>, at: seq<int>, cs: seq<Arg>, m: Msg)
    requires AsksFor(ms, at, cs)
    ensures if m.cls == ExecCommandRequest || m.cls == SendCommandRequest
            then AsksFor(ms + [m], at + [|ms|], cs + [m.arg])
            else AsksFor(ms + [m], at, cs)
  {
    var ns := ms + [m];
    assert forall p :: 0 <= p < |ms| ==> ns[p] == ms[p];
    assert forall i :: 0 <= i < |at| ==> at[i] in at;
    assert forall p :: p in at + [|ms|] <==> p in at || p == |ms|;
  }

  lemma OneMoreCommand(ms: seq<Msg>)
    requires ms != []
    ensures var m, cs := ms[|ms| - 1], Commands(ms[..|ms| - 1]);
            Commands(ms) == if m.cls == ExecCommandRequest || m.cls == SendCommandRequest then cs + [m.arg] else cs
  {
    assert Commands(ms[..|ms| - 1]) + [] == Commands(ms[..|ms| - 1]);
  }

  lemma {:induction false} CommandsAskedFor(ms: seq<Msg>) returns (at: seq<int>)
    ensures AsksFor(ms, at, Commands(ms))
    ensures ms != [] && (ms[|ms| - 1].cls == ExecCommandRequest || ms[|ms| - 1].cls == SendCommandRequest) ==>
              at != [] && at[|at| - 1] == |ms| - 1
  {
    hide AsksFor, Commands;
    if ms == [] {
      at := [];
      NoCommands();
    } else {
      var front, m := ms[..|ms| - 1], ms[|ms| - 1];
      at := CommandsAskedFor(front);
      AsksOn(front, at, Commands(front), m);
      OneMoreCommand(ms);
      assert front + [m] == ms;
      if m.cls == ExecCommandRequest || m.cls == SendCommandRequest {
        at := at + [|front|];
      }
    }
  }

  lemma NoCommands()
    ensures AsksFor([], [], []) && Commands([]) == []
  {
  }

  lemma ReplyAnswers(cfg: Config, ms: seq<Msg>)
    requires ms != [] && Replying(ms[|ms| - 1])
    ensures Answers(cfg, ms, ReplyTo(cfg, ms))
  {
    hide AsksFor, Commands;
    var at := CommandsAskedFor(ms);
    AsManyArguments(ms, at, Commands(ms));
  }

  lemma AsManyArguments(ms: seq<Msg>, at: seq<int>, cs: seq<Arg>)
    requires AsksFor(ms, at, cs)
    ensures |at| == |cs|
  {
  }

  /** There is only one such row of commands, and so only one answer. */
  lemma OneAnswer(cfg: Config, ms: seq<Msg>, m: Msg)
    requires ms != [] && Replying(ms[|ms| - 1]) && Answers(cfg, ms, m)
    ensures m == ReplyTo(cfg, ms)
  {
    hide AsksFor, Commands;
    var q := ms[|ms| - 1];
    if q.cls == ExecCommandRequest {
      var at, cs :| AsksFor(ms, at, cs) && m.arg == cfg.eval(cs);
      var at' := CommandsAskedFor(ms);
      SameCommands(ms, at, cs, at', Commands(ms));
    }
  }

  lemma {:induction false} SameCommands(ms: seq<Msg>, at: seq<int>, cs: seq<Arg>, at': seq<int>, cs': seq<Arg>)
    requires AsksFor(ms, at, cs) && AsksFor(ms, at', cs')
    ensures cs == cs'
  {
    if ms == [] {
      HasFirst(at);
      HasFirst(at');
    } else {
      hide AsksFor;
      var b, ds := WithoutLast(ms, at, cs);
      var b', ds' := WithoutLast(ms, at', cs');
      SameCommands(ms[..|ms| - 1], b, ds, b', ds');
    }
  }

  lemma LastAsked(ms: seq<Msg>, at: seq<int>, cs: seq<Arg>)
    requires ms != [] && AsksFor(ms, at, cs)
    requires ms[|ms| - 1].cls == ExecCommandRequest || ms[|ms| - 1].cls == SendCommandRequest
    ensures at != [] && at[|at| - 1] == |ms| - 1
  {
    assert |ms| - 1 in at;
    var i :| 0 <= i < |at| && at[i] == |ms| - 1;
    assert at[|at| - 1] in at;
  }

  lemma WithoutLast(ms: seq<Msg>, at: seq<int>, cs: seq<Arg>) returns (b: seq<int>, ds: seq<Arg>)
    requires ms != [] && AsksFor(ms, at, cs)
    ensures AsksFor(ms[..|ms| - 1], b, ds)
    ensures var m := ms[|ms| - 1];
            cs == ds + if m.cls == ExecCommandRequest || m.cls == SendCommandRequest then [m.arg] else []
  {
    var n := |ms| - 1;
    assert forall p :: 0 <= p < n ==> ms[..n][p] == ms[p];
    assert forall i :: 0 <= i < |at| ==> at[i] in at;
    if ms[n].cls == ExecCommandRequest || ms[n].cls == SendCommandRequest {
      LastAsked(ms, at, cs);
      var i := |at| - 1;
      b, ds := at[..i], cs[..i];
      assert forall p :: p in at <==> p in b || p == n by { LastOf(at); }
    } else {
      b, ds := at, cs;
    }
  }

  lemma HasFirst(at: seq<int>)
    ensures at == [] || at[0] in at
  {
  }

  lemma LastOf(at: seq<int>)
    requires at != []
    ensures forall p :: p in at <==> p in at[..|at| - 1] || p == at[|at| - 1]
  {
    assert at == at[..|at| - 1] + [at[|at| - 1]];
  }

  const SERVER_ID_UID := -1

  function Hello(cfg: Config): Msg { Msg(ServerIdReply, SERVER_ID_UID, Str(cfg.serverId)) }

  /** serve: the server id goes into the cache before the first message is read. */
  function Started(cfg: Config): Server {
    Server(Push(Cache(map[], {}, []), Hello(cfg), cfg.retry), [], true)
  }

  function SendNow(c: Cache, m: Msg): Cache { c.(sent := c.sent + [m]) }

  /** Any exception: a last message, and the end of serve. */
  function Die(cfg: Config, s: Server): Server {
    s.(cache := SendNow(s.cache, cfg.fatal), running := false)
  }

  /** _handle_msg */
  function RunHandler(cfg: Config, s: Server, m: Msg): Server {
    if !IsRequest(m) then Die(cfg, s)
    else
      var t := s.(handled := s.handled + [m]);
      if m.cls == ExitRequest then Die(cfg, t)
      else if m.cls == SendCommandRequest then t
      else t.(cache := Push(t.cache, ReplyTo(cfg, t.handled), cfg.retry))
  }

  /** _reply_cached_or_handle_msg */
  function ReplyCachedOrHandle(cfg: Config, s: Server, m: Msg): Server {
    if m.uid in s.cache.cached then s.(cache := SendNow(s.cache, s.cache.cached[m.uid].msg))
    else if m.uid in s.cache.removed then Die(cfg, s)
    else RunHandler(cfg, s, m)
  }

  /** handle_next_msg, up to the wake-ups of the cache. */
  function Handle(cfg: Config, s: Server, m: Msg): Server {
    if m.cls == FatalPythonErrorReply then Die(cfg, s) // parsing it raises
    else if m.cls == Ack then s.(cache := CacheSpec.Remove(s.cache, m.uid))
    else
      var t := if m.cls == SendCommandRequest then s else s.(cache := SendNow(s.cache, Msg(Ack, m.uid, NoArg)));
      ReplyCachedOrHandle(cfg, t, m)
  }

  // ---------- runs of the server on anything that may arrive ----------

  /** Raises: what is read does not parse, or a send within the handling of a message raises. */
  datatype Event = Receive(m: Msg) | Raises | Wake(u: int)

  function Step(cfg: Config, s: Server, e: Event): Server {
    if !s.running then s
    else
      match e
      case Receive(m) => Handle(cfg, s, m)
      case Raises => Die(cfg, s)
      case Wake(u) => s.(cache := Expire(s.cache, u))
  }

  function Run(cfg: Config, es: seq<Event>): Server {
    if es == [] then Started(cfg) else Step(cfg, Run(cfg, es[..|es| - 1]), es[|es| - 1])
  }

  /** The k-th handled message is a replying request with uid u. */
  ghost predicate Answered(s: Server, k: int, u: int) {
    0 <= k < |s.handled| && Replying(s.handled[k]) && s.handled[k].uid == u
  }

  /** m is the reply of the k-th handled message, or the announcement of the server id. */
  ghost predicate IsAnswer(cfg: Config, s: Server, m: Msg) {
    (m == Msg(ServerIdReply, SERVER_ID_UID, Str(cfg.serverId))) ||
    exists k :: Answered(s, k, m.uid) && m == ReplyTo(cfg, s.handled[..k + 1])
  }

  ghost predicate Remembers(cfg: Config, s: Server) {
    (forall k, u :: Answered(s, k, u) ==> u in s.cache.cached || u in s.cache.removed) &&
    (forall k, l, u :: Answered(s, k, u) && Answered(s, l, u) ==> k == l) &&
    (forall u :: u in s.cache.cached ==> s.cache.cached[u].msg.uid == u && IsAnswer(cfg, s, s.cache.cached[u].msg)) &&
    (forall m :: m in s.cache.sent ==> m.cls == Ack || m == cfg.fatal || IsAnswer(cfg, s, m))
  }

  lemma AnswersStay(cfg: Config, s: Server, t: Server, m: Msg)
    requires s.handled <= t.handled && IsAnswer(cfg, s, m)
    ensures IsAnswer(cfg, t, m)
  {
    if k :| Answered(s, k, m.uid) && m == ReplyTo(cfg, s.handled[..k + 1]) {
      assert t.handled[..k + 1] == s.handled[..k + 1];
      assert Answered(t, k, m.uid);
    }
  }

  lemma HandlerRemembers(cfg: Config, s: Server, m: Msg)
    requires Remembers(cfg, s) && m.uid !in s.cache.cached && m.uid !in s.cache.removed && m.cls != Ack
    ensures Remembers(cfg, RunHandler(cfg, s, m))
  {
    hide ReplyTo, Timeouts;
    var t := RunHandler(cfg, s, m);
    forall x | IsAnswer(cfg, s, x)
      ensures IsAnswer(cfg, t, x)
    {
      AnswersStay(cfg, s, t, x);
    }
    forall k, u | Answered(t, k, u) && k < |s.handled|
      ensures Answered(s, k, u)
    {
    }
    if Replying(m) {
      assert t.handled[..|s.handled| + 1] == t.handled;
      assert Answered(t, |s.handled|, m.uid);
      ReplyUid(cfg, t.handled);
    }
  }

  lemma ReplyUid(cfg: Config, ms: seq<Msg>)
    requires ms != []
    ensures ReplyTo(cfg, ms).uid == ms[|ms| - 1].uid
  {
  }

  lemma StepRemembers(cfg: Config, s: Server, e: Event)
    requires Remembers(cfg, s)
    ensures Remembers(cfg, Step(cfg, s, e))
  {
    hide IsAnswer, RunHandler;
    var t := Step(cfg, s, e);
    if s.running && e.Receive? && e.m.cls != Ack && e.m.cls != FatalPythonErrorReply &&
       e.m.uid !in s.cache.cached && e.m.uid !in s.cache.removed {
      var s' := if e.m.cls == SendCommandRequest then s else s.(cache := SendNow(s.cache, Msg(Ack, e.m.uid, NoArg)));
      SameAnswers(cfg, s, s');
      HandlerRemembers(cfg, s', e.m);
    } else {
      SameAnswers(cfg, s, t);
    }
  }

  lemma SameAnswers(cfg: Config, s: Server, t: Server)
    requires s.handled == t.handled
    ensures forall m :: IsAnswer(cfg, s, m) == IsAnswer(cfg, t, m)
    ensures forall k, u :: Answered(s, k, u) == Answered(t, k, u)
  {
    forall m
      ensures IsAnswer(cfg, s, m) == IsAnswer(cfg, t, m)
    {
      if IsAnswer(cfg, s, m) { AnswersStay(cfg, s, t, m); }
      if IsAnswer(cfg, t, m) { AnswersStay(cfg, t, s, m); }
    }
  }

  lemma {:induction false} RunRemembers(cfg: Config, es: seq<Event>)
    ensures Remembers(cfg, Run(cfg, es))
  {
    if es == [] {
      assert Remembers(cfg, Started(cfg));
    } else {
      hide Remembers;
      RunRemembers(cfg, es[..|es| - 1]);
      StepRemembers(cfg, Run(cfg, es[..|es| - 1]), es[|es| - 1]);
    }
  }

  /** Whatever arrives, however often and in whatever order, no handler of a replying request runs twice for one uid. */
  lemma AtMostOnce(cfg: Config, es: seq<Event>, k: int, l: int, u: int)
    requires Answered(Run(cfg, es), k, u) && Answered(Run(cfg, es), l, u)
    ensures k == l
  {
    RunRemembers(cfg, es);
  }

  /** Whatever was sent with a uid is an acknowledgement, the last message, or the one reply of the one execution. */
  lemma OneReply(cfg: Config, es: seq<Event>, m: Msg, n: Msg)
    requires m in Run(cfg, es).cache.sent && n in Run(cfg, es).cache.sent && m.uid == n.uid != SERVER_ID_UID
    requires m.cls != Ack && n.cls != Ack && m != cfg.fatal && n != cfg.fatal
    ensures m == n && exists k :: Answered(Run(cfg, es), k, m.uid) && Answers(cfg, Run(cfg, es).handled[..k + 1], m)
  {
    hide ReplyTo, Answers;
    RunRemembers(cfg, es);
    IsTheAnswer(cfg, Run(cfg, es), m);
  }

  /** What answers with a uid of a call answers the one execution of that call. */
  lemma IsTheAnswer(cfg: Config, s: Server, m: Msg)
    requires IsAnswer(cfg, s, m) && m.uid != SERVER_ID_UID
    ensures exists k :: Answered(s, k, m.uid) && Answers(cfg, s.handled[..k + 1], m)
  {
    hide ReplyTo, Answers;
    var k :| Answered(s, k, m.uid) && m == ReplyTo(cfg, s.handled[..k + 1]);
    ReplyAnswers(cfg, s.handled[..k + 1]);
  }

  // ---------- what one message comes to ----------

  function Handled(cfg: Config, es: seq<Event>): seq<Msg> { Run(cfg, es).handled }

  function Sent(cfg: Config, es: seq<Event>): seq<Msg> { Run(cfg, es).cache.sent }

  /** A request that was never handled: it is acknowledged and executed once, and the reply, which
      is cached, goes out with the next wake-up of its uid. */
  lemma NewRequest(cfg: Config, es: seq<Event>, m: Msg)
    requires Run(cfg, es).running && Replying(m) && m.uid !in Run(cfg, es).cache.cached
    requires m.uid !in Run(cfg, es).cache.removed
    ensures var fs := es + [Receive(m)];
            Run(cfg, fs).running && Handled(cfg, fs) == Handled(cfg, es) + [m] &&
            Sent(cfg, fs) == Sent(cfg, es) + [Msg(Ack, m.uid, NoArg)] &&
            exists a :: Answers(cfg, Handled(cfg, fs), a) &&
                        Sent(cfg, fs + [Wake(m.uid)]) == Sent(cfg, fs) + [a]
  {
    hide Answers, ReplyTo, Run, Timeouts;
    var fs := es + [Receive(m)];
    OneEvent(cfg, es, Receive(m));
    OneEvent(cfg, fs, Wake(m.uid));
    var hs := Run(cfg, es).handled + [m];
    ReplyAnswers(cfg, hs);
    ReplyUid(cfg, hs);
  }

  /** A command without a reply is executed as often as it comes, and nothing is sent. */
  lemma CommandWithoutReply(cfg: Config, es: seq<Event>, m: Msg)
    requires Run(cfg, es).running && m.cls == SendCommandRequest && m.uid !in Run(cfg, es).cache.cached
    requires m.uid !in Run(cfg, es).cache.removed
    ensures Run(cfg, es + [Receive(m)]) == Run(cfg, es).(handled := Handled(cfg, es) + [m])
  {
    hide Run;
    OneEvent(cfg, es, Receive(m));
  }

  /** The first thing that a new server sends is its id. */
  lemma Announced(cfg: Config)
    ensures Sent(cfg, []) == [] && Handled(cfg, []) == [] && Run(cfg, []).running
    ensures Sent(cfg, [Wake(SERVER_ID_UID)]) == [Msg(ServerIdReply, -1, Str(cfg.serverId))]
  {
    OneEvent(cfg, [], Wake(SERVER_ID_UID));
    assert [] + [Wake(SERVER_ID_UID)] == [Wake(SERVER_ID_UID)];
  }

  /** A copy of a request whose reply is still cached: it is acknowledged again, and the same reply goes out. */
  lemma RepeatedRequest(cfg: Config, es: seq<Event>, m: Msg)
    requires Run(cfg, es).running && Replying(m) && m.uid != SERVER_ID_UID && m.uid in Run(cfg, es).cache.cached
    ensures var fs := es + [Receive(m)];
            Run(cfg, fs).running && Handled(cfg, fs) == Handled(cfg, es) &&
            exists k, a :: Answered(Run(cfg, es), k, m.uid) && Answers(cfg, Handled(cfg, es)[..k + 1], a) &&
                           Sent(cfg, fs) == Sent(cfg, es) + [Msg(Ack, m.uid, NoArg), a]
  {
    hide Answers, ReplyTo, Run, Timeouts, IsAnswer;
    var s := Run(cfg, es);
    RunRemembers(cfg, es);
    OneEvent(cfg, es, Receive(m));
    var a := s.cache.cached[m.uid].msg;
    IsTheAnswer(cfg, s, a);
    var k :| Answered(s, k, m.uid) && Answers(cfg, s.handled[..k + 1], a);
    assert Sent(cfg, es + [Receive(m)]) == Sent(cfg, es) + [Msg(Ack, m.uid, NoArg), a];
  }

  /** Behind the acknowledgement of a cached reply nothing is ever sent with its uid
      but acknowledgements of copies of the request; the first copy ends serving. */
  lemma {:induction false} AcknowledgedIsSilent(cfg: Config, es: seq<Event>, u: int, a: Arg, more: seq<Event>)
    requires u in Run(cfg, es).cache.cached && Run(cfg, es).running
    ensures var fs := es + [Receive(Msg(Ack, u, a))] + more;
            u !in Run(cfg, fs).cache.cached && u in Run(cfg, fs).cache.removed && Sent(cfg, es) <= Sent(cfg, fs) &&
            forall m :: m in Sent(cfg, fs)[|Sent(cfg, es)|..] && m.uid == u ==> m.cls == Ack || m == cfg.fatal
  {
    hide Run;
    var gs := es + [Receive(Msg(Ack, u, a))];
    if more == [] {
      assert gs + more == gs;
      OneEvent(cfg, es, Receive(Msg(Ack, u, a)));
      assert Sent(cfg, gs)[|Sent(cfg, es)|..] == [];
    } else {
      var front, e := more[..|more| - 1], more[|more| - 1];
      AcknowledgedIsSilent(cfg, es, u, a, front);
      assert gs + more == (gs + front) + [e];
      OneEvent(cfg, gs + front, e);
      SilentStep(cfg, gs + front, u, e);
      var d := Sent(cfg, (gs + front) + [e])[|Sent(cfg, gs + front)|..];
      assert Sent(cfg, gs + more)[|Sent(cfg, es)|..] == Sent(cfg, gs + front)[|Sent(cfg, es)|..] + d;
    }
  }

  lemma SilentStep(cfg: Config, es: seq<Event>, u: int, e: Event)
    requires u !in Run(cfg, es).cache.cached && u in Run(cfg, es).cache.removed
    ensures var s, t := Run(cfg, es), Step(cfg, Run(cfg, es), e);
            u !in t.cache.cached && u in t.cache.removed && s.cache.sent <= t.cache.sent &&
            forall m :: m in t.cache.sent[|s.cache.sent|..] && m.uid == u ==> m.cls == Ack || m == cfg.fatal
  {
    hide Run, ReplyTo, Timeouts, IsAnswer;
    var s := Run(cfg, es);
    RunRemembers(cfg, es);
    if e.Receive? && Replying(e.m) {
      ReplyUid(cfg, s.handled + [e.m]);
    }
  }

  /** How many copies of messages with uid u the server has to acknowledge. */
  function ToAcknowledge(cfg: Config, es: seq<Event>, u: int): nat {
    if es == [] then 0
    else
      var n := |es| - 1;
      ToAcknowledge(cfg, es[..n], u) +
      match es[n]
      case Receive(m) =>
        if Run(cfg, es[..n]).running && m.uid == u && m.cls !in {Ack, SendCommandRequest, FatalPythonErrorReply}
        then 1 else 0
      case _ => 0
  }

  /** Every copy of a message that arrives while the server runs is acknowledged exactly once, and nothing else is. */
  lemma {:induction false} AcknowledgedOnceEach(cfg: Config, es: seq<Event>, u: int)
    requires cfg.fatal.cls == FatalPythonErrorReply
    ensures multiset(Sent(cfg, es))[Msg(Ack, u, NoArg)] == ToAcknowledge(cfg, es, u)
  {
    hide Run, Timeouts;
    if es == [] {
      assert Run(cfg, []) == Started(cfg) by { Beginning(cfg); }
    } else {
      var front, e := es[..|es| - 1], es[|es| - 1];
      assert es == front + [e];
      AcknowledgedOnceEach(cfg, front, u);
      OneEvent(cfg, front, e);
      AcksOfStep(cfg, front, e, u);
    }
  }

  lemma Beginning(cfg: Config)
    ensures Run(cfg, []) == Started(cfg)
  {
  }

  lemma AcksOfStep(cfg: Config, es: seq<Event>, e: Event, u: int)
    requires cfg.fatal.cls == FatalPythonErrorReply
    ensures var s, t := Run(cfg, es), Step(cfg, Run(cfg, es), e); var a := Msg(Ack, u, NoArg);
            multiset(t.cache.sent)[a] == multiset(s.cache.sent)[a] +
              match e
              case Receive(m) =>
                if s.running && m.uid == u && m.cls !in {Ack, SendCommandRequest, FatalPythonErrorReply} then 1 else 0
              case _ => 0
  {
    hide Run, ReplyTo, Timeouts, IsAnswer;
    var s, a := Run(cfg, es), Msg(Ack, u, NoArg);
    RunRemembers(cfg, es);
    if !s.running {
    } else if e.Wake? {
      if e.u in s.cache.cached {
        NoAck(cfg, s, s.cache.cached[e.u].msg);
        CountOne(s.cache.sent, s.cache.cached[e.u].msg, a);
      }
    } else {
      CountOne(s.cache.sent, cfg.fatal, a);
      if e.Receive? {
        AcksOfReceive(cfg, s, e.m, a);
      }
    }
  }

  lemma CountOne(sent: seq<Msg>, m: Msg, a: Msg)
    ensures multiset(sent + [m])[a] == multiset(sent)[a] + if m == a then 1 else 0
  {
  }

  lemma AcksOfReceive(cfg: Config, s: Server, m: Msg, a: Msg)
    requires s.running && Remembers(cfg, s) && a.cls == Ack && a.arg == NoArg && cfg.fatal != a
    ensures multiset(Step(cfg, s, Receive(m)).cache.sent)[a] == multiset(s.cache.sent)[a] +
              if m.uid == a.uid && m.cls !in {Ack, SendCommandRequest, FatalPythonErrorReply} then 1 else 0
  {
    hide Step, Remembers;
    var sent := s.cache.sent;
    var d := ReceiveAppends(cfg, s, m);
    var acked := if m.cls in {Ack, SendCommandRequest, FatalPythonErrorReply} then sent
                 else sent + [Msg(Ack, m.uid, NoArg)];
    CountOne(sent, Msg(Ack, m.uid, NoArg), a);
    if d != [] {
      CountOne(acked, d[0], a);
      assert d == [d[0]];
    } else {
      assert acked + d == acked;
    }
  }

  /** Behind its acknowledgement, if it gets one, a message brings one more at most. */
  lemma ReceiveAppends(cfg: Config, s: Server, m: Msg) returns (d: seq<Msg>)
    requires s.running && Remembers(cfg, s)
    ensures |d| <= 1 && (d != [] ==> d[0] == cfg.fatal || d[0].cls != Ack)
    ensures Step(cfg, s, Receive(m)).cache.sent ==
            (if m.cls in {Ack, SendCommandRequest, FatalPythonErrorReply} then s.cache.sent
             else s.cache.sent + [Msg(Ack, m.uid, NoArg)]) + d
  {
    hide ReplyTo, Timeouts, IsAnswer;
    d := [];
    if m.cls == FatalPythonErrorReply {
      d := [cfg.fatal];
    } else if m.cls != Ack {
      if m.uid in s.cache.cached {
        NoAck(cfg, s, s.cache.cached[m.uid].msg);
        d := [s.cache.cached[m.uid].msg];
      } else if m.uid in s.cache.removed || !IsRequest(m) || m.cls == ExitRequest {
        d := [cfg.fatal];
      }
    }
  }

  lemma NoAck(cfg: Config, s: Server, m: Msg)
    requires IsAnswer(cfg, s, m)
    ensures m.cls != Ack
  {
  }

  // ---------- when serving ends ----------

  /** The server does not survive m: m is an error, it is too late for m, it is no request, or it asks for the end. */
  predicate Fatal(s: Server, m: Msg) {
    m.cls == FatalPythonErrorReply ||
    (m.cls != Ack && m.uid !in s.cache.cached &&
     (m.uid in s.cache.removed || !IsRequest(m) || m.cls == ExitRequest))
  }

  /** A received message ends serving if and only if it is fatal; and then, an exit
      request included, the message of a fatal error is the last thing sent. */
  lemma ServingEndsExactlyWhen(cfg: Config, s: Server, m: Msg)
    requires s.running
    ensures var t := Step(cfg, s, Receive(m));
            (!t.running <==> Fatal(s, m)) &&
            (!t.running ==> t.cache.sent != [] && t.cache.sent[|t.cache.sent| - 1] == cfg.fatal)
  {
  }

  /** So does an exception while a message is read or handled. */
  lemma RaisingEndsServing(cfg: Config, es: seq<Event>)
    requires Run(cfg, es).running
    ensures !Run(cfg, es + [Raises]).running && Handled(cfg, es + [Raises]) == Handled(cfg, es)
    ensures Sent(cfg, es + [Raises]) == Sent(cfg, es) + [cfg.fatal]
  {
    hide Run;
    OneEvent(cfg, es, Raises);
  }

  /** When serving has ended nothing happens any more. */
  lemma {:induction false} EndedForGood(cfg: Config, es: seq<Event>, more: seq<Event>)
    requires !Run(cfg, es).running
    ensures Run(cfg, es + more) == Run(cfg, es)
  {
    if more == [] {
      assert es + more == es;
    } else {
      var front := more[..|more| - 1];
      EndedForGood(cfg, es, front);
      assert (es + more)[..|es + more| - 1] == es + front;
    }
  }

  /** An exit request to a new server: an acknowledgement, then a fatal error. */
  lemma ExitIsFatal(cfg: Config)
    ensures var t := Run(cfg, [Receive(Msg(ExitRequest, 0, NoArg))]);
            !t.running && t.cache.sent == [Msg(Ack, 0, NoArg), cfg.fatal]
  {
    hide Timeouts;
    OneEvent(cfg, [], Receive(Msg(ExitRequest, 0, NoArg)));
    assert [] + [Receive(Msg(ExitRequest, 0, NoArg))] == [Receive(Msg(ExitRequest, 0, NoArg))];
    assert Run(cfg, []) == Started(cfg);
  }

  // ---------- the server as it runs ----------

  function Woken(s: Server, us: seq<int>): Server { s.(cache := ExpireAll(s.cache, us)) }

  lemma NobodyWoken()
    ensures forall s :: Woken(s, []) == s
  {
  }

  function Wakes(us: seq<int>): seq<Event> { seq(|us|, i requires 0 <= i < |us| => Wake(us[i])) }

  /** Waking up entries of the cache is a run of wake-ups. */
  lemma {:induction false} WokenByEvents(cfg: Config, es: seq<Event>, us: seq<int>)
    requires Run(cfg, es).running
    ensures Run(cfg, es + Wakes(us)) == Woken(Run(cfg, es), us)
  {
    if us == [] {
      assert es + Wakes(us) == es;
    } else {
      var n := |us| - 1;
      var es' := es + Wakes(us);
      WokenByEvents(cfg, es, us[..n]);
      assert es'[..|es'| - 1] == es + Wakes(us[..n]) && es'[|es'| - 1] == Wake(us[n]);
    }
  }

  lemma WokenAtStart(cfg: Config, us: seq<int>)
    ensures Run(cfg, Wakes(us)) == Woken(Started(cfg), us) && Woken(Started(cfg), us).running
  {
    WokenByEvents(cfg, [], us);
    assert [] + Wakes(us) == Wakes(us);
  }

  lemma OneEvent(cfg: Config, es: seq<Event>, e: Event)
    ensures Run(cfg, es + [e]) == Step(cfg, Run(cfg, es), e)
  {
    assert (es + [e])[..|es|] == es;
  }

  lemma WokenNone(s: Server, us: seq<int>)
    ensures Woken(s, us).running == s.running && (us == [] ==> Woken(s, us) == s)
  {
  }

  lemma RaisesAtLast(cfg: Config, es: seq<Event>)
    requires Run(cfg, es).running
    ensures Run(cfg, es + [Raises]) == Die(cfg, Run(cfg, es))
  {
    OneEvent(cfg, es, Raises);
  }

  /** A pass over a cache with a new reply m. */
  lemma NewReplyFires(x: Timed, m: Msg, vs: Visits, t: real)
    requires m.uid in x.slots && x.slots[m.uid].timeout == 0.0 && x.slots[m.uid].msg == m
    requires Round(x, vs, t) && x.lap <= t
    ensures Whole(x, vs) ==> exists i :: 0 <= i < |vs| && vs[i].0 == m.uid && Due(x, m.uid, vs[i].1)
    ensures x.slots.Keys == {m.uid} && vs != [] ==> |vs| == 1 && VisitAll(x, vs[..0]) == x && vs[0].0 == m.uid
  {
    if Whole(x, vs) {
      assert Visited(m.uid, vs);
      var i :| 0 <= i < |vs| && vs[i].0 == m.uid;
      assert Due(x, m.uid, vs[i].1);
    }
    if x.slots.Keys == {m.uid} {
      OneVisitEach(x, vs, t, m.uid);
    }
  }

  lemma OneVisitEach(x: Timed, vs: Visits, t: real, u: int)
    requires Round(x, vs, t) && x.slots.Keys == {u}
    ensures |vs| <= 1 && forall i :: 0 <= i < |vs| ==> vs[i].0 == u
  {
    assert forall i :: 0 <= i < |vs| ==> vs[i].0 in x.slots.Keys;
    if |vs| > 1 {
      TwoVisits(x, vs, t, u);
    }
  }

  lemma TwoVisits(x: Timed, vs: Visits, t: real, u: int)
    requires Round(x, vs, t) && |vs| > 1
    ensures exists v :: v in x.slots.Keys && v != u
  {
    var v := if vs[0].0 == u then vs[1].0 else vs[0].0;
    assert v in x.slots.Keys && v != u;
  }

  /** Between before and now an answer to the last of hs was sent. */
  ghost predicate SentAnswer(cfg: Config, before: seq<Msg>, now: seq<Msg>, hs: seq<Msg>) {
    before <= now && exists a :: a in now[|before|..] && Answers(cfg, hs, a)
  }

  lemma SentBehind(cfg: Config, before: seq<Msg>, d: seq<Msg>, now: seq<Msg>, hs: seq<Msg>)
    requires SentAnswer(cfg, before + d, now, hs)
    ensures SentAnswer(cfg, before, now, hs)
  {
    hide Answers;
    var a :| a in now[|before + d|..] && Answers(cfg, hs, a);
    assert a in now[|before|..];
  }

  lemma NewReplySent(cfg: Config, c: Cache, hs: seq<Msg>, fired: seq<int>)
    requires hs != [] && Replying(hs[|hs| - 1])
    ensures var d := ExpireAll(Push(c, ReplyTo(cfg, hs), cfg.retry), fired);
            c.sent <= d.sent && (ReplyTo(cfg, hs).uid in fired ==> SentAnswer(cfg, c.sent, d.sent, hs))
  {
    hide ReplyTo, Answers, ExpireAll;
    var m := ReplyTo(cfg, hs);
    FiredIsSent(Push(c, m, cfg.retry), fired, m.uid);
    ReplyAnswers(cfg, hs);
  }

  class MsgServer {
    const cfg: Config
    const msgcaches: MsgCaches
    var handled: seq<Msg>
    var running: bool

    ghost function Repr(): set<object>
      reads this, msgcaches
    {
      {this} + msgcaches.Repr()
    }

    ghost predicate Valid()
      reads this, msgcaches, msgcaches.Repr()
    {
      msgcaches.Valid() && msgcaches.retry == cfg.retry && msgcaches.long == cfg.long
    }

    ghost function Abs(): Server
      reads this, msgcaches
    {
      Server(msgcaches.Model(), handled, running)
    }

    /** The server is where the specification is after the events of history. */
    ghost predicate Served(history: seq<Event>)
      reads this, msgcaches, msgcaches.Repr()
    {
      Valid() && Abs() == Run(cfg, history)
    }

    /** The beginning of serve. fired are the cache entries that were woken up. The server
        id fits one frame: it is 32 hexadecimal digits. */
    constructor (cfg: Config, raw: real, first: real)
      requires !cfg.long(Hello(cfg))
      ensures Valid() && fresh(Repr()) && this.cfg == cfg && running
      ensures exists fired :: Served(Wakes(fired)) && SERVER_ID_UID in fired
    {
      this.cfg, handled, running := cfg, [], true;
      var m := new MsgCaches(cfg.retry, cfg.long, raw);
      msgcaches := m;
      new;
      hide Run, ExpireAll, Wakes, Timeouts;
      var raised, fired := SendReplyViaCache(Hello(cfg), first);
      assert Abs() == Woken(Started(cfg), fired);
      WokenAtStart(cfg, fired);
      assert Served(Wakes(fired));
    }

    /** handle_next_msg; None stands for a message that could not be read or parsed. Any exception
        while it is handled ends serving, that of a garbled acknowledgement included. */
    method HandleNextMsg(m: Option<Msg>, raw: real, ghost history: seq<Event>)
      returns (ghost raised: bool, ghost fired: seq<int>)
      requires Served(history) && running
      modifies Repr()
      ensures fresh(Repr() - old(Repr()))
      ensures Served(history + [if m.Some? then Receive(m.value) else Raises] + Wakes(fired) +
                     if raised then [Raises] else [])
      ensures handled != old(handled) && m.Some? && Replying(m.value) && !raised ==>
                m.value.uid in fired && handled == old(handled) + [m.value] &&
                SentAnswer(cfg, old(msgcaches.sent), msgcaches.sent, handled)
    {
      hide ExpireAll, Handle, Die, Run, SentAnswer;
      ghost var e := if m.Some? then Receive(m.value) else Raises;
      OneEvent(cfg, history, e);
      var failed := false;
      fired := [];
      NobodyWoken();
      if m.Some? {
        failed, fired := HandleParsed(m.value, raw);
      } else {
        StopServing();
      }
      raised := failed;
      ghost var s := Step(cfg, old(Abs()), e);
      WokenNone(s, fired);
      ghost var h := history + [e] + Wakes(fired);
      assert Abs() == Run(cfg, h) by {
        if running {
          WokenByEvents(cfg, history + [e], fired);
        } else {
          assert h == history + [e];
        }
      }
      if failed {
        StopServing();
        RaisesAtLast(cfg, h);
      } else {
        assert h + [] == h;
      }
    }

    /** send_expired within _read: a pass over the cache, in which every entry that is due is woken
        up unless a send raises. What it may raise is caught where the message is read. */
    method WakeUp(raw: real, ghost history: seq<Event>) returns (raised: bool, ghost fired: seq<int>)
      requires Served(history) && running
      modifies Repr()
      ensures running && handled == old(handled) && fresh(Repr() - old(Repr()))
      ensures Served(history + Wakes(fired))
      ensures !raised ==>
                forall u :: Due(old(msgcaches.Clocked), u, old(msgcaches.monotonic.previousTime)) ==> u in fired
    {
      hide ExpireAll, Run;
      ghost var vs;
      ghost var x, start := msgcaches.Clocked, msgcaches.monotonic.previousTime;
      raised, vs := msgcaches.SendExpired(raw);
      fired := Fired(x, vs);
      WokenByEvents(cfg, history, fired);
      if !raised {
        DueInPass(x, vs, start);
      }
    }

    method HandleParsed(m: Msg, raw: real) returns (raised: bool, ghost fired: seq<int>)
      requires Valid() && running
      modifies Repr()
      ensures Valid() && fresh(Repr() - old(Repr()))
      ensures Abs() == Woken(Handle(cfg, old(Abs()), m), fired) && (!running ==> fired == [] && !raised)
      ensures handled != old(handled) && Replying(m) && !raised ==>
                m.uid in fired && handled == old(handled) + [m] &&
                SentAnswer(cfg, old(msgcaches.sent), msgcaches.sent, handled)
    {
      hide ExpireAll, ReplyCachedOrHandle, SentAnswer;
      raised, fired := false, [];
      NobodyWoken();
      if m.cls == FatalPythonErrorReply {
        StopServing();
      } else if m.cls == Ack {
        msgcaches.Remove(m);
      } else {
        if m.cls != SendCommandRequest {
          msgcaches.SendMsg(Msg(Ack, m.uid, NoArg)); // one frame, which cannot raise
        }
        ghost var before := msgcaches.sent;
        raised, fired := ReplyCachedOrHandleMsg(m, raw);
        if handled != old(handled) && Replying(m) && !raised {
          SentBehind(cfg, old(msgcaches.sent), [Msg(Ack, m.uid, NoArg)], msgcaches.sent, handled);
        }
      }
    }

    method ReplyCachedOrHandleMsg(m: Msg, raw: real) returns (raised: bool, ghost fired: seq<int>)
      requires Valid() && running
      modifies Repr()
      ensures Valid() && fresh(Repr() - old(Repr()))
      ensures Abs() == Woken(ReplyCachedOrHandle(cfg, old(Abs()), m), fired) && (!running ==> fired == [] && !raised)
      ensures handled != old(handled) && Replying(m) && !raised ==>
                m.uid in fired && handled == old(handled) + [m] &&
                SentAnswer(cfg, old(msgcaches.sent), msgcaches.sent, handled)
    {
      hide ExpireAll, RunHandler, Die, SendNow, SentAnswer;
      raised, fired := false, [];
      NobodyWoken();
      if m.uid in msgcaches.msgcaches {
        raised := SendCached(m.uid);
      } else if msgcaches.removed.Contains(m.uid) {
        StopServing();
      } else {
        raised, fired := HandleMsg(m, raw);
      }
    }

    method SendCached(u: int) returns (raised: bool)
      requires Valid() && u in msgcaches.msgcaches
      modifies msgcaches
      ensures Valid() && Repr() == old(Repr()) && u in old(msgcaches.Model()).cached
      ensures msgcaches.Model() == SendNow(old(msgcaches.Model()), old(msgcaches.Model()).cached[u].msg)
      ensures raised ==> cfg.long(old(msgcaches.Model()).cached[u].msg)
    {
      msgcaches.SlotMsg(u);
      var msg := msgcaches.msgcaches[u].msg;
      msgcaches.SendMsg(msg);
      var garbled: bool := *;
      raised := garbled && cfg.long(msg);
    }

    method StopServing()
      requires Valid()
      modifies this`running, msgcaches
      ensures Valid() && Repr() == old(Repr()) && Abs() == Die(cfg, old(Abs()))
    {
      msgcaches.SendMsg(cfg.fatal);
      running := false;
    }

    method HandleMsg(m: Msg, raw: real) returns (raised: bool, ghost fired: seq<int>)
      requires Valid() && running
      modifies Repr()
      ensures Valid() && fresh(Repr() - old(Repr()))
      ensures Abs() == Woken(RunHandler(cfg, old(Abs()), m), fired) && (!running ==> fired == [] && !raised)
      ensures Replying(m) && !raised ==>
                m.uid in fired && handled == old(handled) + [m] &&
                SentAnswer(cfg, old(msgcaches.sent), msgcaches.sent, handled)
    {
      hide ExpireAll, ReplyTo, Push, SendNow, Commands, SentAnswer;
      raised, fired := false, [];
      NobodyWoken();
      if Replying(m) {
        ReplyUid(cfg, handled + [m]);
      }
      if !IsRequest(m) {
        StopServing();
      } else {
        handled := handled + [m];
        if m.cls == ExitRequest {
          StopServing();
        } else if m.cls != SendCommandRequest {
          raised, fired := SendReplyViaCache(ReplyTo(cfg, handled), raw);
          NewReplySent(cfg, old(msgcaches.Model()), handled, fired);
        }
      }
    }

    /** The new reply goes out at once, its wait being zero, unless another send raises before. */
    method SendReplyViaCache(msg: Msg, raw: real) returns (raised: bool, ghost fired: seq<int>)
      requires Valid()
      modifies msgcaches, msgcaches.Repr()
      ensures Valid() && fresh(Repr() - old(Repr()))
      ensures msgcaches.Model() == ExpireAll(Push(old(msgcaches.Model()), msg, cfg.retry), fired)
      ensures !raised ==> msg.uid in fired
      ensures old(msgcaches.Clocked).slots == map[] && !cfg.long(msg) ==> !raised
    {
      hide ExpireAll, Push, VisitAll;
      msgcaches.PushMsg(msg);
      ghost var x := msgcaches.Clocked;
      ghost var vs;
      raised, vs := msgcaches.SendExpired(raw);
      fired := Fired(x, vs);
      NewReplyFires(x, msg, vs, old(msgcaches.monotonic.previousTime));
    }
  }
}
