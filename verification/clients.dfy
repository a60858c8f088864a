/** The client half: sends a request until something comes back, then waits for the reply. */
module Clients {
  import opened Bytes
  import opened Msgs
  import opened CacheSpec

  // ---------- one call, event by event ----------

  /** Where send_and_receive stands: sending and waiting for anything about the
      request, with so many sends left; or waiting for the reply without sending. */
  datatype Phase = Idle | Collecting(left: nat) | Awaiting(final: bool)

  /** How a call of send_and_receive ended. */
  datatype Outcome = Returned(m: Msg) | TimedOut | ConnectionBroken | FatalRaised

  /** requests[u] is the request of the call with uid u. */
  datatype Client = Client(requests: seq<Msg>, phase: Phase, results: map<int, Outcome>)

  function LastUid(c: Client): int { |c.requests| - 1 }

  predicate Active(c: Client, u: int) { c.phase != Idle && u == LastUid(c) }

  function Finish(c: Client, o: Outcome): Client
    requires c.requests != []
  {
    c.(phase := Idle, results := c.results[LastUid(c) := o])
  }

  /** A new call: a fresh uid, and the first send. */
  function Begin(c: Client, request: Msg, r: Retry): Client {
    c.(requests := c.requests + [request.(uid := |c.requests|)], phase := Collecting(|Timeouts(r)| - 1))
  }

  /** The timer of the current phase runs out; true when the request is sent again. */
  function TimerRunsOut(c: Client): (Client, bool)
    requires c.phase != Idle && c.requests != []
  {
    match c.phase
    case Collecting(left) =>
      if left > 0 then (c.(phase := Collecting(left - 1)), true) else (c.(phase := Awaiting(true)), false)
    case Awaiting(final) => (Finish(c, if final then ConnectionBroken else TimedOut), false)
  }

  /** What an incoming message is answered with. */
  function AckFor(m: Msg): seq<Msg> {
    if m.cls == Ack || m.cls == FatalPythonErrorReply then [] else [Msg(Ack, m.uid, NoArg)]
  }

  /** _receive_until_condition, for one message, with what follows when the condition holds. */
  function Receives(c: Client, m: Msg): Client
    requires c.phase != Idle ==> c.requests != []
  {
    if c.phase == Idle then c
    else if m.cls == FatalPythonErrorReply then Finish(c, FatalRaised)
    else if m.uid != LastUid(c) then c
    else if m.cls == Ack && c.phase.Collecting? then c.(phase := Awaiting(false))
    else Finish(c, Returned(m))
  }

  // ---------- a whole call ----------

  datatype ClientEvent = Got(m: Msg) | TimerEnds

  datatype Talk = Talk(c: Client, sent: seq<Msg>)

  function React(t: Talk, e: ClientEvent): Talk
    requires t.c.phase != Idle ==> t.c.requests != []
  {
    match e
    case Got(m) => Talk(Receives(t.c, m), t.sent + AckFor(m))
    case TimerEnds =>
      if t.c.phase == Idle then t
      else
        var (c, again) := TimerRunsOut(t.c);
        Talk(c, if again then t.sent + [c.requests[LastUid(c)]] else t.sent)
  }

  function ReactAll(t: Talk, es: seq<ClientEvent>): (r: Talk)
    requires t.c.requests != []
    ensures r.c.requests == t.c.requests
  {
    if es == [] then t else React(ReactAll(t, es[..|es| - 1]), es[|es| - 1])
  }

  lemma NoEvents(t: Talk)
    requires t.c.requests != []
    ensures ReactAll(t, []) == t && Timers([]) == 0
  {
  }

  lemma OneMore(t: Talk, es: seq<ClientEvent>, e: ClientEvent)
    requires t.c.requests != []
    ensures ReactAll(t, es + [e]) == React(ReactAll(t, es), e)
  {
    assert (es + [e])[..|es|] == es;
  }

  // ---------- how a call ends ----------

  function Timers(es: seq<ClientEvent>): nat {
    if es == [] then 0 else Timers(es[..|es| - 1]) + if es[|es| - 1] == TimerEnds then 1 else 0
  }

  predicate IsAckOf(e: ClientEvent, u: int) { e.Got? && e.m.cls == Ack && e.m.uid == u }

  ghost predicate AckedBefore(es: seq<ClientEvent>, k: int, u: int) {
    exists i :: 0 <= i < k <= |es| && IsAckOf(es[i], u)
  }

  /** Before the k-th event an acknowledgement came, or the timers of all n sends ran out. */
  ghost predicate PastSending(es: seq<ClientEvent>, k: int, u: int, n: nat)
    requires 0 <= k <= |es|
  {
    AckedBefore(es, k, u) || Timers(es[..k]) >= n
  }

  /** The k-th event ends call u, if no event before it did. */
  ghost predicate EndsCall(es: seq<ClientEvent>, k: int, u: int, n: nat)
    requires 0 <= k < |es|
  {
    match es[k]
    case Got(m) => m.cls == FatalPythonErrorReply || (m.uid == u && (m.cls != Ack || PastSending(es, k, u, n)))
    case TimerEnds => PastSending(es, k, u, n)
  }

  ghost predicate EndsAt(es: seq<ClientEvent>, k: int, u: int, n: nat) {
    0 <= k < |es| && EndsCall(es, k, u, n) && forall i :: 0 <= i < k ==> !EndsCall(es, i, u, n)
  }

  ghost function Ending(es: seq<ClientEvent>, k: int, u: int): Outcome
    requires 0 <= k < |es|
  {
    match es[k]
    case Got(m) => if m.cls == FatalPythonErrorReply then FatalRaised else Returned(m)
    case TimerEnds => if AckedBefore(es, k, u) then TimedOut else ConnectionBroken
  }

  lemma BeginningOnly(es: seq<ClientEvent>, e: ClientEvent, u: int, n: nat)
    ensures forall k :: 0 <= k <= |es| ==>
              (es + [e])[..k] == es[..k] && (AckedBefore(es + [e], k, u) <==> AckedBefore(es, k, u))
    ensures forall k :: 0 <= k < |es| ==> (EndsCall(es + [e], k, u, n) <==> EndsCall(es, k, u, n))
    ensures forall k :: 0 <= k < |es| ==> (EndsAt(es + [e], k, u, n) <==> EndsAt(es, k, u, n))
    ensures forall k :: 0 <= k < |es| ==> Ending(es + [e], k, u) == Ending(es, k, u)
    ensures AckedBefore(es + [e], |es| + 1, u) <==> AckedBefore(es, |es|, u) || IsAckOf(e, u)
  {
    var fs := es + [e];
    forall k | 0 <= k <= |es|
      ensures fs[..k] == es[..k] && (AckedBefore(fs, k, u) <==> AckedBefore(es, k, u))
    {
      assert forall i :: 0 <= i < k ==> fs[i] == es[i];
    }
    assert fs[|es|] == e;
  }

  /** Where a call stands after the events es. */
  ghost predicate Stands(c: Client, es: seq<ClientEvent>, u: int, n: nat) {
    (forall k :: EndsAt(es, k, u, n) ==> c.phase == Idle && u in c.results && c.results[u] == Ending(es, k, u)) &&
    ((forall k :: 0 <= k < |es| ==> !EndsCall(es, k, u, n)) ==>
      Timers(es) <= n &&
      c.phase == if AckedBefore(es, |es|, u) then Awaiting(false)
                 else if Timers(es) >= n then Awaiting(true) else Collecting(n - 1 - Timers(es)))
  }

  lemma {:induction false} CallStands(c: Client, request: Msg, r: Retry, sent: seq<Msg>, es: seq<ClientEvent>)
    ensures var t := ReactAll(Talk(Begin(c, request, r), sent), es);
            LastUid(t.c) == |c.requests| && Stands(t.c, es, |c.requests|, |Timeouts(r)|)
  {
    hide Timeouts;
    if es != [] {
      var front, e := es[..|es| - 1], es[|es| - 1];
      assert es == front + [e];
      CallStands(c, request, r, sent, front);
      var t := ReactAll(Talk(Begin(c, request, r), sent), front);
      OneMoreStands(t, front, e, |c.requests|, |Timeouts(r)|);
    }
  }

  lemma OneMoreStands(t: Talk, es: seq<ClientEvent>, e: ClientEvent, u: int, n: nat)
    requires t.c.requests != [] && LastUid(t.c) == u && Stands(t.c, es, u, n)
    ensures LastUid(React(t, e).c) == u && Stands(React(t, e).c, es + [e], u, n)
  {
    hide EndsCall, EndsAt, AckedBefore, Ending;
    var fs, c := es + [e], React(t, e).c;
    BeginningOnly(es, e, u, n);
    assert fs[..|es|] == es && fs[|es|] == e;
    if forall k :: 0 <= k < |es| ==> !EndsCall(es, k, u, n) {
      LastEvent(t, es, e, u, n);
    } else {
      FirstEnd(es, u, n);
      var k :| EndsAt(es, k, u, n);
      EndRange(es, k, u, n);
      assert EndsAt(fs, k, u, n);
      forall j | EndsAt(fs, j, u, n)
        ensures j == k
      {
        OneEnd(fs, j, k, u, n);
      }
    }
  }

  lemma EndRange(es: seq<ClientEvent>, k: int, u: int, n: nat)
    requires EndsAt(es, k, u, n)
    ensures 0 <= k < |es| && EndsCall(es, k, u, n)
  {
  }

  lemma OneEnd(es: seq<ClientEvent>, j: int, k: int, u: int, n: nat)
    requires EndsAt(es, j, u, n) && EndsAt(es, k, u, n)
    ensures j == k
  {
  }

  lemma {:induction false} FirstEnd(es: seq<ClientEvent>, u: int, n: nat)
    requires exists k :: 0 <= k < |es| && EndsCall(es, k, u, n)
    ensures exists k :: EndsAt(es, k, u, n)
  {
    var k :| 0 <= k < |es| && EndsCall(es, k, u, n);
    FirstEndUpTo(es, k, u, n);
  }

  lemma {:induction false} FirstEndUpTo(es: seq<ClientEvent>, k: nat, u: int, n: nat)
    requires k < |es| && EndsCall(es, k, u, n)
    ensures exists j :: EndsAt(es, j, u, n)
  {
    if i :| 0 <= i < k && EndsCall(es, i, u, n) {
      FirstEndUpTo(es, i, u, n);
    } else {
      assert EndsAt(es, k, u, n);
    }
  }

  /** The call was under way until e. */
  lemma LastEvent(t: Talk, es: seq<ClientEvent>, e: ClientEvent, u: int, n: nat)
    requires t.c.requests != [] && LastUid(t.c) == u && Stands(t.c, es, u, n)
    requires forall k :: 0 <= k < |es| ==> !EndsCall(es, k, u, n)
    ensures Stands(React(t, e).c, es + [e], u, n)
  {
    var fs := es + [e];
    BeginningOnly(es, e, u, n);
    assert fs[..|es|] == es && fs[|es|] == e && fs[..|fs| - 1] == es;
    hide AckedBefore;
    assert PastSending(fs, |es|, u, n) <==> t.c.phase.Awaiting?;
    assert Timers(fs) == Timers(es) + if e == TimerEnds then 1 else 0;
    if EndsCall(fs, |es|, u, n) {
      assert React(t, e).c.results[u] == Ending(fs, |es|, u);
    }
    forall k | EndsAt(fs, k, u, n)
      ensures k == |es|
    {
      assert EndsCall(fs, k, u, n);
    }
  }

  /** For every call and whatever happens during it: an acknowledgement is returned as the answer if and
      only if one for this call comes, before anything else has ended the call, after another one or
      after the timers of all sends. */
  lemma AckReturnedExactlyWhen(c: Client, request: Msg, r: Retry, sent: seq<Msg>, es: seq<ClientEvent>)
    ensures var d, u, n := ReactAll(Talk(Begin(c, request, r), sent), es).c, |c.requests|, |Timeouts(r)|;
            (d.phase == Idle && u in d.results && d.results[u].Returned? && d.results[u].m.cls == Ack) <==>
            (exists k :: 0 <= k < |es| && IsAckOf(es[k], u) && PastSending(es, k, u, n) &&
                         forall i :: 0 <= i < k ==> !EndsCall(es, i, u, n))
  {
    hide Timeouts, AckedBefore, Stands, ReactAll, EndsCall;
    CallStands(c, request, r, sent, es);
    AckReturned(ReactAll(Talk(Begin(c, request, r), sent), es).c, es, |c.requests|, |Timeouts(r)|);
  }

  lemma AckReturned(d: Client, es: seq<ClientEvent>, u: int, n: nat)
    requires Stands(d, es, u, n)
    ensures (d.phase == Idle && u in d.results && d.results[u].Returned? && d.results[u].m.cls == Ack) <==>
            (exists k :: 0 <= k < |es| && IsAckOf(es[k], u) && PastSending(es, k, u, n) &&
                         forall i :: 0 <= i < k ==> !EndsCall(es, i, u, n))
  {
    hide AckedBefore, PastSending;
    if d.phase == Idle {
      FirstEnd(es, u, n);
      var k :| EndsAt(es, k, u, n);
      EndsByAck(es, k, u, n);
    }
    if k :| 0 <= k < |es| && IsAckOf(es[k], u) && PastSending(es, k, u, n) &&
            forall i :: 0 <= i < k ==> !EndsCall(es, i, u, n) {
      assert EndsAt(es, k, u, n);
    }
  }

  lemma EndsByAck(es: seq<ClientEvent>, k: int, u: int, n: nat)
    requires EndsAt(es, k, u, n)
    ensures Ending(es, k, u).Returned? && Ending(es, k, u).m.cls == Ack ==>
              IsAckOf(es[k], u) && PastSending(es, k, u, n)
  {
  }

  /** A call that was under way before the last event and is over behind it. */
  lemma EndedByLast(c: Client, d: Client, es: seq<ClientEvent>, u: int, n: nat)
    requires es != [] && Stands(c, es[..|es| - 1], u, n) && c.phase != Idle
    requires Stands(d, es, u, n) && d.phase == Idle && u in d.results
    ensures EndsAt(es, |es| - 1, u, n) && d.results[u] == Ending(es, |es| - 1, u)
    ensures PastSending(es, |es| - 1, u, n) <==> c.phase.Awaiting?
  {
    hide EndsAt, EndsCall, Ending, AckedBefore;
    var front, k := es[..|es| - 1], |es| - 1;
    assert es == front + [es[k]];
    BeginningOnly(front, es[k], u, n);
    NotOver(c, front, u, n);
    assert exists i :: 0 <= i < |es| && EndsCall(es, i, u, n);
    FirstEnd(es, u, n);
    var i :| EndsAt(es, i, u, n);
    EndRange(es, i, u, n);
    assert i == k;
  }

  lemma NotOver(c: Client, es: seq<ClientEvent>, u: int, n: nat)
    requires Stands(c, es, u, n)
    ensures c.phase != Idle ==> forall k :: 0 <= k < |es| ==> !EndsCall(es, k, u, n)
  {
    if k :| 0 <= k < |es| && EndsCall(es, k, u, n) {
      FirstEnd(es, u, n);
    }
  }

  // ---------- what a call sends ----------

  /** The k-th event is a timer that runs out while the call goes on, unacknowledged and with a send left. */
  ghost predicate SendLeft(es: seq<ClientEvent>, k: int, u: int, n: nat)
    requires 0 <= k < |es|
  {
    !AckedBefore(es, k, u) && Timers(es[..k]) < n - 1 && forall i :: 0 <= i < k ==> !EndsCall(es, i, u, n)
  }

  /** The k-th event makes the client send: whatever is neither an acknowledgement nor a
      fatal error is acknowledged, and a timer brings the request again while sends are left. */
  ghost predicate Speaks(es: seq<ClientEvent>, k: int, u: int, n: nat) {
    0 <= k < |es| &&
    match es[k]
    case Got(m) => m.cls != Ack && m.cls != FatalPythonErrorReply
    case TimerEnds => SendLeft(es, k, u, n)
  }

  /** The messages of d are those that the call of request sends on the events es, with n sends in its
      schedule: one for each event that makes it send, at these positions, in the order of the events. */
  ghost predicate Says(es: seq<ClientEvent>, at: seq<int>, d: seq<Msg>, request: Msg, n: nat) {
    |at| == |d| && (forall i, j :: 0 <= i < j < |at| ==> at[i] < at[j]) &&
    (forall k :: k in at <==> Speaks(es, k, request.uid, n)) &&
    forall i :: 0 <= i < |at| && 0 <= at[i] < |es| ==>
      d[i] == match es[at[i]]
              case Got(m) => Msg(Ack, m.uid, NoArg)
              case TimerEnds => request
  }

  ghost predicate Said(es: seq<ClientEvent>, d: seq<Msg>, request: Msg, n: nat) {
    exists at :: Says(es, at, d, request, n)
  }

  lemma SpeaksBefore(es: seq<ClientEvent>, e: ClientEvent, u: int, n: nat)
    ensures forall k :: 0 <= k < |es| ==> (Speaks(es + [e], k, u, n) <==> Speaks(es, k, u, n))
    ensures Speaks(es + [e], |es|, u, n) <==>
            match e
            case Got(m) => m.cls != Ack && m.cls != FatalPythonErrorReply
            case TimerEnds =>
              !AckedBefore(es, |es|, u) && Timers(es) < n - 1 &&
              forall i :: 0 <= i < |es| ==> !EndsCall(es, i, u, n)
  {
    hide EndsCall, AckedBefore;
    BeginningOnly(es, e, u, n);
    var fs := es + [e];
    assert fs[..|es|] == es && fs[|es|] == e;
    assert forall k :: 0 <= k < |es| ==> fs[k] == es[k];
  }

  lemma SaysOn(es: seq<ClientEvent>, at: seq<int>, d: seq<Msg>, request: Msg, n: nat, e: ClientEvent, b: seq<Msg>)
    returns (at': seq<int>)
    requires Says(es, at, d, request, n)
    requires if Speaks(es + [e], |es|, request.uid, n)
             then b == [match e case Got(m) => Msg(Ack, m.uid, NoArg) case TimerEnds => request]
             else b == []
    ensures Says(es + [e], at', d + b, request, n)
  {
    hide Speaks;
    var fs, u := es + [e], request.uid;
    SpeaksBefore(es, e, u, n);
    InRange(es, u, n);
    InRange(fs, u, n);
    assert forall k :: 0 <= k < |es| ==> fs[k] == es[k];
    if Speaks(fs, |es|, u, n) {
      at' := at + [|es|];
      assert forall k :: k in at' <==> k in at || k == |es|;
      assert forall i :: 0 <= i < |at| ==> at[i] in at;
    } else {
      at' := at;
      assert d + b == d;
      assert forall i :: 0 <= i < |at| ==> at[i] in at;
    }
  }

  lemma InRange(es: seq<ClientEvent>, u: int, n: nat)
    ensures forall k :: Speaks(es, k, u, n) ==> 0 <= k < |es|
  {
  }

  lemma NothingSaid(request: Msg, n: nat)
    ensures Says([], [], [], request, n)
  {
  }

  /** For every call and whatever happens during it: what it sends behind its first send. */
  lemma {:induction false} CallSends(c: Client, request: Msg, r: Retry, sent: seq<Msg>, es: seq<ClientEvent>)
    returns (at: seq<int>)
    ensures var t := ReactAll(Talk(Begin(c, request, r), sent), es);
            sent <= t.sent && Says(es, at, t.sent[|sent|..], request.(uid := |c.requests|), Max(1, r.tries))
  {
    hide Timeouts, Says, Speaks;
    var n, msg := Max(1, r.tries), request.(uid := |c.requests|);
    if es == [] {
      at := [];
      NothingSaid(msg, n);
      assert sent[|sent|..] == [];
    } else {
      var front, e := es[..|es| - 1], es[|es| - 1];
      assert es == front + [e];
      at := CallSends(c, request, r, sent, front);
      CallStands(c, request, r, sent, front);
      var t := ReactAll(Talk(Begin(c, request, r), sent), front);
      var b := LastSaid(t, front, e, msg, n);
      at := SaysOn(front, at, t.sent[|sent|..], msg, n, e, b);
      assert ReactAll(Talk(Begin(c, request, r), sent), es) == React(t, e);
      assert React(t, e).sent[|sent|..] == t.sent[|sent|..] + b;
    }
  }

  lemma LastSaid(t: Talk, es: seq<ClientEvent>, e: ClientEvent, msg: Msg, n: nat) returns (b: seq<Msg>)
    requires t.c.requests != [] && LastUid(t.c) == msg.uid && t.c.requests[LastUid(t.c)] == msg
    requires Stands(t.c, es, msg.uid, n)
    ensures React(t, e).sent == t.sent + b
    ensures if Speaks(es + [e], |es|, msg.uid, n)
            then b == [match e case Got(m) => Msg(Ack, m.uid, NoArg) case TimerEnds => msg]
            else b == []
  {
    hide Speaks, EndsCall, EndsAt, AckedBefore;
    SpeaksBefore(es, e, msg.uid, n);
    if exists k :: 0 <= k < |es| && EndsCall(es, k, msg.uid, n) {
      FirstEnd(es, msg.uid, n);
      assert t.c.phase == Idle;
    }
    b := if Speaks(es + [e], |es|, msg.uid, n)
         then [match e case Got(m) => Msg(Ack, m.uid, NoArg) case TimerEnds => msg]
         else [];
    assert t.sent + [] == t.sent;
  }

  // ---------- the client as it runs ----------

  /** What waiting with a timer can come to. */
  datatype WaitResult = Satisfied(m: Msg) | TimerTimeout | FatalPythonError

  class TerminalClient {
    const retry: Retry
    var uidCount: nat
    var output: seq<Msg>
    var waits: seq<real> // the timers that were started
    ghost var Model: Client

    ghost predicate Valid()
      reads this
    {
      uidCount == |Model.requests|
    }

    ghost function Abs(): Talk
      reads this
    {
      Talk(Model, output)
    }

    constructor (retry: Retry)
      ensures Valid() && this.retry == retry && Abs() == Talk(Client([], Idle, map[]), []) && waits == []
    {
      this.retry, uidCount, output, waits, Model := retry, 0, [], [], Client([], Idle, map[]);
    }

    /** A call with request msg is under way, and came here from start by the events es. */
    ghost predicate During(msg: Msg, start: Talk, es: seq<ClientEvent>)
      reads this
    {
      Valid() && start.c.requests != [] && Model.requests == start.c.requests &&
      Model.requests[LastUid(Model)] == msg && msg.uid == LastUid(Model) &&
      Abs() == ReactAll(start, es)
    }

    /** A timer of _received_msgs_for_msg has run out: the next send, if any is left. */
    method NextTry(msg: Msg, left: nat, ghost start: Talk, ghost es: seq<ClientEvent>)
      returns (ghost es': seq<ClientEvent>)
      requires During(msg, start, es) && Model.phase == Collecting(left)
      modifies this`output, this`Model
      ensures During(msg, start, es') && Timers(es') == Timers(es) + 1
      ensures Model.phase == if left == 0 then Awaiting(true) else Collecting(left - 1)
    {
      if left > 0 {
        output := output + [msg];
      }
      es' := es + [TimerEnds];
      OneMore(start, es, TimerEnds);
      assert es'[..|es|] == es;
      Model := TimerRunsOut(Model).0;
    }

    /** The last of es ended a call whose client was c until then. */
    static ghost predicate LastEnds(start: Talk, es: seq<ClientEvent>, c: Client)
      requires start.c.requests != []
    {
      es != [] && ReactAll(start, es[..|es| - 1]).c == c
    }

    /** _receive_until_condition: answers what comes with acknowledgements until something
        with the uid of msg comes, a parse raises, or the timer runs out. */
    method ReceiveUntilCondition(msg: Msg, timeout: real, ghost start: Talk, ghost es: seq<ClientEvent>)
      returns (w: WaitResult, ghost es': seq<ClientEvent>)
      requires During(msg, start, es) && Model.phase != Idle
      modifies this`output, this`waits, this`Model
      ensures During(msg, start, es') && waits == old(waits) + [timeout] && Timers(es') == Timers(es)
      ensures !w.TimerTimeout? ==> LastEnds(start, es', old(Model)) && Timers(es'[..|es'| - 1]) == Timers(es)
      ensures match w
              case TimerTimeout => Model == old(Model)
              case FatalPythonError => Model == Finish(old(Model), FatalRaised)
              case Satisfied(r) =>
                r.uid == msg.uid && r.cls != FatalPythonErrorReply && Model == Receives(old(Model), r)
    {
      es' := es;
      waits := waits + [timeout];
      var patience: nat := *; // how many messages come before the timer runs out
      while patience > 0
        invariant During(msg, start, es') && Model == old(Model) && Timers(es') == Timers(es)
        invariant waits == old(waits) + [timeout]
      {
        var r: Msg := *;
        ghost var front := es';
        OneMore(start, front, Got(r));
        assert (front + [Got(r)])[..|front|] == front && ReactAll(start, front).c == old(Model);
        es' := front + [Got(r)];
        Model := Receives(Model, r);
        if r.cls == FatalPythonErrorReply {
          return FatalPythonError, es';
        }
        if r.cls != Ack {
          output := output + [Msg(Ack, r.uid, NoArg)];
        } else {
          assert output + [] == output;
        }
        if r.uid == msg.uid {
          return Satisfied(r), es';
        }
        patience := patience - 1;
      }
      w := TimerTimeout;
    }

    /** _receive_until_reply, with the exception that its caller makes of the timer. */
    method ReceiveUntilReply(msg: Msg, timeout: real, final: bool, ghost start: Talk, ghost es: seq<ClientEvent>)
      returns (o: Outcome, ghost es': seq<ClientEvent>)
      requires During(msg, start, es) && Model.phase == Awaiting(final)
      modifies this`output, this`waits, this`Model
      ensures During(msg, start, es') && Model.phase == Idle && waits == old(waits) + [timeout]
      ensures LastEnds(start, es', old(Model)) && Timers(es'[..|es'| - 1]) == Timers(es)
      ensures msg.uid in Model.results && Model.results[msg.uid] == o
    {
      var w;
      w, es' := ReceiveUntilCondition(msg, timeout, start, es);
      match w {
        case FatalPythonError => o := FatalRaised;
        case Satisfied(r) => o := Returned(r);
        case TimerTimeout =>
          OneMore(start, es', TimerEnds);
          assert (es' + [TimerEnds])[..|es'|] == es';
          es' := es' + [TimerEnds];
          Model := TimerRunsOut(Model).0;
          o := if final then ConnectionBroken else TimedOut;
      }
    }

    /** The timers that a call starts: those of the schedule, one for each try, and timeout once it
        waits for the reply only. */
    ghost predicate Waited(before: seq<real>, es: seq<ClientEvent>, u: int, timeout: real)
      requires es != []
      reads this
    {
      var k, n := |es| - 1, Max(1, retry.tries);
      waits == before + Timeouts(retry)[..Min(n, Timers(es[..k]) + 1)] +
               if PastSending(es, k, u, n) then [timeout] else []
    }

    lemma WaitedSo(before: seq<real>, es: seq<ClientEvent>, u: int, timeout: real, k: nat, awaiting: bool)
      requires es != [] && k < Max(1, retry.tries) && Min(Max(1, retry.tries), Timers(es[..|es| - 1]) + 1) == k + 1
      requires PastSending(es, |es| - 1, u, Max(1, retry.tries)) <==> awaiting
      requires var tries := before + Timeouts(retry)[..k + 1]; waits == if awaiting then tries + [timeout] else tries
      ensures Waited(before, es, u, timeout)
    {
      hide PastSending;
    }

    lemma CallEnded(c: Client, request: Msg, msg: Msg, sent: seq<Msg>, es: seq<ClientEvent>, d: Client, o: Outcome)
      requires msg == request.(uid := |c.requests|) && d.phase != Idle
      requires var start := Talk(Begin(c, request, retry), sent + [msg]);
               Abs() == ReactAll(start, es) && LastEnds(start, es, d)
      requires Model.phase == Idle && msg.uid in Model.results && Model.results[msg.uid] == o
      ensures sent + [msg] <= output
      ensures Said(es, output[|sent| + 1..], msg, Max(1, retry.tries))
      ensures EndsAt(es, |es| - 1, msg.uid, Max(1, retry.tries)) && o == Ending(es, |es| - 1, msg.uid)
      ensures es != [] && (PastSending(es, |es| - 1, msg.uid, Max(1, retry.tries)) <==> d.phase.Awaiting?)
    {
      hide Says, EndsAt, EndsCall, Ending, Timeouts, AckedBefore, Stands, PastSending, React;
      var at := CallSends(c, request, retry, sent + [msg], es);
      CallStands(c, request, retry, sent + [msg], es);
      CallStands(c, request, retry, sent + [msg], es[..|es| - 1]);
      EndedByLast(d, Model, es, msg.uid, Max(1, retry.tries));
    }

    /** The loop of send_and_receive; c is the client before the last event, k the last try. */
    method TryEach(msg: Msg, timeout: real, ghost start: Talk)
      returns (o: Outcome, ghost es: seq<ClientEvent>, ghost c: Client, ghost k: nat)
      requires During(msg, start, []) && Model.phase == Collecting(Max(1, retry.tries) - 1)
      modifies this`output, this`waits, this`Model
      ensures During(msg, start, es) && Model.phase == Idle && msg.uid in Model.results && Model.results[msg.uid] == o
      ensures LastEnds(start, es, c) && c.phase != Idle && es != []
      ensures k < Max(1, retry.tries) && Min(Max(1, retry.tries), Timers(es[..|es| - 1]) + 1) == k + 1
      ensures var tries := old(waits) + Timeouts(retry)[..k + 1];
              waits == if c.phase.Awaiting? then tries + [timeout] else tries
    {
      hide React, ReactAll, Timeouts;
      ghost var waited := waits;
      es := [];
      var tries := Timeouts(retry);
      var i := 0;
      while true
        invariant 0 <= i < |tries| && Model.phase == Collecting(|tries| - 1 - i) && During(msg, start, es)
        invariant waits == waited + tries[..i] && Timers(es) == i
        decreases |tries| - i
      {
        var w;
        c, k := Model, i;
        assert tries[..i + 1] == tries[..i] + [tries[i]];
        w, es := ReceiveUntilCondition(msg, tries[i], start, es);
        assert waits == waited + tries[..k + 1];
        if w.FatalPythonError? {
          return FatalRaised, es, c, k;
        } else if w.Satisfied? && w.m.cls != Ack {
          return Returned(w.m), es, c, k;
        } else if w.Satisfied? {
          c := Model;
          o, es := ReceiveUntilReply(msg, timeout, false, start, es);
          return;
        }
        es := NextTry(msg, |tries| - 1 - i, start, es);
        if i == |tries| - 1 {
          c := Model;
          o, es := ReceiveUntilReply(msg, timeout, true, start, es);
          return;
        }
        i := i + 1;
      }
    }

    /** send_and_receive. The events are what happened while it ran: any messages, and timers
        that ran out; the result and everything sent follow from them as React() says. */
    method SendAndReceive(request: Msg, timeout: real) returns (o: Outcome, ghost es: seq<ClientEvent>)
      requires Valid() && Model.phase == Idle
      modifies this
      ensures Valid() && Model.phase == Idle && uidCount == old(uidCount) + 1
      ensures var c := Begin(old(Model), request, retry);
              Abs() == ReactAll(Talk(c, old(output) + [c.requests[LastUid(c)]]), es)
      ensures old(uidCount) in Model.results && Model.results[old(uidCount)] == o
      // Which is: the request, then one message for each event that asks for one; and what the last event
      // says, which is the first that ends a call.
      ensures var msg, n := request.(uid := old(uidCount)), Max(1, retry.tries);
              old(output) + [msg] <= output &&
              Said(es, output[|old(output)| + 1..], msg, n) &&
              EndsAt(es, |es| - 1, msg.uid, n) && o == Ending(es, |es| - 1, msg.uid) &&
              Waited(old(waits), es, msg.uid, timeout)
    {
      hide Says, Said, EndsAt, EndsCall, Ending, PastSending, React, ReactAll, Stands, AckedBefore, Timeouts,
           Waited, LastEnds;
      ghost var before, wasSent, waited := Model, output, waits;
      var msg := request.(uid := uidCount);
      uidCount := uidCount + 1;
      Model := Begin(Model, request, retry);
      output := output + [msg];
      ghost var start := Abs();
      NoEvents(start);
      ghost var c, k;
      o, es, c, k := TryEach(msg, timeout, start);
      CallEnded(before, request, msg, wasSent, es, c, o);
      WaitedSo(waited, es, msg.uid, timeout, k, c.phase.Awaiting?);
    }
  }
}
