/**
 The server's end of the terminal. Waiting for input wakes up the reply cache, whose
 messages are written while the server still waits to read; every frame of such a
 message waits for its acknowledgement, and that wait does not wake up the cache again.
 */
module ServerComms {
  import opened Bytes
  import opened Decimals
  import opened TokenSpec
  import opened SharedIo
  import opened ChunkSpec
  import opened Transport
  import opened Msgs
  import opened CacheSpec
  import opened TimedCache

  /** What a select comes to: the timeout of the cache is over, or there is input. */
  datatype Poll = Silence | Readable

  /** What a call comes to as long as there are polls: a value; a ChunkReaderError, from an acknowledgement
      that is not the expected one; or nothing yet, the call being still at its wait for input. */
  datatype Answer<+T> = Got(value: T) | Garbled | Waiting

  // ---------- what was written, as a log ----------

  /** A message of which the first frames were written, or the acknowledgement of a received frame. */
  datatype Item = Sent(m: Msg, frames: nat) | ChunkAck(id: seq<Byte>)

  function FramesOf(ser: Serializer, m: Msg): seq<Noisy> { Chunks(StrMessage(ser(m)), 0) }

  predicate Writable(ser: Serializer, i: Item) { i.Sent? ==> i.frames <= |FramesOf(ser, i.m)| }

  predicate Complete(ser: Serializer, i: Item) {
    if i.Sent? then i.frames == |FramesOf(ser, i.m)| else |i.id| == ID_WIDTH
  }

  function ItemBytes(ser: Serializer, i: Item): seq<Byte>
    requires Writable(ser, i)
  {
    match i
    case Sent(m, frames) => Wire(FramesOf(ser, m)[..frames])
    case ChunkAck(id) => id
  }

  ghost predicate AllWritable(ser: Serializer, log: seq<Item>) {
    forall i :: 0 <= i < |log| ==> Writable(ser, log[i])
  }

  ghost function LogBytes(ser: Serializer, log: seq<Item>): seq<Byte>
    requires AllWritable(ser, log)
  {
    if log == [] then [] else LogBytes(ser, log[..|log| - 1]) + ItemBytes(ser, log[|log| - 1])
  }

  function LogMessages(log: seq<Item>): seq<Msg> {
    if log == [] then []
    else LogMessages(log[..|log| - 1]) + match log[|log| - 1] case Sent(m, _) => [m] case ChunkAck(_) => []
  }

  lemma LogGrows(ser: Serializer, log: seq<Item>, i: Item)
    requires AllWritable(ser, log) && Writable(ser, i)
    ensures AllWritable(ser, log + [i]) && LogBytes(ser, log + [i]) == LogBytes(ser, log) + ItemBytes(ser, i)
    ensures LogMessages(log + [i]) == LogMessages(log) + match i case Sent(m, _) => [m] case ChunkAck(_) => []
  {
    assert (log + [i])[..|log|] == log;
  }

  /** Between log and more only messages were written, all of them whole; but when torn the last may be cut short. */
  ghost predicate Grown(ser: Serializer, log: seq<Item>, more: seq<Item>, torn: bool) {
    log <= more &&
    forall i :: |log| <= i < |more| ==> more[i].Sent? && (Complete(ser, more[i]) || (torn && i == |more| - 1))
  }

  lemma GrownOn(ser: Serializer, log: seq<Item>, more: seq<Item>, most: seq<Item>, torn: bool)
    requires Grown(ser, log, more, false) && Grown(ser, more, most, torn)
    ensures Grown(ser, log, most, torn)
  {
    assert forall i :: |log| <= i < |more| ==> most[i] == more[i];
  }

  lemma NothingGrown(ser: Serializer, log: seq<Item>)
    ensures forall torn :: Grown(ser, log, log, torn)
  {
  }

  lemma {:induction false} ExpireAllAppend(c: Cache, us: seq<int>, vs: seq<int>)
    ensures ExpireAll(c, us + vs) == ExpireAll(ExpireAll(c, us), vs)
  {
    if vs == [] {
      assert us + vs == us;
    } else {
      var n := |vs| - 1;
      assert (us + vs)[..|us| + n] == us + vs[..n];
      ExpireAllAppend(c, us, vs[..n]);
    }
  }

  lemma NothingFired(c: Cache)
    ensures ExpireAll(c, []) == c
  {
  }

  /** From the log and the cache before to those behind: whole messages were written, the
      last perhaps cut short when torn, and the entries fired were woken up. */
  ghost predicate Wrote(ser: Serializer, log: seq<Item>, x: Timed, more: seq<Item>, y: Timed, fired: seq<int>,
                        torn: bool) {
    Grown(ser, log, more, torn) && Untimed(y) == ExpireAll(Untimed(x), fired)
  }

  lemma WroteNothing(ser: Serializer, log: seq<Item>, x: Timed)
    ensures forall torn :: Wrote(ser, log, x, log, x, [], torn)
  {
    NothingGrown(ser, log);
    NothingFired(Untimed(x));
  }

  lemma WroteWhole(ser: Serializer, log: seq<Item>, x: Timed, more: seq<Item>, y: Timed, fired: seq<int>)
    requires Wrote(ser, log, x, more, y, fired, false)
    ensures Wrote(ser, log, x, more, y, fired, true)
  {
  }

  lemma WroteOn(ser: Serializer, log: seq<Item>, x: Timed, more: seq<Item>, y: Timed, fired: seq<int>,
                most: seq<Item>, z: Timed, next: seq<int>, torn: bool)
    requires Wrote(ser, log, x, more, y, fired, false) && Wrote(ser, more, y, most, z, next, torn)
    ensures Wrote(ser, log, x, most, z, fired + next, torn)
  {
    hide Grown, ExpireAll, Untimed;
    GrownOn(ser, log, more, most, torn);
    ExpireAllAppend(Untimed(x), fired, next);
  }

  /** One frame is enough for a short message, and only for a short one. */
  lemma ShortIsOneFrame(ser: Serializer, m: Msg)
    ensures |FramesOf(ser, m)| >= 1
    ensures Short(ser, m) <==> |FramesOf(ser, m)| == 1
  {
    hide Chunks, Chunk;
    var s := StrMessage(ser(m));
    ChunkCount(s, 0, 0);
    ChunkCount(s, 0, 1);
  }

  lemma NoFrameYet(ser: Serializer, log: seq<Item>, m: Msg)
    requires AllWritable(ser, log)
    ensures var l := log + [Sent(m, 0)];
            AllWritable(ser, l) && LogBytes(ser, l) == LogBytes(ser, log) && LogMessages(l) == LogMessages(log) + [m]
  {
    hide Chunks, LogBytes;
    LogGrows(ser, log, Sent(m, 0));
    assert Wire(FramesOf(ser, m)[..0]) == [];
  }

  lemma NextFrame(ser: Serializer, log: seq<Item>, m: Msg, k: nat)
    requires AllWritable(ser, log) && k < |FramesOf(ser, m)|
    ensures var (l, l1, s) := (log + [Sent(m, k)], log + [Sent(m, k + 1)], StrMessage(ser(m)));
            k * CHUNKSIZE < |s| && AllWritable(ser, l) && AllWritable(ser, l1) &&
            LogMessages(l1) == LogMessages(l) &&
            LogBytes(ser, l1) == LogBytes(ser, l) + Frame(k % 10000, Chunk(s, k))
  {
    hide Chunks, Chunk, Frame, LogBytes, StrMessage;
    var fs := FramesOf(ser, m);
    LogGrows(ser, log, Sent(m, k));
    LogGrows(ser, log, Sent(m, k + 1));
    ChunkAt(StrMessage(ser(m)), 0, k);
    assert fs[..k + 1] == fs[..k] + [fs[k]];
    FramesAppend(fs[..k], [fs[k]]);
    var f := Frame(fs[k].id, fs[k].payload);
    assert Wire([fs[k]]) == [] + f + [] == f;
    Assoc(LogBytes(ser, log), Wire(fs[..k]), f);
  }

  // ---------- waiting, as a chain of passes over the cache ----------

  function Readables(ps: seq<Poll>): nat {
    if ps == [] then 0 else Readables(ps[..|ps| - 1]) + if ps[|ps| - 1] == Readable then 1 else 0
  }

  /** Of all polls the call took these itself, and left some; exactly when nobody else took any. */
  ghost predicate Took(all: seq<Poll>, own: seq<Poll>, left: seq<Poll>, exactly: bool) {
    |own| <= |all| - |left| && (own == [] ==> left == all) && (exactly ==> all == own + left)
  }

  lemma NothingTook(all: seq<Poll>)
    ensures Took(all, [], all, true) && Took(all, [], all, false)
  {
  }

  lemma OneMorePoll(all: seq<Poll>, own: seq<Poll>, left: seq<Poll>, exactly: bool)
    requires Took(all, own, left, exactly) && left != []
    ensures Took(all, own + [left[0]], left[1..], exactly)
    ensures Readables(own + [left[0]]) == Readables(own) + if left[0] == Readable then 1 else 0
  {
    assert (own + [left[0]])[..|own|] == own;
  }

  lemma OthersTook(all: seq<Poll>, own: seq<Poll>, left: seq<Poll>, exactly: bool, less: seq<Poll>, still: bool)
    requires Took(all, own, left, exactly) && own != [] && |less| <= |left| && (still ==> exactly && less == left)
    ensures Took(all, own, less, still)
  {
  }

  /** The polls that one call of _read took itself, the moments before, between and behind its passes over
      the cache, and these passes. */
  datatype Wait = Wait(polls: seq<Poll>, ms: seq<Moment>, passes: seq<Visits>)

  /** One pass after the other leads through the moments ms. All are whole, except that the last may be cut short. */
  ghost predicate PassChain(ms: seq<Moment>, passes: seq<Visits>, whole: bool) {
    |ms| == |passes| + 1 &&
    forall i :: 0 <= i < |passes| ==> PassedOver(ms[i], passes[i], whole || i < |passes| - 1, ms[i + 1])
  }

  function AllFired(ms: seq<Moment>, passes: seq<Visits>): seq<int>
    requires |ms| == |passes| + 1
  {
    if passes == [] then []
    else
      var n := |passes| - 1;
      AllFired(ms[..n + 1], passes[..n]) + Fired(ms[n].x, passes[n])
  }

  /** The passes of w lead from start to now, and wake up fired. */
  ghost predicate Waits(w: Wait, fired: seq<int>, start: Moment, now: Moment, whole: bool) {
    PassChain(w.ms, w.passes, whole) && fired == AllFired(w.ms, w.passes) &&
    w.ms[0] == start && w.ms[|w.passes|] == now
  }

  lemma NoPass(m: Moment)
    ensures forall whole :: Waits(Wait([], [m], []), [], m, m, whole)
    ensures Readables([]) == 0
  {
  }

  lemma WaitTook(w: Wait, fired: seq<int>, start: Moment, now: Moment, whole: bool, polls: seq<Poll>)
    requires Waits(w, fired, start, now, whole)
    ensures Waits(w.(polls := polls), fired, start, now, whole)
    ensures |w.ms| == |w.passes| + 1 && (w.passes == [] ==> start == now && fired == [])
  {
  }

  lemma ChainOn(ms: seq<Moment>, passes: seq<Visits>, vs: Visits, whole: bool, m: Moment)
    requires PassChain(ms, passes, true) && PassedOver(ms[|passes|], vs, whole, m)
    ensures PassChain(ms + [m], passes + [vs], whole)
    ensures AllFired(ms + [m], passes + [vs]) == AllFired(ms, passes) + Fired(ms[|passes|].x, vs)
  {
    hide PassedOver, Fired;
    assert (ms + [m])[..|ms|] == ms && (passes + [vs])[..|passes|] == passes;
  }

  lemma {:induction false} FirstPassCounts(ms: seq<Moment>, passes: seq<Visits>, u: int)
    requires |ms| == |passes| + 1 && passes != [] && u in Fired(ms[0].x, passes[0])
    ensures u in AllFired(ms, passes)
  {
    hide Fired;
    if |passes| > 1 {
      var n := |passes| - 1;
      FirstPassCounts(ms[..n + 1], passes[..n], u);
    } else {
      assert AllFired(ms[..1], passes[..0]) == [];
    }
  }

  /** What is due when the wait begins is sent or retired by its first pass. */
  lemma DueIsFired(ms: seq<Moment>, passes: seq<Visits>, u: int)
    requires PassChain(ms, passes, true) && passes != [] && Due(ms[0].x, u, ms[0].clock)
    ensures u in AllFired(ms, passes)
  {
    hide Fired;
    assert PassedOver(ms[0], passes[0], true, ms[1]);
    DueInPass(ms[0].x, passes[0], ms[0].clock);
    FirstPassCounts(ms, passes, u);
  }

  /** The last of the visits sends a message that takes more than one frame. */
  ghost predicate SendsLong(ser: Serializer, x: Timed, vs: Visits) {
    vs != [] &&
    var y, (u, now) := VisitAll(x, vs[..|vs| - 1]), vs[|vs| - 1];
    Goes(y, u, now) && !Short(ser, y.slots[u].msg)
  }

  /** Some visit of the pass sends a message that takes more than one frame. */
  ghost predicate HasLong(ser: Serializer, x: Timed, vs: Visits) {
    exists i :: LongAt(ser, x, vs, i)
  }

  ghost predicate LongAt(ser: Serializer, x: Timed, vs: Visits, i: int) {
    0 <= i < |vs| && SendsLong(ser, x, vs[..i + 1])
  }

  ghost predicate NoneLong(ser: Serializer, ms: seq<Moment>, passes: seq<Visits>) {
    |passes| < |ms| && forall i :: 0 <= i < |passes| ==> !HasLong(ser, ms[i].x, passes[i])
  }

  lemma NothingLong(ser: Serializer, m: Moment)
    ensures NoneLong(ser, [m], [])
  {
  }

  lemma LongOn(ser: Serializer, x: Timed, vs: Visits, v: (int, real))
    ensures HasLong(ser, x, vs) || SendsLong(ser, x, vs + [v]) ==> HasLong(ser, x, vs + [v])
  {
    var ws := vs + [v];
    assert ws[..|ws|] == ws;
    if i :| LongAt(ser, x, vs, i) {
      assert ws[..i + 1] == vs[..i + 1];
      assert LongAt(ser, x, ws, i);
    } else if SendsLong(ser, x, ws) {
      assert LongAt(ser, x, ws, |vs|);
    }
  }

  lemma WaitsOn(ser: Serializer, w: Wait, fired: seq<int>, start: Moment, now: Moment, vs: Visits, whole: bool,
                m: Moment)
    returns (w': Wait)
    requires Waits(w, fired, start, now, true) && PassedOver(now, vs, whole, m)
    ensures Waits(w', fired + Fired(now.x, vs), start, m, whole)
    ensures w'.polls == w.polls && |w'.passes| == |w.passes| + 1
    ensures NoneLong(ser, w'.ms, w'.passes) <==> NoneLong(ser, w.ms, w.passes) && !HasLong(ser, now.x, vs)
  {
    hide HasLong, PassedOver, Fired;
    ChainOn(w.ms, w.passes, vs, whole, m);
    var ms, passes, n := w.ms + [m], w.passes + [vs], |w.passes|;
    assert forall i :: 0 <= i < n ==> ms[i] == w.ms[i] && passes[i] == w.passes[i];
    assert ms[n] == w.ms[n] && passes[n] == vs;
    w' := Wait(w.polls, ms, passes);
  }

  lemma DueAreFired(w: Wait, fired: seq<int>, start: Moment, now: Moment)
    requires Waits(w, fired, start, now, true) && w.passes != []
    ensures forall u :: Due(start.x, u, start.clock) ==> u in fired
  {
    forall u | Due(start.x, u, start.clock)
      ensures u in fired
    {
      DueIsFired(w.ms, w.passes, u);
    }
  }

  class ServerComm {
    const serialize: Serializer
    var polls: seq<Poll>       // what select will come to
    var pending: seq<Byte>     // what the terminal will deliver
    var output: seq<Byte>
    var cache: Timed           // the reply cache as a value
    var clock: real            // what its clock showed last
    var chunkAckReading: bool
    var sleepBeforeRead: bool
    ghost var log: seq<Item>   // what output is made of
    ghost var failures: nat    // reads that raised

    /** Everything written is a row of messages and acknowledgements, and
        the messages are those that the cache and the server sent, in their order. Reads
        are slowed down once one of them has raised. */
    ghost predicate Valid()
      reads this
    {
      AllWritable(serialize, log) && output == LogBytes(serialize, log) && LogMessages(log) == cache.sent &&
      (sleepBeforeRead <==> failures > 0) && cache.lap <= clock
    }

    constructor (serialize: Serializer, retry: Retry, polls: seq<Poll>, pending: seq<Byte>, clock: real)
      ensures Valid() && !chunkAckReading && log == [] && output == []
      ensures cache == Timed(retry, map[], {}, [], clock)
    {
      this.serialize, this.polls, this.pending, output := serialize, polls, pending, [];
      cache, this.clock, chunkAckReading, sleepBeforeRead := Timed(retry, map[], {}, [], clock), clock, false, false;
      log, failures := [], 0;
    }

    method PushMsg(m: Msg)
      requires Valid()
      modifies this`cache
      ensures Valid() && cache == PushTimed(old(cache), m)
    {
      cache := PushTimed(cache, m);
    }

    method Acknowledged(u: int)
      requires Valid()
      modifies this`cache
      ensures Valid() && cache == RemoveTimed(old(cache), u)
    {
      cache := RemoveTimed(cache, u);
    }

    /** The corrected clock, which advances from reading to reading. */
    method Time(earliest: real)
      modifies this`clock
      ensures clock > old(clock) && clock >= earliest
    {
      var t: real := *;
      if t <= clock || t < earliest {
        t := if clock < earliest then earliest else clock + 1.0;
      }
      clock := t;
    }

    /** os.read on a descriptor that does not block: what select saw may be gone by now,
        read by a wait for an acknowledgement, and the read may raise for other reasons. */
    method ReadSleepIfNeeded(n: nat) returns (r: Option<seq<Byte>>)
      requires n > 0
      modifies this`pending, this`failures
      ensures failures == old(failures) + if r.None? then 1 else 0
      ensures r.Some? ==> 1 <= |r.value| <= n
      ensures old(pending) == (if r.Some? then r.value else []) + pending
    {
      var raises: bool := *;
      if raises || pending == [] {
        failures := failures + 1;
        return None;
      }
      var k: nat :| 1 <= k <= n && k <= |pending|;
      r := Some(pending[..k]);
      pending := pending[k..];
    }

    /** select */
    method Select() returns (poll: Poll)
      requires Valid() && polls != []
      modifies this`polls
      ensures Valid() && poll == old(polls)[0] && polls == old(polls)[1..]
    {
      poll := polls[0];
      polls := polls[1..];
    }

    /** The read of _read, and what it does when that raises: reads are slowed down from then on. */
    method TryRead(n: nat) returns (r: Option<seq<Byte>>)
      requires Valid() && n > 0
      modifies this`pending, this`failures, this`sleepBeforeRead
      ensures Valid() && failures == old(failures) + if r.None? then 1 else 0
      ensures r.Some? ==> 1 <= |r.value| <= n
      ensures old(pending) == (if r.Some? then r.value else []) + pending
    {
      r := ReadSleepIfNeeded(n);
      if r.None? {
        sleepBeforeRead := true;
      }
    }

    /** _read. depth counts the calls of it that are under way: a second one happens only inside the wait for
        an acknowledgement, and never a third. Outside such a wait each poll that the call takes is followed by a
        pass over the cache, whole unless the call ends in it; and then, if it saw input, by a read. */
    method Read(n: nat, ghost depth: nat)
      returns (r: Answer<seq<Byte>>, ghost fired: seq<int>, ghost w: Wait)
      requires Valid() && n > 0 && depth <= 1 && (depth == 1 ==> chunkAckReading)
      modifies this
      ensures Valid() && |polls| <= |old(polls)| && failures >= old(failures) && (r.Waiting? ==> polls == [])
      ensures r.Got? ==> 1 <= |r.value| <= n && |polls| < |old(polls)|
      ensures if old(chunkAckReading) then chunkAckReading && !r.Garbled? else chunkAckReading ==> r.Waiting?
      ensures old(chunkAckReading) ==>
                log == old(log) && output == old(output) && cache == old(cache) && clock == old(clock) &&
                old(pending) == (if r.Got? then r.value else []) + pending
      ensures Wrote(serialize, old(log), old(cache), log, cache, fired, !r.Got?)
      ensures r.Got? && OnTime(old(cache)) ==> OnTime(cache)
      // The polls, and the reads.
      ensures Took(old(polls), w.polls, polls, old(chunkAckReading) || NoneLong(serialize, w.ms, w.passes))
      ensures r.Got? ==> w.polls != [] && w.polls[|w.polls| - 1] == Readable
      ensures !(r.Garbled? || (r.Waiting? && chunkAckReading != old(chunkAckReading))) ==>
                failures - old(failures) >= Readables(w.polls) - if r.Got? then 1 else 0
      // The passes over the cache.
      ensures Waits(w, fired, Moment(old(cache), old(clock)), Moment(cache, clock),
                    !(r.Garbled? || (r.Waiting? && chunkAckReading != old(chunkAckReading))))
      ensures |w.passes| == if old(chunkAckReading) then 0 else |w.polls|
      ensures r.Got? && !old(chunkAckReading) ==> forall u :: Due(old(cache), u, old(clock)) ==> u in fired
      decreases !chunkAckReading, 4
    {
      hide *;
      NothingTook(polls);
      ghost var start := Moment(cache, clock);
      WroteNothing(serialize, log, cache);
      NoPass(start);
      NothingLong(serialize, start);
      fired, w := [], Wait([], [start], []);
      while true
        invariant Valid() && chunkAckReading == old(chunkAckReading) && |polls| <= |old(polls)|
        invariant chunkAckReading ==>
                    log == old(log) && output == old(output) && cache == old(cache) && clock == old(clock) &&
                    pending == old(pending)
        invariant Wrote(serialize, old(log), old(cache), log, cache, fired, false)
        invariant OnTime(old(cache)) ==> OnTime(cache)
        invariant Took(old(polls), w.polls, polls, chunkAckReading || NoneLong(serialize, w.ms, w.passes))
        invariant failures - old(failures) >= Readables(w.polls)
        invariant Waits(w, fired, start, Moment(cache, clock), true)
        invariant |w.passes| == if chunkAckReading then 0 else |w.polls|
        decreases |polls|
      {
        if polls == [] {
          WroteWhole(serialize, old(log), old(cache), log, cache, fired);
          r := Waiting;
          return;
        }
        ghost var exactly := chunkAckReading || NoneLong(serialize, w.ms, w.passes);
        OneMorePoll(old(polls), w.polls, polls, exactly);
        var poll := Select();
        WaitTook(w, fired, start, Moment(cache, clock), true, w.polls + [poll]);
        w := w.(polls := w.polls + [poll]);
        var s;
        ghost var left := polls;
        s, fired, w := WakeCache(start, old(log), fired, w);
        OthersTook(old(polls), w.polls, left, exactly, polls,
                   old(chunkAckReading) || NoneLong(serialize, w.ms, w.passes));
        if !s.Got? {
          r := if s.Garbled? then Garbled else Waiting;
          return;
        }
        if poll == Readable {
          var t := TryRead(n);
          if t.Some? {
            r := Got(t.value);
            if !chunkAckReading {
              DueAreFired(w, fired, start, Moment(cache, clock));
            }
            return;
          }
        }
      }
    }

    /** The next pass of a wait that began at start with the log before; none within the wait for an acknowledgement. */
    method WakeCache(ghost start: Moment, ghost before: seq<Item>, ghost fired: seq<int>, ghost w: Wait)
      returns (r: Answer<()>, ghost fired': seq<int>, ghost w': Wait)
      requires Valid() && Waits(w, fired, start, Moment(cache, clock), true)
      requires Wrote(serialize, before, start.x, log, cache, fired, false)
      modifies this
      ensures Valid() && |polls| <= |old(polls)| && (r.Waiting? ==> polls == [])
      ensures if old(chunkAckReading) then chunkAckReading && r.Got? else chunkAckReading <==> r.Waiting?
      ensures old(chunkAckReading) ==>
                log == old(log) && output == old(output) && cache == old(cache) && clock == old(clock) &&
                pending == old(pending) && polls == old(polls)
      ensures Waits(w', fired', start, Moment(cache, clock), r.Got?) && w'.polls == w.polls
      ensures |w'.passes| == |w.passes| + if old(chunkAckReading) then 0 else 1
      ensures NoneLong(serialize, w'.ms, w'.passes) ==> NoneLong(serialize, w.ms, w.passes) && polls == old(polls)
      ensures Wrote(serialize, before, start.x, log, cache, fired', !r.Got?)
      ensures failures >= old(failures) && (r.Got? && OnTime(old(cache)) ==> OnTime(cache))
      decreases !chunkAckReading, 3
    {
      hide AllWritable, LogBytes, LogMessages, Grown, ExpireAll, Untimed, OnTime, VisitAll, Round, TimedCache.Whole,
           Waits, PassedOver, Fired, HasLong, NoneLong, AllShort, SendsLong;
      if chunkAckReading {
        return Got(()), fired, w;
      }
      ghost var now, l := Moment(cache, clock), log;
      ghost var vs;
      r, vs := SendExpired(clock, 1);
      WroteOn(serialize, before, start.x, l, now.x, fired, log, cache, Fired(now.x, vs), !r.Got?);
      fired' := fired + Fired(now.x, vs);
      w' := WaitsOn(serialize, w, fired, start, now, vs, r.Got?, Moment(cache, clock));
    }

    /** send_expired: every entry whose wait is over is written or retired. The pass ends early, and the lap
        stays, when a message is garbled; and it does not end while a message waits for an acknowledgement. */
    method SendExpired(earliest: real, ghost depth: nat) returns (r: Answer<()>, ghost vs: Visits)
      requires Valid() && !chunkAckReading && depth <= 1
      modifies this
      ensures Valid() && |polls| <= |old(polls)| && (r.Waiting? <==> chunkAckReading) && (r.Waiting? ==> polls == [])
      ensures Grown(serialize, old(log), log, !r.Got?)
      ensures Round(old(cache), vs, old(clock)) && (vs != [] ==> vs[0].1 >= earliest)
      ensures if r.Got? then TimedCache.Whole(old(cache), vs) && cache == VisitAll(old(cache), vs).(lap := clock)
              else vs != [] && cache == VisitAll(old(cache), vs) && SendsLong(serialize, old(cache), vs)
      ensures PassedOver(Moment(old(cache), old(clock)), vs, r.Got?, Moment(cache, clock))
      ensures failures >= old(failures) && (polls != old(polls) ==> HasLong(serialize, old(cache), vs))
      ensures r.Got? && OnTime(old(cache)) ==> OnTime(cache)
      ensures Untimed(cache) == ExpireAll(Untimed(old(cache)), Fired(old(cache), vs))
      // Without input.
      ensures old(pending) == [] ==> pending == [] && !r.Garbled?
      ensures old(pending) == [] && r.Got? ==> (AllShort(serialize, cache) <==> AllShort(serialize, old(cache)))
      ensures old(pending) == [] && r.Waiting? ==> !AllShort(serialize, old(cache))
      decreases !chunkAckReading, 2
    {
      hide AllWritable, LogBytes, LogMessages, InPass, SendsLong, VisitAll, OnTime, Untimed, Fired, ExpireAll,
           AllShort, PassedOver, HasLong;
      ghost var x, start := cache, clock;
      vs := [];
      StartPass(earliest);
      NothingGrown(serialize, log);
      var todo := cache.slots.Keys;
      while todo != {}
        invariant Valid() && !chunkAckReading && |polls| <= |old(polls)|
        invariant Grown(serialize, old(log), log, false) && InPass(x, start, vs, todo, earliest)
        invariant failures >= old(failures) && (polls != old(polls) ==> HasLong(serialize, x, vs))
        invariant old(pending) == [] ==> pending == [] && (AllShort(serialize, cache) <==> AllShort(serialize, x))
        decreases |todo|
      {
        ghost var some := SomeMember(todo);
        var u :| u in todo;
        ghost var before := log;
        r, vs := VisitNext(x, start, vs, todo, earliest, u, depth);
        GrownOn(serialize, old(log), before, log, !r.Got?);
        todo := todo - {u};
        if !r.Got? {
          SoFar(x, start, vs, todo, earliest);
          LongCuts(x, start, vs);
          return;
        }
      }
      SoFar(x, start, vs, todo, earliest);
      Time(earliest);
      WholePass(x, start, vs, clock);
      WholePassOnTime(x, vs, start, clock);
      LapMoved(cache, clock);
      cache := cache.(lap := clock);
      r := Got(());
    }

    /** In a pass that began with x at time start. */
    ghost predicate InPass(x: Timed, start: real, vs: Visits, todo: set<int>, earliest: real)
      reads this
    {
      Passing(x, start, vs, todo, cache, clock) && todo <= cache.slots.Keys && (vs != [] ==> vs[0].1 >= earliest)
    }

    lemma LongCuts(x: Timed, start: real, vs: Visits)
      requires Round(x, vs, start) && SendsLong(serialize, x, vs)
      ensures vs != [] && PassedOver(Moment(x, start), vs, false, Moment(VisitAll(x, vs), vs[|vs| - 1].1))
    {
      CutPass(x, start, vs);
    }

    lemma StartPass(earliest: real)
      ensures InPass(cache, clock, [], cache.slots.Keys, earliest)
    {
      PassBegins(cache, clock);
    }

    lemma SoFar(x: Timed, start: real, vs: Visits, todo: set<int>, earliest: real)
      requires InPass(x, start, vs, todo, earliest)
      ensures Round(x, vs, start) && cache == VisitAll(x, vs) && (todo == {} ==> TimedCache.Whole(x, vs))
      ensures vs != [] ==> vs[0].1 >= earliest && vs[|vs| - 1].1 == clock
      ensures clock >= start && forall i :: 0 <= i < |vs| ==> vs[i].1 <= clock
      ensures Untimed(cache) == ExpireAll(Untimed(x), Fired(x, vs))
    {
      hide VisitAll, Fired, ExpireAll;
      PassSoFar(x, start, vs, todo, cache, clock);
    }

    method VisitNext(ghost x: Timed, ghost start: real, ghost vs: Visits, ghost todo: set<int>, earliest: real,
                     u: int, ghost depth: nat)
      returns (r: Answer<()>, ghost ws: Visits)
      requires Valid() && !chunkAckReading && depth <= 1 && u in todo && InPass(x, start, vs, todo, earliest)
      modifies this
      ensures Valid() && |polls| <= |old(polls)| && (r.Waiting? <==> chunkAckReading) && (r.Waiting? ==> polls == [])
      ensures Grown(serialize, old(log), log, !r.Got?)
      ensures InPass(x, start, ws, todo - {u}, earliest) && ws != [] && (!r.Got? ==> SendsLong(serialize, x, ws))
      ensures failures >= old(failures)
      ensures HasLong(serialize, x, vs) || polls != old(polls) ==> HasLong(serialize, x, ws)
      ensures old(pending) == [] ==> pending == [] && !r.Garbled?
      ensures old(pending) == [] && r.Got? ==> (AllShort(serialize, cache) <==> AllShort(serialize, old(cache)))
      ensures old(pending) == [] && r.Waiting? ==> !AllShort(serialize, old(cache))
      decreases !chunkAckReading, 1, 1
    {
      hide AllWritable, LogBytes, LogMessages, Round, VisitAll, Visited, Visit, Grown, Short, Goes, HasLong;
      r := ExpireOne(u, earliest, depth);
      PassGoesOn(x, start, vs, todo, old(cache), old(clock), u, clock);
      VisitOthers(old(cache), u, clock);
      ws := vs + [(u, clock)];
      assert ws[..|vs|] == vs;
      LongOn(serialize, x, vs, (u, clock));
      if old(pending) == [] && r.Got? {
        ShortKept(serialize, old(cache), u, clock);
      }
      if r.Waiting? {
        LongToSend(serialize, old(cache), u, clock);
      }
    }

    /** The entry u: when its wait is over its schedule moves on, and then its message is written. */
    method ExpireOne(u: int, earliest: real, ghost depth: nat) returns (r: Answer<()>)
      requires Valid() && !chunkAckReading && depth <= 1 && u in cache.slots
      modifies this
      ensures Valid() && |polls| <= |old(polls)| && (r.Waiting? <==> chunkAckReading) && (r.Waiting? ==> polls == [])
      ensures Grown(serialize, old(log), log, !r.Got?)
      ensures clock > old(clock) && clock >= earliest && cache == Visit(old(cache), u, clock)
      ensures !r.Got? || polls != old(polls) ==>
                Goes(old(cache), u, clock) && !Short(serialize, old(cache).slots[u].msg)
      ensures failures >= old(failures)
      ensures old(pending) == [] ==>
                pending == [] && !r.Garbled? &&
                (r.Got? <==> (Goes(old(cache), u, clock) ==> Short(serialize, old(cache).slots[u].msg)))
      decreases !chunkAckReading, 1, 0
    {
      hide AllWritable, LogBytes, LogMessages, Complete, Short, Visit;
      Time(earliest);
      ghost var x := cache;
      VisitFields(x, u, clock);
      if Goes(cache, u, clock) {
        var msg := cache.slots[u].msg;
        cache := Visit(cache, u, clock).(sent := cache.sent);
        r := WriteStr(msg, depth);
      } else {
        cache := Visit(cache, u, clock);
        r := Got(());
      }
    }

    /** write_str and the loop of write: frame by frame, waiting for the acknowledgement of
        every frame whose id is not 0. Nothing comes between the frames. */
    method WriteStr(m: Msg, ghost depth: nat) returns (r: Answer<()>)
      requires Valid() && !chunkAckReading && depth <= 1
      modifies this
      ensures Valid() && |polls| <= |old(polls)| && (r.Waiting? <==> chunkAckReading) && (r.Waiting? ==> polls == [])
      ensures exists k :: log == old(log) + [Sent(m, k)] && (r.Got? ==> Complete(serialize, Sent(m, k)))
      ensures cache == old(cache).(sent := old(cache).sent + [m]) && clock == old(clock)
      ensures failures >= old(failures) && (Short(serialize, m) ==> r.Got? && polls == old(polls))
      ensures old(pending) == [] ==> pending == [] && !r.Garbled? && (r.Got? ==> Short(serialize, m))
      decreases !chunkAckReading, 0, 1
    {
      hide AllWritable, LogBytes, LogMessages, ItemBytes, Frame, Chunk, Chunks, Short;
      var s := StrMessage(serialize(m));
      var k := 0;
      NoFrameYet(serialize, log, m);
      ShortIsOneFrame(serialize, m);
      log := log + [Sent(m, 0)];
      cache := cache.(sent := cache.sent + [m]);
      ChunkCount(s, 0, 0);
      while k * CHUNKSIZE < |s|
        invariant Valid() && !chunkAckReading && |polls| <= |old(polls)| && clock == old(clock)
        invariant log == old(log) + [Sent(m, k)] && cache == old(cache).(sent := old(cache).sent + [m])
        invariant k <= |FramesOf(serialize, m)| && AllWritable(serialize, old(log))
        invariant old(pending) == [] ==> pending == [] && k <= 1
        invariant failures >= old(failures) && (k <= 1 ==> polls == old(polls))
        decreases |s| - k * CHUNKSIZE
      {
        var id := k % 10000;
        ChunkCount(s, 0, k);
        output := output + Frame(id, Chunk(s, k));
        NextFrame(serialize, old(log), m, k);
        k := k + 1;
        log := old(log) + [Sent(m, k)];
        r := ReadAck(id, depth);
        if !r.Got? {
          return;
        }
      }
      ChunkCount(s, 0, k);
      r := Got(());
    }

    /** _read_ack and its check. As long as the wait lasts the flag stays up. */
    method ReadAck(id: nat, ghost depth: nat) returns (r: Answer<()>)
      requires Valid() && !chunkAckReading && depth <= 1
      modifies this
      ensures Valid() && |polls| <= |old(polls)| && (r.Waiting? <==> chunkAckReading) && (r.Waiting? ==> polls == [])
      ensures log == old(log) && output == old(output) && cache == old(cache) && clock == old(clock)
      ensures failures >= old(failures) && (id == 0 ==> r.Got? && pending == old(pending) && polls == old(polls))
      ensures id != 0 && !r.Waiting? ==>
                exists ack :: |ack| == ID_WIDTH && old(pending) == ack + pending &&
                              (r.Got? <==> ParseInt(ack) == Some(id))
      ensures id != 0 && |old(pending)| < ID_WIDTH ==> r.Waiting?
      ensures |pending| <= |old(pending)|
      decreases !chunkAckReading, 0, 0
    {
      hide ParseInt;
      if id == 0 {
        return Got(());
      }
      chunkAckReading := true;
      ghost var fired;
      var s;
      s, fired := ReadRaw(ID_WIDTH, depth);
      if s.Waiting? {
        return Waiting;
      }
      chunkAckReading := false;
      r := if ParseInt(s.value) == Some(id) then Got(()) else Garbled;
    }

    /** _read_until_size */
    method ReadRaw(n: int, ghost depth: nat) returns (r: Answer<seq<Byte>>, ghost fired: seq<int>)
      requires Valid() && depth <= 1 && (depth == 1 ==> chunkAckReading)
      modifies this
      ensures Valid() && |polls| <= |old(polls)| && failures >= old(failures) && (r.Waiting? ==> polls == [])
      ensures r.Got? ==> |r.value| == Max(n, 0)
      ensures if old(chunkAckReading) then chunkAckReading && !r.Garbled? else chunkAckReading ==> r.Waiting?
      ensures old(chunkAckReading) ==>
                log == old(log) && output == old(output) && cache == old(cache) && clock == old(clock) &&
                |pending| <= |old(pending)| && (r.Got? ==> old(pending) == r.value + pending)
      ensures Wrote(serialize, old(log), old(cache), log, cache, fired, !r.Got?)
      ensures r.Got? && n > 0 && !old(chunkAckReading) ==> forall u :: Due(old(cache), u, old(clock)) ==> u in fired
      decreases !chunkAckReading, 5
    {
      hide AllWritable, LogBytes, LogMessages, Wrote, Due, Took, Waits, NoneLong, Readables;
      WroteNothing(serialize, log, cache);
      var got: seq<Byte> := [];
      fired := [];
      while |got| < n
        invariant Valid() && chunkAckReading == old(chunkAckReading) && |polls| <= |old(polls)|
        invariant |got| <= Max(n, 0) && failures >= old(failures)
        invariant if got == [] then |polls| <= |old(polls)| && cache == old(cache) && clock == old(clock) && fired == []
                  else !chunkAckReading ==> forall u :: Due(old(cache), u, old(clock)) ==> u in fired
        invariant chunkAckReading ==>
                    log == old(log) && output == old(output) && cache == old(cache) && clock == old(clock) &&
                    old(pending) == got + pending
        invariant Wrote(serialize, old(log), old(cache), log, cache, fired, false)
        decreases |polls|
      {
        var s;
        ghost var more, before, x := [], log, cache;
        ghost var w;
        s, more, w := Read(n - |got|, depth);
        WroteOn(serialize, old(log), old(cache), before, x, fired, log, cache, more, !s.Got?);
        fired := fired + more;
        if !s.Got? {
          return s, fired;
        }
        got := got + s.value;
      }
      r := Got(got);
    }

    /** _write_ack, of the chunk reader: the id as it stood in the header. */
    method WriteChunkAck(id: seq<Byte>)
      requires Valid() && |id| == ID_WIDTH
      modifies this`output, this`log
      ensures Valid() && log == old(log) + [ChunkAck(id)] && output == old(output) + id
      ensures CHUNK_TOKEN[19] !in id ==> LogStep(serialize, old(log), log)
    {
      LogGrows(serialize, log, ChunkAck(id));
      output := output + id;
      log := log + [ChunkAck(id)];
      assert cache.sent + [] == cache.sent;
    }

    /** After a run of calls that all came to an end, what was written reads back as what was sent. */
    lemma OutputReadsBack(logs: seq<seq<Item>>)
      requires Valid() && IsLogRun(serialize, logs) && logs[|logs| - 1] == log
      requires Sendable(Texts(serialize, cache.sent))
      ensures var ms := Texts(serialize, cache.sent);
              ReadAll(|ms|, Chan([], output, [])) == Done(ms, Chan([], Trailing(log), Acks(AllChunks(ms))))
    {
      hide AllChunks, ReadAll, Acks, Sendable, Texts, LogBytes, Trailing, Proper, IsLogRun;
      RunIsProper(serialize, logs);
      LogReadsBack(serialize, log);
    }

    /** timeout: the shortest wait of the cache. */
    method MinTimeout() returns (t: real)
      requires cache.slots.Keys != {}
      ensures (exists u :: u in cache.slots && cache.slots[u].timeout == t)
      ensures forall u :: u in cache.slots ==> t <= cache.slots[u].timeout
    {
      ghost var some := SomeMember(cache.slots.Keys);
      var first :| first in cache.slots.Keys;
      t := cache.slots[first].timeout;
      var todo := cache.slots.Keys - {first};
      while todo != {}
        invariant todo <= cache.slots.Keys && exists u :: u in cache.slots && cache.slots[u].timeout == t
        invariant forall u :: u in cache.slots && u !in todo ==> t <= cache.slots[u].timeout
      {
        ghost var other := SomeMember(todo);
        var u :| u in todo;
        if cache.slots[u].timeout < t {
          t := cache.slots[u].timeout;
        }
        todo := todo - {u};
      }
    }

    /** The loop of _read when no input ever comes: select returns when the shortest wait of the cache is over,
        again and again. This ends, with every reply sent as often as its schedule still says and then retired,
        if and only if each reply that is still to be sent fits one frame. Otherwise the first that does not is
        written, and the wait for its acknowledgement uses up all polls, however many there are. */
    method Drain() returns (ended: bool)
      requires Valid() && Keyed(Untimed(cache)) && !chunkAckReading && pending == []
      modifies this
      ensures Valid() && (ended <==> AllShort(serialize, old(cache)))
      ensures ended ==>
                cache.slots.Keys == {} && cache.removed == old(cache).removed + old(cache).slots.Keys &&
                forall u :: Sends(cache.sent, u) == Sends(old(cache).sent, u) + Left(Untimed(old(cache)), u)
      ensures !ended ==> chunkAckReading && polls == []
    {
      hide AllWritable, LogBytes, LogMessages, Grown, AllShort, Accounted, Work, ExpireAll, VisitAll, Round, Fired,
           TimedCache.Whole, SendsLong, OnTime;
      StillAccounted(Untimed(cache));
      while cache.slots.Keys != {}
        invariant Valid() && !chunkAckReading && pending == [] && Keyed(Untimed(cache))
        invariant AllShort(serialize, cache) <==> AllShort(serialize, old(cache))
        invariant Accounted(Untimed(old(cache)), Untimed(cache))
        decreases Work(Untimed(cache).cached)
      {
        ghost var x, start := cache, clock;
        var t := MinTimeout();
        ghost var u :| u in x.slots && x.slots[u].timeout == t;
        var r;
        ghost var vs;
        r, vs := SendExpired(cache.lap + t, 1);
        if r.Waiting? {
          return false;
        }
        PassWorks(x, vs, start, u);
        StillAccountedOn(Untimed(old(cache)), Untimed(x), Fired(x, vs));
        assert Untimed(cache) == Untimed(VisitAll(x, vs));
      }
      NothingToSend(serialize, cache);
      AllAccounted(old(cache), cache);
      ended := true;
    }
  }

  lemma LapMoved(x: Timed, t: real)
    ensures Untimed(x.(lap := t)) == Untimed(x)
    ensures forall ser :: AllShort(ser, x.(lap := t)) <==> AllShort(ser, x)
  {
  }

  lemma VisitOthers(x: Timed, u: int, now: real)
    ensures Visit(x, u, now).slots.Keys >= x.slots.Keys - {u}
  {
  }

  lemma LongToSend(ser: Serializer, x: Timed, u: int, now: real)
    requires Goes(x, u, now) && !Short(ser, x.slots[u].msg)
    ensures !AllShort(ser, x)
  {
  }

  lemma NothingToSend(ser: Serializer, x: Timed)
    requires x.slots.Keys == {}
    ensures AllShort(ser, x)
  {
  }

  lemma PassWorks(x: Timed, vs: Visits, t: real, u: int)
    requires Round(x, vs, t) && TimedCache.Whole(x, vs) && u in x.slots
    requires vs != [] ==> x.lap + x.slots[u].timeout <= vs[0].1
    ensures Work(Untimed(VisitAll(x, vs)).cached) < Work(Untimed(x).cached)
  {
    assert Visited(u, vs);
    ShortestWaitWorks(x, vs, t, u);
  }

  lemma StillAccounted(c: Cache)
    ensures Accounted(c, c)
  {
  }

  lemma StillAccountedOn(c: Cache, d: Cache, us: seq<int>)
    requires Accounted(c, d) && Keyed(d)
    ensures Accounted(c, ExpireAll(d, us)) && Keyed(ExpireAll(d, us))
  {
    hide ExpireAll;
    ExpireAllAccounted(d, us);
    ExpireAllConserves(d, us, 0);
  }

  lemma AllAccounted(x: Timed, y: Timed)
    requires Accounted(Untimed(x), Untimed(y)) && y.slots.Keys == {}
    ensures y.removed == x.removed + x.slots.Keys
    ensures forall u :: Sends(y.sent, u) == Sends(x.sent, u) + Left(Untimed(x), u)
  {
    assert Untimed(y).cached.Keys == {} && Untimed(x).cached.Keys == x.slots.Keys;
    forall u
      ensures Sends(y.sent, u) == Sends(x.sent, u) + Left(Untimed(x), u)
    {
      assert Left(Untimed(y), u) == 0;
    }
  }

  // ---------- what the other end makes of it ----------

  /** The acknowledgements of received frames that were written since the last message. */
  function Trailing(log: seq<Item>): seq<Byte> {
    if log == [] then []
    else
      match log[|log| - 1]
      case Sent(_, _) => []
      case ChunkAck(id) => Trailing(log[..|log| - 1]) + id
  }

  function Prefixed(noise: seq<Byte>, fs: seq<Noisy>): seq<Noisy> {
    if fs == [] then [] else [fs[0].(noise := noise)] + fs[1..]
  }

  /** The frames of all messages, every acknowledgement being rubbish before the next of them. */
  function LogFrames(ser: Serializer, log: seq<Item>): seq<Noisy> {
    if log == [] then []
    else
      var front := log[..|log| - 1];
      match log[|log| - 1]
      case Sent(m, _) => LogFrames(ser, front) + Prefixed(Trailing(front), FramesOf(ser, m))
      case ChunkAck(_) => LogFrames(ser, front)
  }

  function Texts(ser: Serializer, ms: seq<Msg>): seq<seq<Byte>> {
    seq(|ms|, i requires 0 <= i < |ms| => ser(ms[i]))
  }

  /** Complete messages, and acknowledgements without the last byte of the token in them. */
  ghost predicate Proper(ser: Serializer, log: seq<Item>) {
    AllWritable(ser, log) &&
    forall i :: 0 <= i < |log| ==>
      Complete(ser, log[i]) && (log[i].ChunkAck? ==> CHUNK_TOKEN[19] !in log[i].id)
  }

  /** Calls that came to an end wrote whole messages; or an acknowledgement was written. */
  ghost predicate LogStep(ser: Serializer, log: seq<Item>, more: seq<Item>) {
    AllWritable(ser, more) &&
    (Grown(ser, log, more, false) ||
     exists id :: |id| == ID_WIDTH && CHUNK_TOKEN[19] !in id && more == log + [ChunkAck(id)])
  }

  ghost predicate IsLogRun(ser: Serializer, logs: seq<seq<Item>>) {
    logs != [] && logs[0] == [] && forall i :: 0 < i < |logs| ==> LogStep(ser, logs[i - 1], logs[i])
  }

  lemma {:induction false} RunIsProper(ser: Serializer, logs: seq<seq<Item>>)
    requires IsLogRun(ser, logs)
    ensures Proper(ser, logs[|logs| - 1])
    decreases |logs|
  {
    hide Writable, Complete;
    if |logs| > 1 {
      var n := |logs| - 1;
      RunIsProper(ser, logs[..n]);
      assert LogStep(ser, logs[n - 1], logs[n]);
      StepIsProper(ser, logs[n - 1], logs[n]);
    }
  }

  lemma StepIsProper(ser: Serializer, log: seq<Item>, more: seq<Item>)
    requires Proper(ser, log) && LogStep(ser, log, more)
    ensures Proper(ser, more)
  {
    forall i | 0 <= i < |more|
      ensures Complete(ser, more[i]) && (more[i].ChunkAck? ==> CHUNK_TOKEN[19] !in more[i].id)
    {
      assert i < |log| ==> more[i] == log[i];
    }
  }

  lemma AbsentByteIsQuiet(t: seq<Byte>, noise: seq<Byte>)
    requires t != [] && Distinct(t) && t[|t| - 1] !in noise
    ensures Quiet(t, noise)
  {
    forall j | 0 <= j < |noise + t|
      ensures !AnyMatch(t, (noise + t)[..j])
    {
      var s := (noise + t)[..j];
      assert forall i :: 0 <= i < j ==> s[i] == if i < |noise| then noise[i] else t[i - |noise|];
      assert t[|t| - 1] !in s;
      NeedsLastByte(t, s);
    }
  }

  lemma NeedsLastByte(t: seq<Byte>, s: seq<Byte>)
    requires t != [] && t[|t| - 1] !in s
    ensures !AnyMatch(t, s)
  {
    forall g, i, j | 1 <= g <= |t| && GapAt(t, g, s, i, j)
      ensures false
    {
    }
  }

  lemma PrefixedFrames(noise: seq<Byte>, fs: seq<Noisy>)
    requires fs != [] && Framable(fs) && fs[0].noise == [] && CHUNK_TOKEN[19] !in noise
    ensures Wire(Prefixed(noise, fs)) == noise + Wire(fs) && Framable(Prefixed(noise, fs))
    ensures Silenced(Prefixed(noise, fs)) == Silenced(fs)
  {
    hide Quiet, Frame, Distinct, Findable;
    var f, ps := Frame(fs[0].id, fs[0].payload), Prefixed(noise, fs);
    assert ps[0] == fs[0].(noise := noise) && ps[1..] == fs[1..];
    PrefixedFramable(noise, fs);
    assert [] + f == f;
    Assoc(noise, f, Wire(fs[1..]));
  }

  lemma PrefixedFramable(noise: seq<Byte>, fs: seq<Noisy>)
    requires fs != [] && Framable(fs) && CHUNK_TOKEN[19] !in noise
    ensures Framable(Prefixed(noise, fs))
  {
    hide Quiet, Distinct, Findable;
    DistinctChunkToken();
    AbsentByteIsQuiet(CHUNK_TOKEN, noise);
  }

  lemma {:induction false} SilentFrames(s: seq<Byte>, k: nat)
    ensures Silenced(Chunks(s, k)) == Chunks(s, k)
    ensures k * CHUNKSIZE < |s| ==> Chunks(s, k) != []
    decreases |s| - k * CHUNKSIZE
  {
    hide Chunk;
    if k * CHUNKSIZE < |s| {
      SilentFrames(s, k + 1);
    }
  }

  lemma {:induction false} AllChunksAppend(ms: seq<seq<Byte>>, m: seq<Byte>)
    ensures AllChunks(ms + [m]) == AllChunks(ms) + Chunks(StrMessage(m), 0)
  {
    hide Chunks, StrMessage;
    if ms == [] {
      assert AllChunks([m]) == Chunks(StrMessage(m), 0) + [];
    } else {
      assert (ms + [m])[1..] == ms[1..] + [m];
      AllChunksAppend(ms[1..], m);
    }
  }

  lemma {:induction false} LogOnWire(ser: Serializer, log: seq<Item>)
    requires Proper(ser, log)
    ensures LogBytes(ser, log) == Wire(LogFrames(ser, log)) + Trailing(log)
    ensures Framable(LogFrames(ser, log)) && CHUNK_TOKEN[19] !in Trailing(log)
    ensures Silenced(LogFrames(ser, log)) == AllChunks(Texts(ser, LogMessages(log)))
  {
    hide Chunks, StrMessage, Quiet, Frame, Silenced, Framable, AllChunks;
    if log == [] {
      NoFrames();
    } else {
      var front, last := log[..|log| - 1], log[|log| - 1];
      LogOnWire(ser, front);
      var fs, noise := LogFrames(ser, front), Trailing(front);
      if last.ChunkAck? {
        Assoc(Wire(fs), noise, last.id);
        assert LogMessages(front) + [] == LogMessages(front);
      } else {
        MessageOnWire(ser, fs, noise, last.m);
        Assoc(Wire(fs), noise, Wire(FramesOf(ser, last.m)));
        assert FramesOf(ser, last.m)[..last.frames] == FramesOf(ser, last.m);
        assert Texts(ser, LogMessages(log)) == Texts(ser, LogMessages(front)) + [ser(last.m)];
        AllChunksAppend(Texts(ser, LogMessages(front)), ser(last.m));
      }
    }
  }

  lemma NoFrames()
    ensures Silenced([]) == [] == AllChunks([]) && Framable([]) && forall ser :: Texts(ser, []) == []
  {
  }

  lemma MessageOnWire(ser: Serializer, fs: seq<Noisy>, noise: seq<Byte>, m: Msg)
    requires Framable(fs) && CHUNK_TOKEN[19] !in noise
    ensures var all := fs + Prefixed(noise, FramesOf(ser, m));
            Wire(all) == Wire(fs) + (noise + Wire(FramesOf(ser, m))) && Framable(all) &&
            Silenced(all) == Silenced(fs) + FramesOf(ser, m)
  {
    hide Chunks, Quiet, Frame, Prefixed, Wire;
    var s := StrMessage(ser(m));
    ChunksCoverAll(s, 0);
    SilentFrames(s, 0);
    ChunkAt(s, 0, 0);
    PrefixedFrames(noise, FramesOf(ser, m));
    FramesAppend(fs, Prefixed(noise, FramesOf(ser, m)));
  }

  /** Whatever acknowledgements were written between whole messages: an end that only reads gets
      exactly these messages, in order, and is left with the acknowledgements behind the last. */
  lemma LogReadsBack(ser: Serializer, log: seq<Item>)
    requires Proper(ser, log) && Sendable(Texts(ser, LogMessages(log)))
    ensures var ms := Texts(ser, LogMessages(log));
            ReadAll(|ms|, Chan([], LogBytes(ser, log), [])) ==
            Done(ms, Chan([], Trailing(log), Acks(AllChunks(ms))))
  {
    hide AllChunks, ReadAll, Framable, Wire, Acks, Silenced, Sendable, Texts, LogBytes, Trailing;
    var ms := Texts(ser, LogMessages(log));
    LogOnWire(ser, log);
    ReaderDrains(ms, Chan([], LogBytes(ser, log), []), LogFrames(ser, log), Trailing(log));
    assert [] + Acks(AllChunks(ms)) == Acks(AllChunks(ms));
  }
}
