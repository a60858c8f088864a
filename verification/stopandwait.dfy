/**
 One write() with the reader running beside it: two pipes, a writer that stops
 after every frame whose id is not 0 until four raw bytes come back, and a reader
 that takes byte after byte and answers frames. The pipes are empty when the write starts.
 */
module StopAndWait {
  import opened Bytes
  import opened Decimals
  import opened TokenSpec
  import opened SharedIo
  import opened ChunkSpec
  import opened Transport

  datatype Sys = Sys(
    sent: nat,            // frames written
    waiting: bool,        // the writer waits for the acknowledgement of the last one
    data: seq<Byte>,      // writer to reader
    got: seq<Byte>,       // read of the frame that is being unpacked
    read: nat,            // frames unpacked
    acks: seq<Byte>,      // reader to writer
    delivered: seq<Byte>, // payload the reader has unpacked
    broken: bool)         // some read raised

  const INITIAL := Sys(0, false, [], [], 0, [], [], false)

  function IdOf(k: nat): nat { k % 10000 }

  ghost predicate CanSend(s: seq<Byte>, x: Sys) { !x.broken && !x.waiting && x.sent * CHUNKSIZE < |s| }

  ghost predicate CanTakeAck(x: Sys) { !x.broken && x.waiting && x.sent > 0 && x.acks != [] }

  ghost predicate CanRead(x: Sys) { !x.broken && x.data != [] }

  function Send(s: seq<Byte>, x: Sys): Sys
    requires CanSend(s, x)
  {
    var id := IdOf(x.sent);
    x.(data := x.data + Frame(id, Chunk(s, x.sent)), sent := x.sent + 1, waiting := id != 0)
  }

  function TakeAck(x: Sys): Sys
    requires CanTakeAck(x)
  {
    match ReadAck(IdOf(x.sent - 1), Chan([], x.acks, []))
    case Done(_, c) => x.(acks := c.pipe, waiting := false)
    case Failed(_, c) => x.(acks := c.pipe, broken := true)
  }

  /** The reader takes one more byte. With what it has of the frame it is done, or it waits for more, or it raises. */
  ghost function Read(x: Sys): Sys
    requires CanRead(x)
  {
    var y := x.(data := x.data[1..], got := x.got + [x.data[0]]);
    match ReadFrame(Chan([], y.got, []))
    case Done(_, c) => y.(got := c.pipe, read := x.read + 1, delivered := x.delivered + c.buf, acks := x.acks + c.out)
    case Failed(e, _) => y.(broken := e != EndOfInput)
  }

  ghost predicate Next(s: seq<Byte>, x: Sys, y: Sys) {
    (CanSend(s, x) && y == Send(s, x)) || (CanTakeAck(x) && y == TakeAck(x)) || (CanRead(x) && y == Read(x))
  }

  ghost predicate IsRun(s: seq<Byte>, run: seq<Sys>) {
    run != [] && run[0] == INITIAL && forall i :: 0 <= i < |run| - 1 ==> Next(s, run[i], run[i + 1])
  }

  // ---------- the invariant ----------

  function Count(s: seq<Byte>): nat { |Chunks(s, 0)| }

  /** All frames from the i-th to the j-th, as bytes. */
  ghost function Stretch(s: seq<Byte>, i: nat, j: nat): seq<Byte>
    requires i <= j <= Count(s)
  {
    Wire(Chunks(s, 0)[i..j])
  }

  ghost predicate Inv(s: seq<Byte>, x: Sys) {
    var fs := Chunks(s, 0);
    !x.broken && x.read <= x.sent <= |fs| &&
    x.got + x.data == Stretch(s, x.read, x.sent) && x.delivered == Payloads(fs[..x.read]) &&
    (if x.read == x.sent then x.got == [] else |x.got| < |Stretch(s, x.read, x.read + 1)|) &&
    (x.waiting ==> x.sent > 0 && IdOf(x.sent - 1) != 0) &&
    x.acks == (if x.waiting && x.read == x.sent then AckOf(IdOf(x.sent - 1)) else []) &&
    // A frame that is not the last one sent is unread only if it is not acknowledged.
    (forall k :: x.read <= k < x.sent && (k < x.sent - 1 || !x.waiting) ==> IdOf(k) == 0)
  }

  /** One frame. */
  lemma FrameBytes(s: seq<Byte>, i: nat)
    requires i < Count(s)
    ensures i * CHUNKSIZE < |s| && Stretch(s, i, i + 1) == Frame(IdOf(i), Chunk(s, i)) != []
    ensures Chunks(s, 0)[i] == Noisy([], IdOf(i), Chunk(s, i)) && |Stretch(s, i, i + 1)| <= 2068
  {
    hide Chunk, Chunks, Padded;
    ChunkAt(s, 0, i);
    var fs := Chunks(s, 0);
    assert fs[i..i + 1] == [fs[i]];
    var f := Frame(fs[i].id, fs[i].payload);
    assert Wire([fs[i]]) == [] + f + [] == f;
    FrameLength(fs[i].id, fs[i].payload);
  }

  lemma StretchAppend(s: seq<Byte>, i: nat, j: nat, k: nat)
    requires i <= j <= k <= Count(s)
    ensures Stretch(s, i, k) == Stretch(s, i, j) + Stretch(s, j, k)
  {
    hide Chunks, Wire;
    var fs := Chunks(s, 0);
    assert fs[i..k] == fs[i..j] + fs[j..k];
    FramesAppend(fs[i..j], fs[j..k]);
  }

  lemma SendKeeps(s: seq<Byte>, x: Sys)
    requires Inv(s, x) && CanSend(s, x)
    ensures Inv(s, Send(s, x))
  {
    hide Frame, Chunk, Chunks, Payloads, AckOf, Stretch;
    ChunkCount(s, 0, x.sent);
    FrameBytes(s, x.sent);
    StretchAppend(s, x.read, x.sent, x.sent + 1);
    Assoc(x.got, x.data, Frame(IdOf(x.sent), Chunk(s, x.sent)));
    NoBytes(s, x.sent);
  }

  lemma NoBytes(s: seq<Byte>, i: nat)
    requires i <= Count(s)
    ensures Stretch(s, i, i) == []
  {
    assert Chunks(s, 0)[i..i] == [];
  }

  lemma TakeAckKeeps(s: seq<Byte>, x: Sys)
    requires Inv(s, x) && CanTakeAck(x)
    ensures Inv(s, TakeAck(x)) && !TakeAck(x).broken
  {
    hide ReadAck, Chunks, Payloads, AckOf, Stretch;
    var c := Chan([], x.acks, []);
    assert c.pipe == AckOf(IdOf(x.sent - 1)) + [];
    AckReads(IdOf(x.sent - 1), c, []);
  }

  /** The bytes got so far, and one more, are the beginning of the frame that is being read. */
  lemma OneMoreByte(s: seq<Byte>, x: Sys)
    requires Inv(s, x) && CanRead(x)
    ensures x.read < x.sent
    ensures var f, got := Stretch(s, x.read, x.read + 1), x.got + [x.data[0]];
            got <= f && x.data[1..] == f[|got|..] + Stretch(s, x.read + 1, x.sent)
  {
    hide Chunks, Payloads, AckOf, Stretch;
    if x.read < x.sent {
      StretchAppend(s, x.read, x.read + 1, x.sent);
      var f, more, got := Stretch(s, x.read, x.read + 1), Stretch(s, x.read + 1, x.sent), x.got + [x.data[0]];
      assert got + x.data[1..] == f + more;
      assert got == (f + more)[..|got|] == f[..|got|];
      assert x.data[1..] == (f + more)[|got|..] == f[|got|..] + more;
    } else {
      NoBytes(s, x.sent);
    }
  }

  lemma ReadKeeps(s: seq<Byte>, x: Sys)
    requires Inv(s, x) && CanRead(x)
    ensures Inv(s, Read(x))
  {
    hide ReadFrame, Frame, Chunks, Chunk, AckOf, Stretch, IdOf, Payloads;
    OneMoreByte(s, x);
    FrameBytes(s, x.read);
    var f, more, got := Stretch(s, x.read, x.read + 1), Stretch(s, x.read + 1, x.sent), x.got + [x.data[0]];
    var c := Chan([], got, []);
    if |got| < |f| {
      assert IdOf(x.read) < 10000 by { SmallId(x.read); }
      FrameWaits(IdOf(x.read), Chunk(s, x.read), got, c);
      assert got + (f[|got|..] + more) == f + more;
      StretchAppend(s, x.read, x.read + 1, x.sent);
    } else {
      WholeFrame(s, x.read, c);
      assert f[|got|..] + more == more == [] + more;
      LastRead(s, x);
    }
  }

  lemma WholeFrame(s: seq<Byte>, i: nat, c: Chan)
    requires i < Count(s) && c == Chan([], Stretch(s, i, i + 1), [])
    ensures i * CHUNKSIZE < |s| && ReadFrame(c) == Done((), Chan(Chunk(s, i), [], AckOf(IdOf(i))))
    ensures Payloads(Chunks(s, 0)[..i + 1]) == Payloads(Chunks(s, 0)[..i]) + Chunk(s, i)
  {
    hide ReadFrame, Frame, Chunks, Chunk, AckOf, Framable, IdOf, Stretch, Payloads;
    FrameBytes(s, i);
    ChunksCoverAll(s, 0);
    FrameFramable(Chunks(s, 0), i);
    FrameAlone(Chunks(s, 0)[i], c);
    PayloadsAppend(Chunks(s, 0), i);
  }

  lemma FrameAlone(f: Noisy, c: Chan)
    requires Framable([f]) && f.noise == [] && c == Chan([], Frame(f.id, f.payload), [])
    ensures ReadFrame(c) == Done((), Chan(f.payload, [], AckOf(f.id)))
  {
    hide ReadFrame, Frame, AckOf, Framable;
    assert c.pipe == f.noise + Frame(f.id, f.payload) + [];
    FrameReads(f, [], c);
    assert [] + f.payload == f.payload && [] + AckOf(f.id) == AckOf(f.id);
  }

  lemma PayloadsAppend(fs: seq<Noisy>, i: nat)
    requires i < |fs|
    ensures Payloads(fs[..i + 1]) == Payloads(fs[..i]) + fs[i].payload
  {
    assert fs[..i + 1] == fs[..i] + [fs[i]];
    FramesAppend(fs[..i], [fs[i]]);
    assert fs[i].payload + [] == fs[i].payload;
  }

  /** A frame has been read: the next begins, and what is acknowledged is the last one sent. */
  lemma LastRead(s: seq<Byte>, x: Sys)
    requires Inv(s, x) && x.read < x.sent
    ensures x.acks + AckOf(IdOf(x.read)) ==
            if x.waiting && x.read + 1 == x.sent then AckOf(IdOf(x.sent - 1)) else []
    ensures if x.read + 1 == x.sent then Stretch(s, x.read + 1, x.sent) == []
            else 0 < |Stretch(s, x.read + 1, x.read + 2)|
  {
    hide Stretch, Chunks, Payloads;
    IdZero();
    if x.read + 1 == x.sent {
      NoBytes(s, x.sent);
    } else {
      FrameBytes(s, x.read + 1);
    }
    assert [] + AckOf(IdOf(x.read)) == AckOf(IdOf(x.read));
  }

  lemma SmallId(k: nat)
    ensures IdOf(k) < 10000
  {
  }

  lemma IdZero()
    ensures AckOf(0) == []
  {
  }

  lemma FrameFramable(fs: seq<Noisy>, i: nat)
    requires Framable(fs) && i < |fs|
    ensures Framable([fs[i]])
  {
  }

  // ---------- runs ----------

  lemma NextKeeps(s: seq<Byte>, x: Sys, y: Sys)
    requires Inv(s, x) && Next(s, x, y)
    ensures Inv(s, y) && Measure(s, y) < Measure(s, x)
  {
    hide Inv, Read, Chunks, Stretch, Frame, Chunk;
    InvRange(s, x);
    if CanSend(s, x) && y == Send(s, x) {
      SendKeeps(s, x);
      ChunkCount(s, 0, x.sent);
      StretchAppend(s, x.sent, x.sent + 1, Count(s));
      FrameBytes(s, x.sent);
      FrameIsLong(s, x.sent);
    } else if CanTakeAck(x) && y == TakeAck(x) {
      TakeAckKeeps(s, x);
    } else {
      ReadKeeps(s, x);
      ReadFields(x);
    }
    InvRange(s, y);
  }

  lemma FrameIsLong(s: seq<Byte>, i: nat)
    requires i * CHUNKSIZE < |s|
    ensures |Frame(IdOf(i), Chunk(s, i))| > 1
  {
    DistinctChunkToken();
  }

  lemma InvRange(s: seq<Byte>, x: Sys)
    requires Inv(s, x)
    ensures x.read <= x.sent <= Count(s)
  {
  }

  lemma ReadFields(x: Sys)
    requires CanRead(x)
    ensures var y := Read(x); y.sent == x.sent && y.waiting == x.waiting && |y.data| == |x.data| - 1
  {
  }

  /** Stretch still to be written count twice, bytes still to be read once. */
  ghost function Measure(s: seq<Byte>, x: Sys): int
    requires x.sent <= Count(s)
  {
    2 * |Stretch(s, x.sent, Count(s))| + |x.data| + if x.waiting then 1 else 0
  }

  /** Over every interleaving, byte by byte: no read raises, at most two frames are written and unread,
      what was delivered is a prefix of s, and the run is no longer than two steps for every byte written. */
  lemma {:induction false} RunIsSafe(s: seq<Byte>, run: seq<Sys>)
    requires IsRun(s, run)
    ensures var x := run[|run| - 1];
            Inv(s, x) && !x.broken && |x.got + x.data| <= 2 * 2068 && x.delivered <= s && x.sent <= Count(s) &&
            |run| - 1 <= 2 * |Stretch(s, 0, Count(s))| - Measure(s, x) && Measure(s, x) >= 0
    decreases |run|
  {
    hide Inv, Next, Chunks, Stretch;
    if |run| == 1 {
      InitialInv(s);
    } else {
      var run', x, y := run[..|run| - 1], run[|run| - 2], run[|run| - 1];
      RunIsSafe(s, run');
      NextKeeps(s, x, y);
    }
    InvBounds(s, run[|run| - 1]);
  }

  lemma InitialInv(s: seq<Byte>)
    ensures Inv(s, INITIAL)
  {
    assert Chunks(s, 0)[0..0] == [] && Chunks(s, 0)[..0] == [];
  }

  lemma InvBounds(s: seq<Byte>, x: Sys)
    requires Inv(s, x)
    ensures !x.broken && |x.got + x.data| <= 2 * 2068 && x.delivered <= s && x.read <= x.sent <= Count(s)
  {
    hide Frame, Chunk, Chunks, Payloads, Stretch;
    var fs := Chunks(s, 0);
    ChunksCoverAll(s, 0);
    assert fs == fs[..x.read] + fs[x.read..];
    FramesAppend(fs[..x.read], fs[x.read..]);
    AtMostTwoUnread(s, x);
    StretchLength(s, x.read, x.sent);
  }

  /** Two neighbouring frames cannot both go without acknowledgement. */
  lemma AtMostTwoUnread(s: seq<Byte>, x: Sys)
    requires Inv(s, x)
    ensures x.sent - x.read <= 2
  {
    var first, second := IdOf(x.read), IdOf(x.read + 1);
  }

  lemma {:induction false} StretchLength(s: seq<Byte>, i: nat, j: nat)
    requires i <= j <= Count(s)
    ensures |Stretch(s, i, j)| <= (j - i) * 2068
    decreases j - i
  {
    hide Chunks, Chunk, Stretch, Frame;
    if i < j {
      StretchAppend(s, i, i + 1, j);
      FrameBytes(s, i);
      StretchLength(s, i + 1, j);
    } else {
      NoBytes(s, i);
    }
  }

  lemma FrameLength(id: nat, payload: seq<Byte>)
    requires id < 10000 && |payload| <= CHUNKSIZE
    ensures 0 < |Frame(id, payload)| <= 2068
  {
    hide Padded;
    IdText(id);
    IdText(|payload|);
  }

  /** Some step is possible until everything is written, read and acknowledged, and then all of s was delivered. */
  lemma RunEndsWell(s: seq<Byte>, run: seq<Sys>)
    requires IsRun(s, run)
    ensures var x := run[|run| - 1];
            (CanSend(s, x) || CanTakeAck(x) || CanRead(x)) ||
            (x.delivered == s && x.data == x.got == x.acks == [] && !x.waiting)
  {
    hide Chunks, Payloads, Stretch;
    RunIsSafe(s, run);
    var x, fs := run[|run| - 1], Chunks(s, 0);
    if !CanSend(s, x) && !CanTakeAck(x) && !CanRead(x) {
      NothingUnread(s, x);
      if x.waiting {
        AckPending(s, x);
      }
      ChunkCount(s, 0, x.sent);
      assert fs[..x.read] == fs;
      ChunksCoverAll(s, 0);
    }
  }

  lemma AckPending(s: seq<Byte>, x: Sys)
    requires Inv(s, x) && x.waiting && x.read == x.sent
    ensures CanTakeAck(x)
  {
    hide Chunks, Payloads, Stretch, Padded;
    SmallId(x.sent - 1);
    IdText(IdOf(x.sent - 1));
  }

  /** Half a frame without more to read: the writer writes a frame whole. */
  lemma NothingUnread(s: seq<Byte>, x: Sys)
    requires Inv(s, x) && x.data == []
    ensures x.read == x.sent
  {
    hide Chunks, Payloads, Stretch;
    assert x.got + x.data == x.got;
    if x.read < x.sent {
      StretchAppend(s, x.read, x.read + 1, x.sent);
    }
  }
}
