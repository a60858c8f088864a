/** What is written into the chunk layer comes out of it, one byte queue over noisy frames. */
module Transport {
  import opened Bytes
  import opened Decimals
  import opened TokenSpec
  import opened SharedIo
  import opened ChunkSpec

  // ---------- frames on the wire, with rubbish before each ----------

  datatype Noisy = Noisy(noise: seq<Byte>, id: nat, payload: seq<Byte>)

  /** The rubbish followed by the token does not hold the token any earlier. */
  ghost predicate Quiet(t: seq<Byte>, noise: seq<Byte>) {
    forall j :: 0 <= j < |noise + t| ==> !AnyMatch(t, (noise + t)[..j])
  }

  ghost predicate Framable(fs: seq<Noisy>) {
    forall i :: 0 <= i < |fs| ==> fs[i].id < 10000 && |fs[i].payload| < 10000 && Quiet(CHUNK_TOKEN, fs[i].noise)
  }

  function Wire(fs: seq<Noisy>): seq<Byte> {
    if fs == [] then [] else fs[0].noise + Frame(fs[0].id, fs[0].payload) + Wire(fs[1..])
  }

  function Payloads(fs: seq<Noisy>): seq<Byte> {
    if fs == [] then [] else fs[0].payload + Payloads(fs[1..])
  }

  function AckOf(id: nat): seq<Byte> {
    if id == 0 then [] else Padded(id, ID_WIDTH)
  }

  function Acks(fs: seq<Noisy>): seq<Byte> {
    if fs == [] then [] else AckOf(fs[0].id) + Acks(fs[1..])
  }

  // ---------- one frame ----------

  lemma MatchLength(t: seq<Byte>, s: seq<Byte>)
    requires |s| < |t|
    ensures !AnyMatch(t, s)
  {
    forall g | 1 <= g <= |t|
      ensures !GapMatch(t, g, s)
    {
      forall i, j
        ensures !GapAt(t, g, s, i, j)
      {
      }
    }
  }

  lemma SilenceIsQuiet(t: seq<Byte>)
    ensures Quiet(t, [])
  {
    forall j | 0 <= j < |[] + t|
      ensures !AnyMatch(t, ([] + t)[..j])
    {
      MatchLength(t, ([] + t)[..j]);
    }
  }

  lemma TokenAhead(noise: seq<Byte>, rest: seq<Byte>, c: Chan)
    requires Quiet(CHUNK_TOKEN, noise) && c.pipe == noise + CHUNK_TOKEN + rest
    ensures ReadToken(c) == Done(noise, c.(pipe := rest))
  {
    hide AnyMatch, TokenRead, Findable;
    DistinctChunkToken();
    Resynchronises(CHUNK_TOKEN, noise, rest);
    var k := |noise| + |CHUNK_TOKEN|;
    assert c.pipe[k..] == rest;
    TokenReadMeansMatch(CHUNK_TOKEN, c.pipe, k, noise);
    forall k', r | TokenRead(CHUNK_TOKEN, c.pipe, k', r)
      ensures k' == k && r == noise
    {
      TokenReadUnique(CHUNK_TOKEN, c.pipe, k, noise, k', r);
    }
  }

  lemma TokenReadMeansMatch(t: seq<Byte>, p: seq<Byte>, k: int, r: seq<Byte>)
    requires TokenRead(t, p, k, r)
    ensures AnyMatch(t, p)
  {
    AnyMatchExtends(t, p[..k], p[k..]);
    assert p[..k] + p[k..] == p;
  }

  lemma TokenHere(rest: seq<Byte>, c: Chan)
    requires c.pipe == CHUNK_TOKEN + rest
    ensures VerifyToken(c) == Done((), c.(pipe := rest))
  {
    hide Quiet, ReadToken;
    SilenceIsQuiet(CHUNK_TOKEN);
    assert [] + CHUNK_TOKEN + rest == CHUNK_TOKEN + rest;
    TokenAhead([], rest, c);
  }

  lemma RawAhead(s: seq<Byte>, rest: seq<Byte>, c: Chan)
    requires c.pipe == s + rest
    ensures ReadRaw(|s|, c) == Done(s, c.(pipe := rest))
  {
  }

  lemma HeaderReads(noise: seq<Byte>, id: seq<Byte>, len: seq<Byte>, rest: seq<Byte>, c: Chan)
    requires Quiet(CHUNK_TOKEN, noise) && |id| == ID_WIDTH && |len| == LEN_WIDTH
    requires c.pipe == noise + CHUNK_TOKEN + ((id + len) + (CHUNK_TOKEN + rest))
    ensures ReadHeader(c) == Done((id, len), c.(pipe := rest))
  {
    hide Quiet, ReadToken, VerifyToken;
    TokenAhead(noise, (id + len) + (CHUNK_TOKEN + rest), c);
    var c1 := c.(pipe := (id + len) + (CHUNK_TOKEN + rest));
    RawAhead(id + len, CHUNK_TOKEN + rest, c1);
    TokenHere(rest, c1.(pipe := CHUNK_TOKEN + rest));
    assert (id + len)[..ID_WIDTH] == id && (id + len)[ID_WIDTH..] == len;
  }

  lemma PayloadReads(payload: seq<Byte>, rest: seq<Byte>, c: Chan)
    requires c.pipe == payload + (CHUNK_TOKEN + rest)
    ensures ReadPayload(|payload|, c) == Done((), c.(buf := c.buf + payload, pipe := rest))
  {
    hide VerifyToken;
    RawAhead(payload, CHUNK_TOKEN + rest, c);
    TokenHere(rest, c.(buf := c.buf + payload, pipe := CHUNK_TOKEN + rest));
  }

  lemma IdText(id: nat)
    requires id < 10000
    ensures |Padded(id, ID_WIDTH)| == ID_WIDTH
    ensures Padded(id, ID_WIDTH) == NO_ACK_ID <==> id == 0
  {
    assert Pow10(4) == 10000;
    PaddedLength(id, ID_WIDTH);
    PaddedParses(id, ID_WIDTH);
    PaddedParses(0, ID_WIDTH);
    assert Padded(0, ID_WIDTH) == NO_ACK_ID;
  }

  /** A frame, whatever rubbish stands before it, is unpacked and acknowledged, and nothing behind it is touched. */
  lemma FrameReads(f: Noisy, rest: seq<Byte>, c: Chan)
    requires Framable([f]) && c.pipe == f.noise + Frame(f.id, f.payload) + rest
    ensures ReadFrame(c) == Done((), Chan(c.buf + f.payload, rest, c.out + AckOf(f.id)))
  {
    hide Quiet, ReadHeader, ReadPayload, ParseInt, Padded;
    assert [f][0] == f;
    IdText(f.id);
    var id, len := Padded(f.id, ID_WIDTH), Padded(|f.payload|, LEN_WIDTH);
    assert |len| == LEN_WIDTH by { IdText(|f.payload|); }
    PaddedParses(|f.payload|, LEN_WIDTH);
    var tail := f.payload + (CHUNK_TOKEN + rest);
    assert c.pipe == f.noise + CHUNK_TOKEN + ((id + len) + (CHUNK_TOKEN + tail));
    HeaderReads(f.noise, id, len, tail, c);
    PayloadReads(f.payload, rest, c.(pipe := tail));
  }

  // ---------- a frame that is still arriving ----------

  lemma NoTokenYet(c: Chan)
    requires |c.pipe| < |CHUNK_TOKEN|
    ensures ReadToken(c) == Failed(EndOfInput, c.(pipe := [])) && VerifyToken(c) == Failed(EndOfInput, c.(pipe := []))
  {
    MatchLength(CHUNK_TOKEN, c.pipe);
  }

  /** The header of a frame of which only the beginning p has arrived. */
  lemma HeaderWaits(id: seq<Byte>, len: seq<Byte>, p: seq<Byte>, c: Chan)
    requires |id| == ID_WIDTH && |len| == LEN_WIDTH
    requires p < CHUNK_TOKEN + ((id + len) + CHUNK_TOKEN) && c.pipe == p
    ensures ReadHeader(c).Failed? && ReadHeader(c).error == EndOfInput
  {
    hide Quiet, ReadToken, VerifyToken;
    var all := CHUNK_TOKEN + ((id + len) + CHUNK_TOKEN);
    DistinctChunkToken();
    if |p| < 20 {
      NoTokenYet(c);
    } else {
      var rest := p[20..];
      assert p[..20] == all[..20] == CHUNK_TOKEN && p == [] + CHUNK_TOKEN + rest;
      SilenceIsQuiet(CHUNK_TOKEN);
      TokenAhead([], rest, c);
      if |rest| >= 8 {
        NoTokenYet(c.(pipe := rest[8..]));
      }
    }
  }

  lemma PayloadWaits(payload: seq<Byte>, p: seq<Byte>, c: Chan)
    requires p < payload + CHUNK_TOKEN && c.pipe == p
    ensures ReadPayload(|payload|, c).Failed? && ReadPayload(|payload|, c).error == EndOfInput
  {
    hide VerifyToken;
    DistinctChunkToken();
    if |p| >= |payload| {
      NoTokenYet(c.(buf := c.buf + p[..|payload|], pipe := p[|payload|..]));
    }
  }

  lemma BeginningOf(a: seq<Byte>, b: seq<Byte>, p: seq<Byte>)
    requires p < a + b
    ensures |p| < |a| ==> p < a
    ensures |p| >= |a| ==> p == a + p[|a|..] && p[|a|..] < b
  {
    assert p == (a + b)[..|p|];
  }

  /** Reading a frame goes on waiting for input until the last byte of the frame is there. */
  lemma FrameWaits(id: nat, payload: seq<Byte>, p: seq<Byte>, c: Chan)
    requires id < 10000 && |payload| < 10000 && p < Frame(id, payload) && c.pipe == p
    ensures ReadFrame(c).Failed? && ReadFrame(c).error == EndOfInput
  {
    hide ReadFrame, Padded, ParseInt;
    var i, len := Padded(id, ID_WIDTH), Padded(|payload|, LEN_WIDTH);
    assert |i| == ID_WIDTH && |len| == LEN_WIDTH by { IdText(id); IdText(|payload|); }
    PaddedParses(|payload|, LEN_WIDTH);
    var head, tail := CHUNK_TOKEN + ((i + len) + CHUNK_TOKEN), payload + CHUNK_TOKEN;
    assert Frame(id, payload) == head + tail;
    BeginningOf(head, tail, p);
    PartWaits(i, len, payload, p, c);
  }

  lemma PartWaits(id: seq<Byte>, len: seq<Byte>, payload: seq<Byte>, p: seq<Byte>, c: Chan)
    requires |id| == ID_WIDTH && |len| == LEN_WIDTH && ParseInt(len) == Some(|payload|) && c.pipe == p
    requires var head := CHUNK_TOKEN + ((id + len) + CHUNK_TOKEN);
             p < head || (head <= p && p[|head|..] < payload + CHUNK_TOKEN)
    ensures ReadFrame(c).Failed? && ReadFrame(c).error == EndOfInput
  {
    hide Quiet, ReadHeader, ReadPayload, ParseInt;
    var head := CHUNK_TOKEN + ((id + len) + CHUNK_TOKEN);
    if p < head {
      HeaderWaits(id, len, p, c);
    } else {
      var rest := p[|head|..];
      assert p == head + rest == [] + CHUNK_TOKEN + ((id + len) + (CHUNK_TOKEN + rest));
      SilenceIsQuiet(CHUNK_TOKEN);
      HeaderReads([], id, len, rest, c);
      PayloadWaits(payload, rest, c.(pipe := rest));
    }
  }

  // ---------- the byte queue ----------

  /** What is to be read from c: the buffer, then the payloads of fs; behind them comes rest. */
  ghost predicate Carries(c: Chan, fs: seq<Noisy>, rest: seq<Byte>) {
    Framable(fs) && c.pipe == Wire(fs) + rest
  }

  ghost function Queue(c: Chan, fs: seq<Noisy>): seq<Byte> { c.buf + Payloads(fs) }

  lemma UnpacksNext(c: Chan, fs: seq<Noisy>, rest: seq<Byte>) returns (c1: Chan)
    requires Carries(c, fs, rest) && fs != []
    ensures ReadFrame(c) == Done((), c1) && Carries(c1, fs[1..], rest)
    ensures Queue(c1, fs[1..]) == Queue(c, fs) && c1.out + Acks(fs[1..]) == c.out + Acks(fs)
  {
    hide Quiet, ReadFrame, Frame, AckOf;
    var f, tail := fs[0], fs[1..];
    Assoc(f.noise + Frame(f.id, f.payload), Wire(tail), rest);
    Assoc(c.buf, f.payload, Payloads(tail));
    Assoc(c.out, AckOf(f.id), Acks(tail));
    FrameReads(f, Wire(tail) + rest, c);
    c1 := Chan(c.buf + f.payload, Wire(tail) + rest, c.out + AckOf(f.id));
  }

  /** read_until_size takes n bytes from the queue; acknowledgements go out for the
      frames it unpacks, and for no others. */
  lemma {:induction false} TakesFromQueue(n: nat, c: Chan, fs: seq<Noisy>, rest: seq<Byte>) returns (fs': seq<Noisy>)
    requires Carries(c, fs, rest) && n <= |Queue(c, fs)|
    ensures var r := ReadUntilSize(n, c);
            r.Done? && r.value == Queue(c, fs)[..n] &&
            Carries(r.c, fs', rest) && Queue(r.c, fs') == Queue(c, fs)[n..] &&
            r.c.out + Acks(fs') == c.out + Acks(fs)
    ensures |fs'| <= |fs| && fs' == fs[|fs| - |fs'|..]
    decreases |fs|
  {
    hide Carries, Queue, ReadFrame;
    if |c.buf| >= n {
      fs' := fs;
      TakesFromBuffer(n, c, fs, rest);
    } else {
      QueueIsBuffer(c);
      var c1 := UnpacksNext(c, fs, rest);
      fs' := TakesFromQueue(n, c1, fs[1..], rest);
    }
  }

  lemma TakesFromBuffer(n: nat, c: Chan, fs: seq<Noisy>, rest: seq<Byte>)
    requires Carries(c, fs, rest) && n <= |c.buf|
    ensures var d := c.(buf := c.buf[n..]);
            ReadUntilSize(n, c) == Done(Queue(c, fs)[..n], d) && Carries(d, fs, rest) &&
            Queue(d, fs) == Queue(c, fs)[n..]
  {
    hide Framable, ReadFrame;
    assert Queue(c, fs)[..n] == c.buf[..n] && Queue(c, fs)[n..] == c.buf[n..] + Payloads(fs);
  }

  lemma QueueIsBuffer(c: Chan)
    ensures Queue(c, []) == c.buf
  {
  }

  function Sum(ns: seq<nat>): nat { if ns == [] then 0 else ns[0] + Sum(ns[1..]) }

  /** Successive calls of read_until_size. */
  ghost function ReadPieces(ns: seq<nat>, c: Chan): Step<seq<seq<Byte>>> {
    if ns == [] then Done([], c)
    else
      var (p, c1) :- ReadUntilSize(ns[0], c);
      var (ps, c2) :- ReadPieces(ns[1..], c1);
      Done([p] + ps, c2)
  }

  /** However the reads are cut, the pieces are the payloads in order, with rubbish before any frame. */
  lemma {:induction false} PiecesConcatenate(ns: seq<nat>, c: Chan, fs: seq<Noisy>, rest: seq<Byte>)
    returns (fs': seq<Noisy>)
    requires Carries(c, fs, rest) && Sum(ns) <= |Queue(c, fs)|
    ensures var r := ReadPieces(ns, c);
            r.Done? && |r.value| == |ns| && (forall i :: 0 <= i < |ns| ==> |r.value[i]| == ns[i]) &&
            Concat(r.value) == Queue(c, fs)[..Sum(ns)] &&
            Carries(r.c, fs', rest) && Queue(r.c, fs') == Queue(c, fs)[Sum(ns)..] &&
            r.c.out + Acks(fs') == c.out + Acks(fs)
  {
    hide Carries, Queue, ReadUntilSize;
    if ns == [] {
      fs' := fs;
    } else {
      var q := Queue(c, fs);
      var fs1 := TakesFromQueue(ns[0], c, fs, rest);
      var r := ReadUntilSize(ns[0], c);
      fs' := PiecesConcatenate(ns[1..], r.c, fs1, rest);
      assert q[..ns[0]] + q[ns[0]..][..Sum(ns[1..])] == q[..Sum(ns)];
      assert q[ns[0]..][Sum(ns[1..])..] == q[Sum(ns)..];
    }
  }

  // ---------- messages over the byte queue ----------

  /** The token reader over the chunk layer stops behind the token, though it reads in blocks. */
  lemma {:induction false} StrTokenFromQueue(
    fed: seq<Byte>, c: Chan, fs: seq<Noisy>, rest: seq<Byte>, q: seq<Byte>, k: int, before: seq<Byte>)
    returns (fs': seq<Noisy>)
    requires Carries(c, fs, rest) && q == fed + Queue(c, fs)
    requires TokenRead(STR_TOKEN, q, k, before) && |fed| <= k
    ensures var r := ReadStrToken(fed, c);
            r.Done? && r.value == q[..k] &&
            Carries(r.c, fs', rest) && Queue(r.c, fs') == q[k..] && r.c.out + Acks(fs') == c.out + Acks(fs)
    ensures |fs'| <= |fs| && fs' == fs[|fs| - |fs'|..]
    decreases k - |fed|
  {
    hide Carries, Queue, ReadUntilSize, AnyMatch, Missing, Findable, BeforeToken;
    DistinctStrToken();
    assert fed == q[..|fed|];
    if |fed| == k {
      fs' := fs;
    } else {
      var n := Missing(STR_TOKEN, fed);
      BlockFits(STR_TOKEN, q, k, fed);
      var fs1 := TakesFromQueue(n, c, fs, rest);
      var r := ReadUntilSize(n, c);
      assert fed + r.value == q[..|fed| + n];
      assert q == (fed + r.value) + Queue(r.c, fs1);
      fs' := StrTokenFromQueue(fed + r.value, r.c, fs1, rest, q, k, before);
    }
  }

  lemma BlockFits(t: seq<Byte>, q: seq<Byte>, k: int, fed: seq<Byte>)
    requires Findable(t) && |t| > 0 && ShortestMatch(t, q, k)
    requires |fed| < k && fed == q[..|fed|]
    ensures |fed| + Missing(t, fed) <= k
  {
    if |fed| + Missing(t, fed) > k {
      var w := q[|fed|..k];
      assert fed + w == q[..k];
      BlockIsSafe(t, fed, w);
    }
  }

  /** read_str skips rubbish that does not hold its token, and returns the next message as it was written. */
  lemma MessageFromQueue(junk: seq<Byte>, m: seq<Byte>, more: seq<Byte>, c: Chan, fs: seq<Noisy>, rest: seq<Byte>)
    returns (fs': seq<Noisy>)
    requires Carries(c, fs, rest) && Quiet(STR_TOKEN, junk) && |m| < Pow10(STR_LEN_WIDTH)
    requires Queue(c, fs) == junk + StrMessage(m) + more
    ensures var r := ReadStr(c);
            r.Done? && r.value == m && Carries(r.c, fs', rest) && Queue(r.c, fs') == more &&
            r.c.out + Acks(fs') == c.out + Acks(fs)
    ensures |fs'| <= |fs| && fs' == fs[|fs| - |fs'|..]
  {
    hide Carries, Queue, Quiet, ReadUntilSize, ReadStrToken, ParseInt, Padded, Pow10;
    var len := Padded(|m|, STR_LEN_WIDTH);
    PaddedLength(|m|, STR_LEN_WIDTH);
    PaddedParses(|m|, STR_LEN_WIDTH);
    Assoc(STR_TOKEN, len, m);
    Assoc(junk, STR_TOKEN, len + m);
    Assoc(junk + STR_TOKEN, len + m, more);
    var fs1 := StrTokenAhead(junk, (len + m) + more, c, fs, rest);
    var c1 := ReadStrToken([], c).c;
    var fs2 := TakesFromQueue(STR_LEN_WIDTH, c1, fs1, rest);
    Assoc(len, m, more);
    assert (len + (m + more))[..|len|] == len && (len + (m + more))[|len|..] == m + more;
    var c2 := ReadUntilSize(STR_LEN_WIDTH, c1).c;
    fs' := TakesFromQueue(|m|, c2, fs2, rest);
    assert (m + more)[..|m|] == m && (m + more)[|m|..] == more;
  }

  lemma StrTokenAhead(junk: seq<Byte>, tail: seq<Byte>, c: Chan, fs: seq<Noisy>, rest: seq<Byte>)
    returns (fs': seq<Noisy>)
    requires Carries(c, fs, rest) && Quiet(STR_TOKEN, junk)
    requires Queue(c, fs) == (junk + STR_TOKEN) + tail
    ensures var r := ReadStrToken([], c);
            r.Done? && Carries(r.c, fs', rest) && Queue(r.c, fs') == tail && r.c.out + Acks(fs') == c.out + Acks(fs)
    ensures |fs'| <= |fs| && fs' == fs[|fs| - |fs'|..]
  {
    hide Carries, Queue, ReadStrToken, AnyMatch, TokenRead, Findable;
    DistinctStrToken();
    var q, k := Queue(c, fs), |junk| + |STR_TOKEN|;
    Resynchronises(STR_TOKEN, junk, tail);
    assert [] + q == q && q[k..] == tail;
    fs' := StrTokenFromQueue([], c, fs, rest, q, k, junk);
  }

  // ---------- the writer ----------

  /** The frames that write() makes of s, from the k-th chunk on. */
  function Chunks(s: seq<Byte>, k: nat): seq<Noisy>
    decreases |s| - k * CHUNKSIZE
  {
    if k * CHUNKSIZE >= |s| then [] else [Noisy([], k % 10000, Chunk(s, k))] + Chunks(s, k + 1)
  }

  lemma {:induction false} ChunksCoverAll(s: seq<Byte>, k: nat)
    requires k * CHUNKSIZE <= |s|
    ensures Payloads(Chunks(s, k)) == s[k * CHUNKSIZE..] && Framable(Chunks(s, k))
    ensures forall i :: 0 <= i < |Chunks(s, k)| ==> Chunks(s, k)[i].payload != []
    decreases |s| - k * CHUNKSIZE
  {
    hide Quiet;
    SilenceIsQuiet(CHUNK_TOKEN);
    if (k + 1) * CHUNKSIZE <= |s| {
      ChunksCoverAll(s, k + 1);
    } else {
      assert Chunks(s, k + 1) == [];
    }
  }

  lemma {:induction false} ChunkAt(s: seq<Byte>, k: nat, i: nat)
    requires i < |Chunks(s, k)|
    ensures (k + i) * CHUNKSIZE < |s| && Chunks(s, k)[i] == Noisy([], (k + i) % 10000, Chunk(s, k + i))
    decreases i
  {
    hide Chunk;
    if i > 0 {
      ChunkAt(s, k + 1, i - 1);
    }
  }

  lemma {:induction false} ChunkCount(s: seq<Byte>, k: nat, i: nat)
    ensures i < |Chunks(s, k)| <==> (k + i) * CHUNKSIZE < |s|
    decreases i
  {
    hide Chunk;
    if i > 0 {
      ChunkCount(s, k + 1, i - 1);
    }
  }

  /** write() puts all frames on the wire and takes exactly their acknowledgements off it. */
  lemma {:induction false} WritesChunks(s: seq<Byte>, k: nat, c: Chan, more: seq<Byte>)
    requires c.pipe == Acks(Chunks(s, k)) + more
    ensures WriteFrom(s, k, c) == Done((), c.(pipe := more, out := c.out + Wire(Chunks(s, k))))
    decreases |s| - k * CHUNKSIZE
  {
    hide Frame, ReadAck, AckOf;
    if k * CHUNKSIZE < |s| {
      var id, tail := k % 10000, Chunks(s, k + 1);
      var f := Frame(id, Chunk(s, k));
      var c1 := c.(out := c.out + f);
      Assoc(AckOf(id), Acks(tail), more);
      AckReads(id, c1, Acks(tail) + more);
      WritesChunks(s, k + 1, c1.(pipe := Acks(tail) + more), more);
      assert [] + f == f;
      Assoc(c.out, f, Wire(tail));
    }
  }

  lemma AckReads(id: nat, c: Chan, more: seq<Byte>)
    requires id < 10000 && c.pipe == AckOf(id) + more
    ensures ReadAck(id, c) == Done((), c.(pipe := more))
  {
    hide Padded, ParseInt;
    IdText(id);
    PaddedParses(id, ID_WIDTH);
    RawAhead(AckOf(id), more, c);
    assert [] + more == more;
  }

  // ---------- end to end ----------

  ghost predicate Sendable(ms: seq<seq<Byte>>) {
    forall i :: 0 <= i < |ms| ==> |ms[i]| < Pow10(STR_LEN_WIDTH)
  }

  /** The frames of a sequence of messages. */
  function AllChunks(ms: seq<seq<Byte>>): seq<Noisy> {
    if ms == [] then [] else Chunks(StrMessage(ms[0]), 0) + AllChunks(ms[1..])
  }

  function Silenced(fs: seq<Noisy>): seq<Noisy> {
    seq(|fs|, i requires 0 <= i < |fs| => fs[i].(noise := []))
  }

  function WriteAll(ms: seq<seq<Byte>>, c: Chan): Step<()> {
    if ms == [] then Done((), c)
    else
      var (_, c1) :- WriteStr(ms[0], c);
      WriteAll(ms[1..], c1)
  }

  ghost function ReadAll(n: nat, c: Chan): Step<seq<seq<Byte>>> {
    if n == 0 then Done([], c)
    else
      var (m, c1) :- ReadStr(c);
      var (ms, c2) :- ReadAll(n - 1, c1);
      Done([m] + ms, c2)
  }

  lemma {:induction false} WritesAll(ms: seq<seq<Byte>>, c: Chan, more: seq<Byte>)
    requires c.pipe == Acks(AllChunks(ms)) + more
    ensures WriteAll(ms, c) == Done((), c.(pipe := more, out := c.out + Wire(AllChunks(ms))))
  {
    hide WriteFrom, Chunks, Frame;
    if ms == [] {
      assert c.pipe == more && c.out + [] == c.out;
    } else {
      var head, tail := Chunks(StrMessage(ms[0]), 0), AllChunks(ms[1..]);
      FramesAppend(head, tail);
      Assoc(Acks(head), Acks(tail), more);
      WritesChunks(StrMessage(ms[0]), 0, c, Acks(tail) + more);
      var c1 := WriteStr(ms[0], c).c;
      WritesAll(ms[1..], c1, more);
      Assoc(c.out, Wire(head), Wire(tail));
    }
  }

  lemma {:induction false} FramesAppend(a: seq<Noisy>, b: seq<Noisy>)
    ensures Wire(a + b) == Wire(a) + Wire(b)
    ensures Payloads(a + b) == Payloads(a) + Payloads(b)
    ensures Acks(a + b) == Acks(a) + Acks(b)
  {
    hide Frame, AckOf;
    if a == [] {
      assert a + b == b;
    } else {
      assert (a + b)[1..] == a[1..] + b;
      FramesAppend(a[1..], b);
      Assoc(a[0].noise + Frame(a[0].id, a[0].payload), Wire(a[1..]), Wire(b));
      Assoc(a[0].payload, Payloads(a[1..]), Payloads(b));
      Assoc(AckOf(a[0].id), Acks(a[1..]), Acks(b));
    }
  }

  function Messages(ms: seq<seq<Byte>>): seq<Byte> {
    if ms == [] then [] else StrMessage(ms[0]) + Messages(ms[1..])
  }

  lemma {:induction false} AllChunksCoverAll(ms: seq<seq<Byte>>)
    ensures Payloads(AllChunks(ms)) == Messages(ms)
    ensures forall i :: 0 <= i < |AllChunks(ms)| ==> AllChunks(ms)[i].payload != []
  {
    hide Chunks, StrMessage, Framable;
    if ms != [] {
      ChunksCoverAll(StrMessage(ms[0]), 0);
      AllChunksCoverAll(ms[1..]);
      FramesAppend(Chunks(StrMessage(ms[0]), 0), AllChunks(ms[1..]));
    }
  }

  lemma {:induction false} SilencedSame(fs: seq<Noisy>)
    ensures Payloads(Silenced(fs)) == Payloads(fs) && Acks(Silenced(fs)) == Acks(fs)
    ensures |Silenced(fs)| == |fs| && forall i :: 0 <= i < |fs| ==> fs[i].payload == Silenced(fs)[i].payload
  {
    if fs != [] {
      assert Silenced(fs)[1..] == Silenced(fs[1..]);
      SilencedSame(fs[1..]);
    }
  }

  lemma {:induction false} ReadsAll(ms: seq<seq<Byte>>, c: Chan, fs: seq<Noisy>, rest: seq<Byte>)
    returns (fs': seq<Noisy>)
    requires Carries(c, fs, rest) && Sendable(ms) && Queue(c, fs) == Messages(ms)
    ensures var r := ReadAll(|ms|, c);
            r.Done? && r.value == ms && Carries(r.c, fs', rest) && Queue(r.c, fs') == [] &&
            r.c.out + Acks(fs') == c.out + Acks(fs)
    ensures |fs'| <= |fs| && fs' == fs[|fs| - |fs'|..]
  {
    hide Carries, Queue, ReadStr, StrMessage, Quiet, Pow10;
    if ms == [] {
      fs' := fs;
    } else {
      SilenceIsQuiet(STR_TOKEN);
      assert [] + StrMessage(ms[0]) == StrMessage(ms[0]);
      var fs1 := MessageFromQueue([], ms[0], Messages(ms[1..]), c, fs, rest);
      fs' := ReadsAll(ms[1..], ReadStr(c).c, fs1, rest);
    }
  }

  /** Messages of any content, each below 10^11 bytes, written by one end come out of the
      other in order and unchanged, one per call, with any quiet rubbish before any frame.
      The writer takes off the wire exactly the acknowledgements that the reader puts on it. */
  lemma EndToEnd(ms: seq<seq<Byte>>, w: Chan, r: Chan, fs: seq<Noisy>, moreAcks: seq<Byte>, rest: seq<Byte>)
    requires Sendable(ms)
    requires w.pipe == Acks(AllChunks(ms)) + moreAcks
    requires Silenced(fs) == AllChunks(ms) && Carries(r, fs, rest) && r.buf == []
    ensures WriteAll(ms, w) == Done((), w.(pipe := moreAcks, out := w.out + Wire(AllChunks(ms))))
    ensures ReadAll(|ms|, r) == Done(ms, Chan([], rest, r.out + Acks(AllChunks(ms))))
  {
    hide AllChunks, ReadAll, WriteAll, Carries;
    WritesAll(ms, w, moreAcks);
    ReaderDrains(ms, r, fs, rest);
  }

  lemma ReaderDrains(ms: seq<seq<Byte>>, r: Chan, fs: seq<Noisy>, rest: seq<Byte>)
    requires Sendable(ms)
    requires Silenced(fs) == AllChunks(ms) && Carries(r, fs, rest) && r.buf == []
    ensures ReadAll(|ms|, r) == Done(ms, Chan([], rest, r.out + Acks(AllChunks(ms))))
  {
    hide AllChunks, ReadAll, Framable, Wire, Acks, Payloads, Messages, Silenced, Sendable;
    AllChunksCoverAll(ms);
    SilencedSame(fs);
    var fs' := ReadsAll(ms, r, fs, rest);
    NoneLeft(ReadAll(|ms|, r).c, fs', rest);
  }

  lemma NoneLeft(c: Chan, fs: seq<Noisy>, rest: seq<Byte>)
    requires Carries(c, fs, rest) && Queue(c, fs) == []
    requires forall i :: 0 <= i < |fs| ==> fs[i].payload != []
    ensures fs == [] && c.buf == [] && c.pipe == rest && Acks(fs) == [] && c.out + Acks(fs) == c.out
  {
    assert Payloads(fs) == [];
    assert [] + rest == rest && c.out + [] == c.out;
  }
}
