/** How reading ends: which of the errors of the chunk layer comes up through read_str. */
module ReadErrors {
  import opened Bytes
  import opened Decimals
  import opened TokenSpec
  import opened SharedIo
  import opened ChunkSpec
  import opened Transport

  // ---------- what was unpacked before has no part in it ----------

  /** Two calls come to the same, and leave the same on the wire. */
  predicate Alike<T(==)>(r: Step<T>, s: Step<T>) {
    r.c.pipe == s.c.pipe &&
    match r
    case Done(v, _) => s.Done? && s.value == v
    case Failed(e, _) => s.Failed? && s.error == e
  }

  lemma TokenAlike(c: Chan, d: Chan)
    requires c.pipe == d.pipe
    ensures Alike(ReadToken(c), ReadToken(d)) && Alike(VerifyToken(c), VerifyToken(d))
  {
    hide AnyMatch, TokenRead, Findable;
    if AnyMatch(CHUNK_TOKEN, c.pipe) {
      DistinctChunkToken();
      TokenReadExists(CHUNK_TOKEN, c.pipe);
      forall k, r, k', r' | TokenRead(CHUNK_TOKEN, c.pipe, k, r) && TokenRead(CHUNK_TOKEN, c.pipe, k', r')
        ensures k == k' && r == r'
      {
        TokenReadUnique(CHUNK_TOKEN, c.pipe, k, r, k', r');
      }
    }
  }

  lemma PayloadAlike(size: int, c: Chan, d: Chan)
    requires c.pipe == d.pipe
    ensures Alike(ReadPayload(size, c), ReadPayload(size, d))
  {
    hide VerifyToken;
    var r, s := ReadRaw(size, c), ReadRaw(size, d);
    if r.Done? {
      TokenAlike(r.c.(buf := r.c.buf + r.value), s.c.(buf := s.c.buf + s.value));
    }
  }

  lemma HeaderAlike(c: Chan, d: Chan)
    requires c.pipe == d.pipe
    ensures Alike(ReadHeader(c), ReadHeader(d))
  {
    hide ReadToken, VerifyToken;
    TokenAlike(c, d);
    var r, s := ReadToken(c), ReadToken(d);
    if r.Done? {
      var hdr, hdr' := ReadRaw(ID_WIDTH + LEN_WIDTH, r.c), ReadRaw(ID_WIDTH + LEN_WIDTH, s.c);
      TokenAlike(hdr.c, hdr'.c);
    }
  }

  lemma FrameAlike(c: Chan, d: Chan)
    requires c.pipe == d.pipe
    ensures Alike(ReadFrame(c), ReadFrame(d))
  {
    hide ReadHeader, ReadPayload, ParseInt;
    HeaderAlike(c, d);
    var r, s := ReadHeader(c), ReadHeader(d);
    if r.Done? && ParseInt(r.value.1).Some? {
      PayloadAlike(ParseInt(r.value.1).value, r.c, s.c);
    }
  }

  // ---------- the error that a wire ends with ----------

  /** The first error that unpacking frame by frame meets and that is not rubbish in the place of a token. */
  ghost function WireEnd(pipe: seq<Byte>): Error
    decreases |pipe|
  {
    var r := ReadFrame(Chan([], pipe, []));
    if r.Done? || r.error == ChunkReaderError then WireEnd(r.c.pipe) else r.error
  }

  predicate Caught(e: Error) { e in {StrCommReadError, ChunkReaderError} }

  /** A call has that error still before it, unless it ends with it. */
  ghost predicate Towards<T>(r: Step<T>, pipe: seq<Byte>) {
    WireEnd(pipe) == if r.Done? || Caught(r.error) then WireEnd(r.c.pipe) else r.error
  }

  lemma FrameTowards(c: Chan)
    ensures Towards(ReadFrame(c), c.pipe)
  {
    hide ReadFrame;
    FrameAlike(c, Chan([], c.pipe, []));
    FrameErrors(c);
  }

  lemma FrameErrors(c: Chan)
    ensures ReadFrame(c).Failed? ==> ReadFrame(c).error in {EndOfInput, ChunkReaderError, ValueError}
  {
    hide ReadToken, ParseInt;
  }

  lemma {:induction false} UntilSizeTowards(n: int, c: Chan)
    ensures Towards(ReadUntilSize(n, c), c.pipe)
    decreases |c.pipe|
  {
    hide ReadFrame, WireEnd;
    if |c.buf| < n {
      FrameTowards(c);
      if ReadFrame(c).Done? {
        UntilSizeTowards(n, ReadFrame(c).c);
      }
    }
  }

  lemma {:induction false} StrTokenTowards(fed: seq<Byte>, c: Chan)
    ensures Towards(ReadStrToken(fed, c), c.pipe)
    decreases |c.buf| + |c.pipe|
  {
    hide ReadUntilSize, AnyMatch, Findable, Missing, WireEnd;
    if !AnyMatch(STR_TOKEN, fed) {
      DistinctStrToken();
      var n := Missing(STR_TOKEN, fed);
      UntilSizeTowards(n, c);
      var r := ReadUntilSize(n, c);
      if r.Done? {
        StrTokenTowards(fed + r.value, r.c);
      }
    }
  }

  lemma OnceTowards(c: Chan)
    ensures Towards(ReadStrOnce(c), c.pipe)
  {
    hide ReadUntilSize, ReadStrToken, ParseInt, WireEnd;
    StrTokenTowards([], c);
    var t := ReadStrToken([], c);
    if t.Done? {
      UntilSizeTowards(STR_LEN_WIDTH, t.c);
      var l := ReadUntilSize(STR_LEN_WIDTH, t.c);
      if l.Done? && ParseInt(l.value).Some? {
        UntilSizeTowards(ParseInt(l.value).value, l.c);
      }
    }
  }

  lemma {:induction false} StrTowards(c: Chan)
    ensures Towards(ReadStr(c), c.pipe) && (ReadStr(c).Failed? ==> !Caught(ReadStr(c).error))
    decreases |c.buf| + |c.pipe|
  {
    hide ReadStrOnce, WireEnd;
    OnceTowards(c);
    var r := ReadStrOnce(c);
    if r.Failed? && Caught(r.error) {
      StrTowards(r.c);
    }
  }

  /** Whatever is on the wire and in the buffer, and however many messages come out first: an
      error of read_str is the one that the wire ends with. */
  lemma {:induction false} ErrorIsWireEnd(n: nat, c: Chan)
    ensures Towards(ReadAll(n, c), c.pipe)
    ensures ReadAll(n, c).Failed? ==> ReadAll(n, c).error == WireEnd(c.pipe)
  {
    hide ReadStr, WireEnd;
    if n > 0 {
      StrTowards(c);
      var r := ReadStr(c);
      if r.Done? {
        ErrorIsWireEnd(n - 1, r.c);
      }
    }
  }

  lemma OnceConsumes(c: Chan)
    ensures var r := ReadStrOnce(c); r.Done? ==> |r.c.buf| + |r.c.pipe| < |c.buf| + |c.pipe|
  {
    hide ReadUntilSize, AnyMatch, Findable, Missing, ParseInt;
    DistinctStrToken();
    MatchLength(STR_TOKEN, []);
  }

  lemma {:induction false} StrConsumes(c: Chan)
    ensures var r := ReadStr(c); r.Done? ==> |r.c.buf| + |r.c.pipe| < |c.buf| + |c.pipe|
    decreases |c.buf| + |c.pipe|
  {
    hide ReadStrOnce;
    OnceConsumes(c);
    var r := ReadStrOnce(c);
    if r.Failed? && Caught(r.error) {
      StrConsumes(r.c);
    }
  }

  /** Reading message after message does end, with that error. */
  lemma {:induction false} ReadingEnds(c: Chan)
    ensures exists n: nat :: ReadAll(n, c).Failed? && ReadAll(n, c).error == WireEnd(c.pipe)
    decreases |c.buf| + |c.pipe|
  {
    hide ReadStr, WireEnd;
    var r := ReadStr(c);
    if r.Done? {
      StrConsumes(c);
      ReadingEnds(r.c);
      var n: nat :| ReadAll(n, r.c).Failed?;
      assert ReadAll(n + 1, c) == Failed(ReadAll(n, r.c).error, ReadAll(n, r.c).c);
      ErrorIsWireEnd(n + 1, c);
    } else {
      assert ReadAll(1, c).Failed?;
      ErrorIsWireEnd(1, c);
    }
  }

  // ---------- a length that int() refuses ----------

  /** A header between its tokens, with rubbish before it. */
  ghost predicate HeaderFirst(pipe: seq<Byte>, noise: seq<Byte>, id: seq<Byte>, len: seq<Byte>, rest: seq<Byte>) {
    Quiet(CHUNK_TOKEN, noise) && |id| == ID_WIDTH && |len| == LEN_WIDTH &&
    pipe == noise + CHUNK_TOKEN + ((id + len) + (CHUNK_TOKEN + rest))
  }

  /** Whatever is around a header, unpacking raises ValueError if and only if int() refuses the length. */
  lemma LengthRefusedExactlyWhen(noise: seq<Byte>, id: seq<Byte>, len: seq<Byte>, rest: seq<Byte>, c: Chan)
    requires HeaderFirst(c.pipe, noise, id, len, rest)
    ensures ReadFrame(c).Failed? && ReadFrame(c).error == ValueError <==> ParseInt(len) == None
  {
    hide Quiet, ReadHeader, ParseInt, ReadToken;
    HeaderReads(noise, id, len, rest, c);
  }

  /** That error goes through read_str, which catches two others: behind good frames it is what reading fails with. */
  lemma {:induction false} LengthErrorGoesUp(n: nat, c: Chan, fs: seq<Noisy>, noise: seq<Byte>, id: seq<Byte>,
                                             len: seq<Byte>, rest: seq<Byte>, bad: seq<Byte>)
    requires Framable(fs) && HeaderFirst(bad, noise, id, len, rest) && ParseInt(len) == None
    requires c.pipe == Wire(fs) + bad
    ensures WireEnd(c.pipe) == ValueError && (ReadAll(n, c).Failed? ==> ReadAll(n, c).error == ValueError)
    decreases |fs|
  {
    hide Quiet, ReadFrame, ParseInt, ReadAll, Frame, HeaderFirst;
    FrameTowards(c);
    if fs == [] {
      assert c.pipe == bad;
      LengthRefusedExactlyWhen(noise, id, len, rest, c);
    } else {
      var c1 := UnpacksNext(c, fs, bad);
      LengthErrorGoesUp(n, c1, fs[1..], noise, id, len, rest, bad);
    }
    ErrorIsWireEnd(n, c);
  }

  /** A frame with letters for its length. */
  lemma LettersAsLength(c: Chan)
    requires c == Chan([], CHUNK_TOKEN + [48, 48, 48, 49, 97, 98, 99, 100] + CHUNK_TOKEN, [])
    ensures ReadStr(c).Failed? && ReadStr(c).error == ValueError
  {
    hide ReadStr, ReadFrame, Quiet, ParseInt, AnyMatch, Findable, Missing;
    var id, len: seq<Byte> := [48, 48, 48, 49], [97, 98, 99, 100];
    SilenceIsQuiet(CHUNK_TOKEN);
    NotANumber(len);
    assert id + len == [48, 48, 48, 49, 97, 98, 99, 100];
    assert c.pipe == [] + CHUNK_TOKEN + ((id + len) + (CHUNK_TOKEN + []));
    LengthRefusedExactlyWhen([], id, len, [], c);
    FirstFrameFails(c);
  }

  /** With nothing unpacked before, read_str needs a first frame. */
  lemma FirstFrameFails(c: Chan)
    requires c.buf == [] && ReadFrame(c).Failed? && !Caught(ReadFrame(c).error)
    ensures ReadStr(c).Failed? && ReadStr(c).error == ReadFrame(c).error
  {
    hide ReadFrame, AnyMatch, Findable, Missing;
    DistinctStrToken();
    MatchLength(STR_TOKEN, []);
    var f := ReadFrame(c);
    assert ReadUntilSize(Missing(STR_TOKEN, []), c) == Failed(f.error, f.c);
    assert ReadStrToken([], c) == Failed(f.error, f.c);
  }

  lemma NotANumber(s: seq<Byte>)
    requires s != [] && s[0] == 97 && s[|s| - 1] == 100
    ensures ParseInt(s) == None
  {
    assert StripLeft(s) == s && StripRight(s) == s;
  }

  // ---------- rubbish where a token must stand ----------

  /** Of the text before the next token nothing may be there. */
  lemma RubbishRefusedExactlyWhen(noise: seq<Byte>, rest: seq<Byte>, c: Chan)
    requires Quiet(CHUNK_TOKEN, noise) && c.pipe == noise + CHUNK_TOKEN + rest
    ensures VerifyToken(c) ==
            if noise == [] then Done((), c.(pipe := rest)) else Failed(ChunkReaderError, c.(pipe := rest))
  {
    hide Quiet, ReadToken;
    TokenAhead(noise, rest, c);
  }

  /** A whole frame, with rubbish before it, before the token behind its header, and before the one behind its
      payload: unpacking succeeds if and only if the last two are empty, and else raises ChunkReaderError. */
  lemma FrameRefusedExactlyWhen(noise: seq<Byte>, id: seq<Byte>, len: seq<Byte>, noise1: seq<Byte>,
                                payload: seq<Byte>, noise2: seq<Byte>, rest: seq<Byte>, c: Chan)
    requires Quiet(CHUNK_TOKEN, noise) && Quiet(CHUNK_TOKEN, noise1) && Quiet(CHUNK_TOKEN, noise2)
    requires |id| == ID_WIDTH && |len| == LEN_WIDTH && ParseInt(len) == Some(|payload|)
    requires c.pipe == noise + CHUNK_TOKEN + ((id + len) + (noise1 + CHUNK_TOKEN +
                       (payload + (noise2 + CHUNK_TOKEN + rest))))
    ensures ReadFrame(c).Done? <==> noise1 == [] && noise2 == []
    ensures ReadFrame(c).Failed? ==> ReadFrame(c).error == ChunkReaderError
    ensures ReadFrame(c).Done? ==>
              ReadFrame(c).c == Chan(c.buf + payload, rest, if id == NO_ACK_ID then c.out else c.out + id)
  {
    hide Quiet, ReadToken, VerifyToken, ReadHeader, ReadPayload, ParseInt;
    var behind := payload + (noise2 + CHUNK_TOKEN + rest);
    HeaderWithRubbish(noise, id, len, noise1, behind, c);
    if noise1 == [] {
      PayloadWithRubbish(payload, noise2, rest, c.(pipe := behind));
    }
  }

  lemma HeaderWithRubbish(noise: seq<Byte>, id: seq<Byte>, len: seq<Byte>, noise1: seq<Byte>, rest: seq<Byte>, c: Chan)
    requires Quiet(CHUNK_TOKEN, noise) && Quiet(CHUNK_TOKEN, noise1) && |id| == ID_WIDTH && |len| == LEN_WIDTH
    requires c.pipe == noise + CHUNK_TOKEN + ((id + len) + (noise1 + CHUNK_TOKEN + rest))
    ensures ReadHeader(c) ==
            if noise1 == [] then Done((id, len), c.(pipe := rest)) else Failed(ChunkReaderError, c.(pipe := rest))
  {
    hide Quiet, ReadToken, VerifyToken;
    var tail := noise1 + CHUNK_TOKEN + rest;
    TokenAhead(noise, (id + len) + tail, c);
    RawAhead(id + len, tail, c.(pipe := (id + len) + tail));
    RubbishRefusedExactlyWhen(noise1, rest, c.(pipe := tail));
    assert (id + len)[..ID_WIDTH] == id && (id + len)[ID_WIDTH..] == len;
  }

  lemma PayloadWithRubbish(payload: seq<Byte>, noise: seq<Byte>, rest: seq<Byte>, c: Chan)
    requires Quiet(CHUNK_TOKEN, noise) && c.pipe == payload + (noise + CHUNK_TOKEN + rest)
    ensures var d := c.(buf := c.buf + payload, pipe := rest);
            ReadPayload(|payload|, c) == if noise == [] then Done((), d) else Failed(ChunkReaderError, d)
  {
    hide Quiet, VerifyToken;
    var tail := noise + CHUNK_TOKEN + rest;
    RawAhead(payload, tail, c);
    RubbishRefusedExactlyWhen(noise, rest, c.(buf := c.buf + payload, pipe := tail));
  }

  // ---------- acknowledgements that are not the expected ones ----------

  /** What came back for each of fs: nothing for the frame with id 0, else four bytes that int() reads as its id. */
  ghost predicate Acknowledges(answers: seq<seq<Byte>>, fs: seq<Noisy>) {
    |answers| == |fs| &&
    forall i :: 0 <= i < |fs| ==>
      if fs[i].id == 0 then answers[i] == []
      else |answers[i]| == ID_WIDTH && ParseInt(answers[i]) == Some(fs[i].id)
  }

  /** Four bytes are taken for the acknowledgement if and only if int() reads them as the id; and of
      the ids as the other end writes them that is the id itself and no other. */
  lemma AckRefusedExactlyWhen(id: nat, answer: seq<Byte>, rest: seq<Byte>, c: Chan)
    requires id != 0 && |answer| == ID_WIDTH && c.pipe == answer + rest
    ensures ReadAck(id, c) ==
            if ParseInt(answer) == Some(id) then Done((), c.(pipe := rest))
            else Failed(ChunkReaderError, c.(pipe := rest))
    ensures forall j: nat :: answer == Padded(j, ID_WIDTH) ==> (ReadAck(id, c).Done? <==> j == id)
  {
    hide ParseInt, Padded;
    RawAhead(answer, rest, c);
    forall j: nat | answer == Padded(j, ID_WIDTH)
      ensures ReadAck(id, c).Done? <==> j == id
    {
      PaddedParses(j, ID_WIDTH);
    }
  }

  /** The wire begins with the acknowledgements of fs, in their order. */
  ghost predicate Acked(fs: seq<Noisy>, p: seq<Byte>) {
    exists answers :: Acknowledges(answers, fs) && Concat(answers) <= p
  }

  /** Writing from the k-th chunk on succeeds if and only if all its frames were acknowledged. */
  lemma {:induction false} WriteRefusedExactlyWhen(s: seq<Byte>, k: nat, c: Chan)
    ensures WriteFrom(s, k, c).Done? <==> Acked(Chunks(s, k), c.pipe)
    decreases |s| - k * CHUNKSIZE
  {
    hide Frame, Chunk, Acked, ReadAck;
    if k * CHUNKSIZE >= |s| {
      NothingToAnswer(c.pipe);
    } else {
      var d := c.(out := c.out + Frame(k % 10000, Chunk(s, k)));
      FirstAck(Chunks(s, k), d);
      var a := ReadAck(k % 10000, d);
      if a.Done? {
        WriteRefusedExactlyWhen(s, k + 1, a.c);
      }
    }
  }

  lemma NothingToAnswer(p: seq<Byte>)
    ensures Acked([], p)
  {
    assert Acknowledges([], []) && Concat([]) <= p;
  }

  lemma FirstAck(fs: seq<Noisy>, c: Chan)
    requires fs != []
    ensures var a := ReadAck(fs[0].id, c); Acked(fs, c.pipe) <==> a.Done? && Acked(fs[1..], a.c.pipe)
  {
    hide ParseInt;
    var a := ReadAck(fs[0].id, c);
    if a.Done? && Acked(fs[1..], a.c.pipe) {
      var answers :| Acknowledges(answers, fs[1..]) && Concat(answers) <= a.c.pipe;
      FirstAnswered(c.pipe, fs[0].id, a.c.pipe, answers, fs);
    }
    if answers :| Acknowledges(answers, fs) && Concat(answers) <= c.pipe {
      OthersAnswered(c.pipe, answers);
      assert Acknowledges(answers[1..], fs[1..]);
    }
  }

  lemma FirstAnswered(p: seq<Byte>, id: nat, q: seq<Byte>, answers: seq<seq<Byte>>, fs: seq<Noisy>)
    requires fs != [] && fs[0].id == id && Acknowledges(answers, fs[1..]) && Concat(answers) <= q
    requires if id == 0 then p == q
             else |p| >= ID_WIDTH && ParseInt(p[..ID_WIDTH]) == Some(id) && q == p[ID_WIDTH..]
    ensures Acked(fs, p)
  {
    hide ParseInt;
    var first := if id == 0 then [] else p[..ID_WIDTH];
    var all := [first] + answers;
    assert p == first + q;
    assert all[1..] == answers;
    assert Acknowledges(all, fs);
  }

  lemma OthersAnswered(p: seq<Byte>, answers: seq<seq<Byte>>)
    requires answers != [] && Concat(answers) <= p
    ensures answers[0] <= p && p[..|answers[0]|] == answers[0] && Concat(answers[1..]) <= p[|answers[0]|..]
  {
  }
}
