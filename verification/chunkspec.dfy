/**
 The chunk layer and the message layer as functions: what each call returns and
 what it leaves on the wire, for every content of the wire.
 */
module ChunkSpec {
  import opened Bytes
  import opened Decimals
  import opened TokenSpec
  import opened SharedIo

  /** chunkcomm.py's token. */
  const CHUNK_TOKEN: seq<Byte> :=
    [94, 41, 125, 62, 63, 103, 68, 89, 115, 91, 85, 76, 70, 113, 65, 107, 83, 102, 126, 124]

  /** msgmanager.py's token. */
  const STR_TOKEN: seq<Byte> :=
    [46, 59, 45, 106, 74, 40, 56, 91, 41, 79, 119, 81, 97, 75, 115, 70, 61, 38, 80, 117]

  const ID_WIDTH := 4
  const LEN_WIDTH := 4
  const STR_LEN_WIDTH := 11
  const NO_ACK_ID: seq<Byte> := [48, 48, 48, 48]

  lemma DistinctChunkToken()
    ensures Distinct(CHUNK_TOKEN) && Findable(CHUNK_TOKEN) && |CHUNK_TOKEN| == 20
  {
    var rank := map[94 := 0, 41 := 1, 125 := 2, 62 := 3, 63 := 4, 103 := 5, 68 := 6, 89 := 7, 115 := 8, 91 := 9,
                    85 := 10, 76 := 11, 70 := 12, 113 := 13, 65 := 14, 107 := 15, 83 := 16, 102 := 17, 126 := 18,
                    124 := 19];
    assert forall i :: 0 <= i < 20 ==> CHUNK_TOKEN[i] in rank && rank[CHUNK_TOKEN[i]] == i;
    DistinctIsFindable(CHUNK_TOKEN);
  }

  lemma DistinctStrToken()
    ensures Distinct(STR_TOKEN) && Findable(STR_TOKEN) && |STR_TOKEN| == 20
  {
    var rank := map[46 := 0, 59 := 1, 45 := 2, 106 := 3, 74 := 4, 40 := 5, 56 := 6, 91 := 7, 41 := 8, 79 := 9,
                    119 := 10, 81 := 11, 97 := 12, 75 := 13, 115 := 14, 70 := 15, 61 := 16, 38 := 17, 80 := 18,
                    117 := 19];
    assert forall i :: 0 <= i < 20 ==> STR_TOKEN[i] in rank && rank[STR_TOKEN[i]] == i;
    DistinctIsFindable(STR_TOKEN);
  }

  // ---------- one end of the connection ----------

  /** The bytes unpacked from chunks and not yet asked for, the bytes that arrived
      and were not yet read, and the bytes written. */
  datatype Chan = Chan(buf: seq<Byte>, pipe: seq<Byte>, out: seq<Byte>)

  /** A value, or an exception, and the state it leaves. */
  datatype Step<+T> = Done(value: T, c: Chan) | Failed(error: Error, c: Chan) {
    predicate IsFailure() { Failed? }
    function PropagateFailure<U>(): Step<U> requires Failed? { Failed(error, c) }
    function Extract(): (T, Chan) requires Done? { (value, c) }
  }

  /** _read_until_size: exactly n bytes; when they do not come, those that came are lost. */
  function ReadRaw(n: int, c: Chan): Step<seq<Byte>> {
    if n <= 0 then Done([], c)
    else if n <= |c.pipe| then Done(c.pipe[..n], c.(pipe := c.pipe[n..]))
    else Failed(EndOfInput, c.(pipe := []))
  }

  /** _read_token: what stands before the token, which is logged. */
  ghost function ReadToken(c: Chan): (r: Step<seq<Byte>>)
    ensures |r.c.pipe| <= |c.pipe| && (r.Done? ==> |r.c.pipe| < |c.pipe|)
    ensures r.c.buf == c.buf && r.c.out == c.out
    ensures r.Failed? ==> r.error == EndOfInput
  {
    if AnyMatch(CHUNK_TOKEN, c.pipe) then
      DistinctChunkToken();
      TokenReadExists(CHUNK_TOKEN, c.pipe);
      var k, r :| TokenRead(CHUNK_TOKEN, c.pipe, k, r);
      assert k > 0;
      Done(r, c.(pipe := c.pipe[k..]))
    else Failed(EndOfInput, c.(pipe := []))
  }

  /** _verify_read_token: nothing may stand before the token. */
  ghost function VerifyToken(c: Chan): (r: Step<()>)
    ensures |r.c.pipe| <= |c.pipe|
    ensures r.c.buf == c.buf && r.c.out == c.out
  {
    var (s, c1) :- ReadToken(c);
    if s == [] then Done((), c1) else Failed(ChunkReaderError, c1)
  }

  /** A payload of the given size with the token after it. The payload is kept even
      when the token is not where it must be. */
  ghost function ReadPayload(size: int, c: Chan): (r: Step<()>)
    ensures |r.c.pipe| <= |c.pipe|
    ensures |r.c.buf| + |r.c.pipe| <= |c.buf| + |c.pipe|
  {
    var (payload, c1) :- ReadRaw(size, c);
    VerifyToken(c1.(buf := c1.buf + payload))
  }

  /** The token, the header and the token after it: the header's two fields. */
  ghost function ReadHeader(c: Chan): (r: Step<(seq<Byte>, seq<Byte>)>)
    ensures |r.c.pipe| <= |c.pipe| && r.c.buf == c.buf && r.c.out == c.out
    ensures r.Done? || r.error != EndOfInput ==> |r.c.pipe| < |c.pipe|
  {
    var (_, c1) :- ReadToken(c);
    var (hdr, c2) :- ReadRaw(ID_WIDTH + LEN_WIDTH, c1);
    var (_, c3) :- VerifyToken(c2);
    Done((hdr[..ID_WIDTH], hdr[ID_WIDTH..]), c3)
  }

  /** One round of the loop of read_until_size. */
  ghost function ReadFrame(c: Chan): (r: Step<()>)
    ensures |r.c.buf| + |r.c.pipe| <= |c.buf| + |c.pipe|
    ensures r.Done? ==> |r.c.pipe| < |c.pipe|
    ensures r.Done? || r.error != EndOfInput ==> |r.c.buf| + |r.c.pipe| < |c.buf| + |c.pipe|
  {
    hide ReadHeader, ReadPayload, ParseInt;
    var ((id, len), c1) :- ReadHeader(c);
    if ParseInt(len) == None then Failed(ValueError, c1)
    else
      var (_, c2) :- ReadPayload(ParseInt(len).value, c1);
      Done((), if id == NO_ACK_ID then c2 else c2.(out := c2.out + id))
  }

  /** read_until_size: n bytes of payload, unpacking as many chunks as that takes. */
  ghost function ReadUntilSize(n: int, c: Chan): (r: Step<seq<Byte>>)
    ensures |r.c.buf| + |r.c.pipe| <= |c.buf| + |c.pipe|
    ensures r.Done? && n > 0 ==> |r.c.buf| + |r.c.pipe| < |c.buf| + |c.pipe|
    ensures r.Failed? && r.error != EndOfInput ==> |r.c.buf| + |r.c.pipe| < |c.buf| + |c.pipe|
    decreases |c.pipe|
  {
    if |c.buf| < n then
      var (_, c1) :- ReadFrame(c);
      ReadUntilSize(n, c1)
    else if n < 0 then Done(c.buf, c.(buf := []))
    else Done(c.buf[..n], c.(buf := c.buf[n..]))
  }

  // ---------- writing ----------

  function Frame(id: nat, payload: seq<Byte>): seq<Byte> {
    CHUNK_TOKEN + Padded(id, ID_WIDTH) + Padded(|payload|, LEN_WIDTH) + CHUNK_TOKEN + payload + CHUNK_TOKEN
  }

  /** The k-th chunk of s. */
  function Chunk(s: seq<Byte>, k: nat): (r: seq<Byte>)
    requires k * CHUNKSIZE < |s|
    ensures 0 < |r| <= CHUNKSIZE
  {
    s[k * CHUNKSIZE..Min((k + 1) * CHUNKSIZE, |s|)]
  }

  /** _read_and_verify_ack */
  function ReadAck(id: nat, c: Chan): Step<()> {
    if id == 0 then Done((), c)
    else
      var (s, c1) :- ReadRaw(ID_WIDTH, c);
      if ParseInt(s) == Some(id) then Done((), c1) else Failed(ChunkReaderError, c1)
  }

  /** write, from the k-th chunk on. */
  function WriteFrom(s: seq<Byte>, k: nat, c: Chan): Step<()>
    decreases |s| - k * CHUNKSIZE
  {
    if k * CHUNKSIZE >= |s| then Done((), c)
    else
      var id := k % 10000;
      var (_, c1) :- ReadAck(id, c.(out := c.out + Frame(id, Chunk(s, k))));
      WriteFrom(s, k + 1, c1)
  }

  // ---------- the message layer ----------

  function StrMessage(s: seq<Byte>): seq<Byte> {
    STR_TOKEN + Padded(|s|, STR_LEN_WIDTH) + s
  }

  /** write_str */
  function WriteStr(s: seq<Byte>, c: Chan): Step<()> {
    WriteFrom(StrMessage(s), 0, c)
  }

  /** The bytes that the token certainly still needs. */
  function Missing(t: seq<Byte>, fed: seq<Byte>): (n: nat)
    requires |t| > 0 && Findable(t)
    ensures 0 < n <= |t| || AnyMatch(t, fed)
  {
    MaxPassFull(t, fed);
    DetectedExactly(t, fed);
    |t| - MaxPass(t, fed)
  }

  /** read_until_token over the chunk layer, after reading fed. */
  ghost function ReadStrToken(fed: seq<Byte>, c: Chan): (r: Step<seq<Byte>>)
    ensures |r.c.buf| + |r.c.pipe| <= |c.buf| + |c.pipe|
    ensures r.Failed? && r.error != EndOfInput ==> |r.c.buf| + |r.c.pipe| < |c.buf| + |c.pipe|
    decreases |c.buf| + |c.pipe|
  {
    hide ReadUntilSize, AnyMatch, Findable, Missing;
    if AnyMatch(STR_TOKEN, fed) then Done(fed, c)
    else
      DistinctStrToken();
      var (s, c1) :- ReadUntilSize(Missing(STR_TOKEN, fed), c);
      ReadStrToken(fed + s, c1)
  }

  /** One round of the loop of read_str. */
  ghost function ReadStrOnce(c: Chan): (r: Step<seq<Byte>>)
    ensures |r.c.buf| + |r.c.pipe| <= |c.buf| + |c.pipe|
    ensures r.Failed? && r.error != EndOfInput ==> |r.c.buf| + |r.c.pipe| < |c.buf| + |c.pipe|
  {
    var (_, c1) :- ReadStrToken([], c);
    var (len, c2) :- ReadUntilSize(STR_LEN_WIDTH, c1);
    if ParseInt(len) == None then Failed(StrCommReadError, c2)
    else ReadUntilSize(ParseInt(len).value, c2)
  }

  /** read_str: the two reading errors make it start again, any other goes up. */
  ghost function ReadStr(c: Chan): Step<seq<Byte>>
    decreases |c.buf| + |c.pipe|
  {
    var r := ReadStrOnce(c);
    if r.Failed? && r.error in {StrCommReadError, ChunkReaderError} then ReadStr(r.c) else r
  }
}
