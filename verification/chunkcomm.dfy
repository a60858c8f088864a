/** The chunk layer as it runs: loops over raw reads of any size, one shared buffer, one token reader. */
module ChunkIo {
  import opened Bytes
  import opened Decimals
  import opened TokenSpec
  import opened TokenFinder
  import opened SharedIo
  import opened ChunkSpec

  class ChunkComm {
    var pending: seq<Byte> // arrived and not yet read
    var output: seq<Byte>  // written
    const sharedio: SharedBytesIO
    const tokenReader: TokenReader
    ghost var Repr: set<object>

    ghost predicate Valid()
      reads this, Repr
      ensures Valid() ==> this in Repr
    {
      this in Repr && sharedio in Repr && sharedio.Repr <= Repr && tokenReader.Repr <= Repr &&
      this !in sharedio.Repr + tokenReader.Repr && sharedio.Repr !! tokenReader.Repr &&
      sharedio.Valid() && tokenReader.Wired() && tokenReader.token == CHUNK_TOKEN
    }

    ghost function State(): Chan
      requires Valid()
      reads this, Repr
    {
      Chan(sharedio.Queue(), pending, output)
    }

    /** The outcome of a call, as a step of ChunkSpec. */
    ghost function Outcome<T>(r: Result<T>): Step<T>
      requires Valid()
      reads this, Repr
    {
      match r
      case Ok(v) => Done(v, State())
      case Err(e) => Failed(e, State())
    }

    constructor (arrived: seq<Byte>)
      ensures Valid() && fresh(Repr) && State() == Chan([], arrived, [])
    {
      pending, output := arrived, [];
      DistinctChunkToken();
      var s := new SharedBytesIO();
      var t := new TokenReader(CHUNK_TOKEN);
      sharedio, tokenReader := s, t;
      Repr := {this} + s.Repr + t.Repr;
    }

    /** _read: between 1 and n of the next bytes, or a timeout. */
    method ReadSome(n: nat) returns (r: Result<seq<Byte>>)
      requires n > 0
      modifies this`pending
      ensures r.Err? ==> r.error == EndOfInput && old(pending) == pending == []
      ensures r.Ok? ==> 1 <= |r.value| <= n && old(pending) == r.value + pending
    {
      if pending == [] {
        return Err(EndOfInput);
      }
      var k: nat :| 1 <= k <= n && k <= |pending|;
      r := Ok(pending[..k]);
      pending := pending[k..];
    }

    /** _read_until_size, on a buffer of its own. */
    method ReadRaw(n: int) returns (r: Result<seq<Byte>>)
      requires Valid()
      modifies this`pending
      ensures Valid() && Outcome(r) == ChunkSpec.ReadRaw(n, old(State()))
    {
      var sio := new SharedBytesIO();
      while sio.ReadableSize() < n
        invariant sio.Valid() && fresh(sio.Repr)
        invariant old(pending) == sio.Queue() + pending
        invariant |sio.Queue()| <= Max(n, 0)
        decreases |pending|
      {
        var s := ReadSome(n - sio.ReadableSize());
        if s.Err? {
          return Err(s.error);
        }
        Assoc(sio.Queue(), s.value, pending);
        var _ := sio.Write(s.value);
      }
      assert old(pending)[..|sio.Queue()|] == sio.Queue() && old(pending)[|sio.Queue()|..] == pending;
      ghost var all := sio.Queue();
      var bytes := sio.Read(n);
      assert bytes == (bytes + sio.Queue())[..|bytes|] == all;
      r := Ok(bytes);
    }

    /** _read_token: reads in blocks up to the end of the next token. */
    method ReadToken() returns (r: Result<seq<Byte>>)
      requires Valid()
      modifies this`pending, tokenReader.Repr
      ensures Valid() && Outcome(r) == ChunkSpec.ReadToken(old(State()))
    {
      hide AnyMatch, Detected, BeforeToken, Findable, Run, MaxPass, ChunkSpec.ReadRaw;
      DistinctChunkToken();
      ghost var all := pending;
      tokenReader.Reset();
      assert all == [] + pending;
      while tokenReader.remaining > 0
        invariant Valid() && tokenReader.Valid()
        invariant all == tokenReader.io + pending && State() == old(State()).(pipe := pending)
        invariant tokenReader.remaining == 0 <==> AnyMatch(CHUNK_TOKEN, tokenReader.io)
        invariant forall j :: 0 <= j < |tokenReader.io| ==> !AnyMatch(CHUNK_TOKEN, all[..j])
        decreases |pending|
      {
        ghost var fed, before := tokenReader.io, State();
        var s := ReadRaw(tokenReader.remaining);
        RawTakes(tokenReader.remaining, before);
        if s.Err? {
          NoTokenInTime(all, fed);
          return Err(s.error);
        }
        BlockHasNoToken(all, fed, s.value);
        tokenReader.Accept(s.value);
        Assoc(fed, s.value, pending);
      }
      var prefix := tokenReader.Prefix();
      TokenFound(old(State()), tokenReader.io, prefix);
      r := Ok(prefix);
    }

    /** _verify_read_token: a token and nothing before it. */
    method VerifyToken() returns (r: Result<()>)
      requires Valid()
      modifies this`pending, tokenReader.Repr
      ensures Valid() && Outcome(r) == ChunkSpec.VerifyToken(old(State()))
    {
      hide ChunkSpec.ReadToken;
      var s := ReadToken();
      if s.Err? {
        return Err(s.error);
      }
      r := if s.value != [] then Err(ChunkReaderError) else Ok(());
    }

    /** One round of read_until_size. */
    method ReadFrame() returns (r: Result<()>)
      requires Valid()
      modifies Repr
      ensures Valid() && fresh(Repr - old(Repr))
      ensures Outcome(r) == ChunkSpec.ReadFrame(old(State()))
    {
      hide ChunkSpec.ReadHeader, ChunkSpec.ReadPayload, ParseInt;
      var hdr := ReadHeader();
      if hdr.Err? {
        return Err(hdr.error);
      }
      var (id, len) := hdr.value;
      var size := ParseInt(len);
      if size == None {
        return Err(ValueError);
      }
      var payload := ReadPayload(size.value);
      if payload.Err? {
        return Err(payload.error);
      }
      if id != NO_ACK_ID {
        WriteAck(id);
      }
      r := Ok(());
    }

    method ReadHeader() returns (r: Result<(seq<Byte>, seq<Byte>)>)
      requires Valid()
      modifies this`pending, tokenReader.Repr
      ensures Valid() && Outcome(r) == ChunkSpec.ReadHeader(old(State()))
      ensures unchanged(sharedio.Repr)
    {
      hide ChunkSpec.ReadToken, ChunkSpec.VerifyToken;
      var s := ReadToken();
      if s.Err? {
        return Err(s.error);
      }
      var hdr := ReadRaw(ID_WIDTH + LEN_WIDTH);
      if hdr.Err? {
        return Err(hdr.error);
      }
      var t := VerifyToken();
      if t.Err? {
        return Err(t.error);
      }
      r := Ok((hdr.value[..ID_WIDTH], hdr.value[ID_WIDTH..]));
    }

    method ReadPayload(size: int) returns (r: Result<()>)
      requires Valid()
      modifies Repr
      ensures Valid() && Repr == old(Repr)
      ensures Outcome(r) == ChunkSpec.ReadPayload(size, old(State()))
    {
      hide ChunkSpec.VerifyToken;
      var payload := ReadRaw(size);
      if payload.Err? {
        return Err(payload.error);
      }
      var _ := sharedio.Write(payload.value);
      r := VerifyToken();
    }

    method WriteAck(id: seq<Byte>)
      requires Valid()
      modifies this`output
      ensures Valid() && State() == old(State()).(out := old(output) + id)
    {
      output := output + id;
    }

    /** read_until_size: n bytes of payload. */
    method ReadUntilSize(n: int) returns (r: Result<seq<Byte>>)
      requires Valid()
      modifies Repr
      ensures Valid() && fresh(Repr - old(Repr))
      ensures Outcome(r) == ChunkSpec.ReadUntilSize(n, old(State()))
    {
      hide ChunkSpec.ReadFrame;
      while sharedio.ReadableSize() < n
        invariant Valid() && fresh(Repr - old(Repr))
        invariant ChunkSpec.ReadUntilSize(n, State()) == ChunkSpec.ReadUntilSize(n, old(State()))
        decreases |pending|
      {
        var f := ReadFrame();
        if f.Err? {
          return Err(f.error);
        }
      }
      ghost var q := sharedio.Queue();
      var s := sharedio.Read(n);
      Repr := Repr + sharedio.Repr;
      assert s == q[..|s|] && sharedio.Queue() == q[|s|..];
      assert n < 0 ==> s == q && sharedio.Queue() == [];
      r := Ok(s);
    }

    /** _read_ack: raw bytes of the width of an id. */
    method ReadAck(id: nat) returns (r: Result<()>)
      requires Valid()
      modifies this`pending
      ensures Valid() && Outcome(r) == ChunkSpec.ReadAck(id, old(State()))
    {
      hide ParseInt;
      if id == 0 {
        return Ok(());
      }
      var s := ReadRaw(ID_WIDTH);
      if s.Err? {
        return Err(s.error);
      }
      r := if ParseInt(s.value) == Some(id) then Ok(()) else Err(ChunkReaderError);
    }

    /** write: frame by frame, waiting for the acknowledgement of every frame whose id is not 0. */
    method Write(s: seq<Byte>) returns (r: Result<()>)
      requires Valid()
      modifies this`pending, this`output
      ensures Valid() && Outcome(r) == WriteFrom(s, 0, old(State()))
    {
      hide Frame, ChunkSpec.ReadAck;
      var k := 0;
      while k * CHUNKSIZE < |s|
        invariant Valid() && WriteFrom(s, k, State()) == WriteFrom(s, 0, old(State()))
        decreases |s| - k * CHUNKSIZE
      {
        var id := k % 10000;
        output := output + Frame(id, Chunk(s, k));
        var a := ReadAck(id);
        if a.Err? {
          return Err(a.error);
        }
        k := k + 1;
      }
      r := Ok(());
    }
  }

  lemma RawTakes(n: nat, c: Chan)
    ensures var r := ChunkSpec.ReadRaw(n, c);
            r.c.buf == c.buf && r.c.out == c.out &&
            if r.Done? then |r.value| == n && c.pipe == r.value + r.c.pipe
            else r.error == EndOfInput && |c.pipe| < n && r.c.pipe == []
  {
  }

  lemma BlockHasNoToken(all: seq<Byte>, fed: seq<Byte>, s: seq<Byte>)
    requires Findable(CHUNK_TOKEN) && fed + s <= all
    requires |s| <= |CHUNK_TOKEN| - MaxPass(CHUNK_TOKEN, fed)
    ensures forall j :: |fed| <= j < |fed + s| ==> !AnyMatch(CHUNK_TOKEN, all[..j])
  {
    hide AnyMatch, Findable, MaxPass;
    forall j | |fed| <= j < |fed + s|
      ensures !AnyMatch(CHUNK_TOKEN, all[..j])
    {
      var w := s[..j - |fed|];
      assert all[..j] == fed + w;
      BlockIsSafe(CHUNK_TOKEN, fed, w);
    }
  }

  lemma NoTokenInTime(all: seq<Byte>, fed: seq<Byte>)
    requires Findable(CHUNK_TOKEN) && fed <= all
    requires |all| - |fed| < |CHUNK_TOKEN| - MaxPass(CHUNK_TOKEN, fed)
    ensures !AnyMatch(CHUNK_TOKEN, all)
  {
    hide AnyMatch, Findable, MaxPass;
    assert all == fed + all[|fed|..];
    BlockIsSafe(CHUNK_TOKEN, fed, all[|fed|..]);
  }

  lemma TokenFound(c: Chan, fed: seq<Byte>, r: seq<Byte>)
    requires fed <= c.pipe && AnyMatch(CHUNK_TOKEN, fed) && BeforeToken(CHUNK_TOKEN, fed, r)
    requires forall j :: 0 <= j < |fed| ==> !AnyMatch(CHUNK_TOKEN, c.pipe[..j])
    ensures ChunkSpec.ReadToken(c) == Done(r, c.(pipe := c.pipe[|fed|..]))
  {
    hide AnyMatch, BeforeToken, Findable;
    DistinctChunkToken();
    var p := c.pipe;
    assert p[..|fed|] == fed && p == fed + p[|fed|..];
    AnyMatchExtends(CHUNK_TOKEN, fed, p[|fed|..]);
    assert TokenRead(CHUNK_TOKEN, p, |fed|, r);
    forall k, r' | TokenRead(CHUNK_TOKEN, p, k, r')
      ensures k == |fed| && r' == r
    {
      TokenReadUnique(CHUNK_TOKEN, p, |fed|, r, k, r');
    }
  }

  /** The message layer: a token reader over read_until_size. */
  class StrComm {
    const comm: ChunkComm
    const tokenReader: TokenReader

    ghost predicate Valid()
      reads this, comm, comm.Repr, tokenReader.Repr
    {
      comm.Valid() && tokenReader.Wired() && tokenReader.token == STR_TOKEN &&
      comm.Repr !! tokenReader.Repr
    }

    constructor (comm: ChunkComm)
      requires comm.Valid()
      ensures Valid() && this.comm == comm && fresh(tokenReader.Repr)
    {
      DistinctStrToken();
      this.comm := comm;
      var t := new TokenReader(STR_TOKEN);
      tokenReader := t;
    }

    method WriteStr(s: seq<Byte>) returns (r: Result<()>)
      requires Valid()
      modifies comm`pending, comm`output
      ensures Valid() && comm.Outcome(r) == ChunkSpec.WriteStr(s, old(comm.State()))
    {
      hide WriteFrom;
      r := comm.Write(STR_TOKEN + Padded(|s|, STR_LEN_WIDTH) + s);
    }

    method ReadToken() returns (r: Result<seq<Byte>>)
      requires Valid()
      modifies comm.Repr, tokenReader.Repr
      ensures Valid() && fresh(comm.Repr - old(comm.Repr))
      ensures comm.Outcome(r) == ReadStrToken([], old(comm.State()))
    {
      hide AnyMatch, Detected, Findable, Run, MaxPass, ChunkSpec.ReadUntilSize;
      DistinctStrToken();
      tokenReader.Reset();
      while tokenReader.remaining > 0
        invariant Valid() && tokenReader.Valid() && fresh(comm.Repr - old(comm.Repr))
        invariant tokenReader.remaining == 0 <==> AnyMatch(STR_TOKEN, tokenReader.io)
        invariant ReadStrToken(tokenReader.io, comm.State()) == ReadStrToken([], old(comm.State()))
        decreases |comm.State().buf| + |comm.State().pipe|
      {
        var s := comm.ReadUntilSize(tokenReader.remaining);
        if s.Err? {
          return Err(s.error);
        }
        tokenReader.Accept(s.value);
      }
      r := Ok(tokenReader.io);
    }

    method ReadOnce() returns (r: Result<seq<Byte>>)
      requires Valid()
      modifies comm.Repr, tokenReader.Repr
      ensures Valid() && fresh(comm.Repr - old(comm.Repr))
      ensures comm.Outcome(r) == ReadStrOnce(old(comm.State()))
    {
      hide ReadStrToken, ChunkSpec.ReadUntilSize, ParseInt;
      var t := ReadToken();
      if t.Err? {
        return Err(t.error);
      }
      var len := comm.ReadUntilSize(STR_LEN_WIDTH);
      if len.Err? {
        return Err(len.error);
      }
      var n := ParseInt(len.value);
      if n == None {
        return Err(StrCommReadError);
      }
      r := comm.ReadUntilSize(n.value);
    }

    /** read_str: the next message, over any rubbish that makes reading fail in the expected ways. */
    method ReadStr() returns (r: Result<seq<Byte>>)
      requires Valid()
      modifies comm.Repr, tokenReader.Repr
      ensures Valid() && fresh(comm.Repr - old(comm.Repr))
      ensures comm.Outcome(r) == ChunkSpec.ReadStr(old(comm.State()))
    {
      hide ReadStrOnce;
      r := ReadOnce();
      while r.Err? && (r.error == StrCommReadError || r.error == ChunkReaderError)
        invariant Valid() && fresh(comm.Repr - old(comm.Repr))
        invariant var s := comm.Outcome(r);
                  ChunkSpec.ReadStr(old(comm.State())) ==
                  if s.Failed? && s.error in {StrCommReadError, ChunkReaderError} then ChunkSpec.ReadStr(s.c) else s
        decreases |comm.State().buf| + |comm.State().pipe|, r.Err? && r.error != EndOfInput
      {
        r := ReadOnce();
      }
    }
  }
}
