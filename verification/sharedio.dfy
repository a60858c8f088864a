/** The buffer between frames and reads: one BytesIO, a cursor for reading and one for writing. */
module SharedIo {
  import opened Bytes

  const CHUNKSIZE := 2000
  const MAX_BUFFER_SIZE := 100 * CHUNKSIZE

  /** io.BytesIO: bytes with one position. */
  class BytesIO {
    var value: seq<Byte>
    var pos: nat

    constructor (initial: seq<Byte>)
      ensures value == initial && pos == 0
    {
      value, pos := initial, 0;
    }

    method Seek(p: nat)
      modifies this`pos
      ensures pos == p
    {
      pos := p;
    }

    /** Up to size bytes from the position; all of them when size is negative. */
    method Read(size: int) returns (r: seq<Byte>)
      requires pos <= |value|
      modifies this`pos
      ensures var n := if size < 0 then |value| - old(pos) else Min(size, |value| - old(pos));
              r == value[old(pos)..old(pos) + n] && pos == old(pos) + n
    {
      var n := if size < 0 || size > |value| - pos then |value| - pos else size;
      r := value[pos..pos + n];
      pos := pos + n;
    }

    /** Overwrites from the position, and extends at the end. */
    method Write(s: seq<Byte>) returns (n: nat)
      requires pos <= |value|
      modifies this
      ensures n == |s| && pos == old(pos) + |s|
      ensures value == old(value)[..old(pos)] + s + old(value)[Min(old(pos) + |s|, |old(value)|)..]
    {
      n := |s|;
      value := value[..pos] + s + value[Min(pos + |s|, |value|)..];
      pos := pos + |s|;
    }
  }

  class PosWriter {
    const io: BytesIO
    var pos: nat

    constructor (io: BytesIO)
      ensures this.io == io && pos == io.pos
    {
      this.io, pos := io, io.pos;
    }

    method Write(s: seq<Byte>) returns (n: nat)
      requires pos == |io.value|
      modifies this, io
      ensures n == |s| && io.value == old(io.value) + s && pos == |io.value|
    {
      io.Seek(pos);
      n := io.Write(s);
      pos := io.pos;
    }
  }

  class PosReader {
    const io: BytesIO
    var pos: nat

    constructor (io: BytesIO)
      ensures this.io == io && pos == io.pos
    {
      this.io, pos := io, io.pos;
    }

    method Read(size: int) returns (r: seq<Byte>)
      requires pos <= |io.value|
      modifies this, io`pos
      ensures var n := if size < 0 then |io.value| - old(pos) else Min(size, |io.value| - old(pos));
              r == io.value[old(pos)..old(pos) + n] && pos == old(pos) + n
    {
      io.Seek(pos);
      r := io.Read(size);
      pos := io.pos;
    }
  }

  lemma Dequeued(c: seq<Byte>, v: seq<Byte>, p: nat, e: nat)
    requires p <= e <= |v|
    ensures v[p..] == v[p..e] + v[e..]
    ensures c + v[p..] == (c + v[p..e]) + v[e..]
  {
  }

  /** A FIFO of bytes that drops what was read once it would hold too much of it. */
  class SharedBytesIO {
    var io: BytesIO
    var reader: PosReader
    var writer: PosWriter

    ghost var Repr: set<object>
    ghost var Written: seq<Byte>  // every byte ever written
    ghost var Consumed: seq<Byte> // every byte ever read

    ghost predicate Valid()
      reads this, Repr
      ensures Valid() ==> this in Repr
    {
      Repr == {this, io, reader, writer} &&
      reader.io == io && writer.io == io &&
      reader.pos <= writer.pos == |io.value| &&
      Written == Consumed + Queue()
    }

    /** What was written and not yet read. */
    ghost function Queue(): seq<Byte>
      reads this, io, reader
    {
      if reader.pos <= |io.value| then io.value[reader.pos..] else []
    }

    /** Bytes that were read and are still stored. */
    ghost function Retained(): nat
      reads this, reader
    {
      reader.pos
    }

    constructor ()
      ensures Valid() && fresh(Repr) && Written == Consumed == []
    {
      var b := new BytesIO([]);
      io := b;
      var r := new PosReader(b);
      var w := new PosWriter(b);
      reader, writer := r, w;
      Written, Consumed, Repr := [], [], {this, b, r, w};
    }

    /** The reading cursor at the start of io, the writing cursor at its end. */
    method SetupReaderAndWriter()
      requires io.pos == 0
      modifies this`reader, this`writer, io`pos
      ensures fresh(reader) && fresh(writer)
      ensures reader.io == io && writer.io == io && reader.pos == 0 && writer.pos == |io.value|
    {
      reader := new PosReader(io);
      io.Seek(|io.value|);
      writer := new PosWriter(io);
    }

    /** Removes from the front: size bytes, fewer when there are fewer, everything
        when size is negative. */
    method Read(size: int) returns (r: seq<Byte>)
      requires Valid()
      modifies Repr
      ensures Valid() && fresh(Repr - old(Repr))
      ensures r + Queue() == old(Queue())
      ensures |r| == if size < 0 then |old(Queue())| else Min(size, |old(Queue())|)
      ensures Written == old(Written) && Consumed == old(Consumed) + r
      ensures size >= 0 ==> Retained() <= Max(MAX_BUFFER_SIZE, size)
    {
      if reader.pos + size > MAX_BUFFER_SIZE {
        CleanAlreadyRead();
      }
      ghost var p := reader.pos;
      r := reader.Read(size);
      Dequeued(Consumed, io.value, p, reader.pos);
      Consumed := Consumed + r;
    }

    /** Compaction: invisible from outside. */
    method CleanAlreadyRead()
      requires Valid()
      modifies Repr
      ensures Valid() && fresh(Repr - old(Repr))
      ensures Queue() == old(Queue()) && Retained() == 0
      ensures Written == old(Written) && Consumed == old(Consumed)
    {
      io.Seek(reader.pos);
      var rest := io.Read(-1);
      assert rest == old(Queue());
      io := new BytesIO(rest);
      SetupReaderAndWriter();
      Repr := {this, io, reader, writer};
    }

    method Write(s: seq<Byte>) returns (n: nat)
      requires Valid()
      modifies Repr
      ensures Valid() && Repr == old(Repr)
      ensures n == |s| && Queue() == old(Queue()) + s
      ensures Written == old(Written) + s && Consumed == old(Consumed)
      ensures Retained() == old(Retained())
    {
      n := writer.Write(s);
      Written := Written + s;
    }

    function ReadableSize(): (n: int)
      requires Valid()
      reads this, Repr
      ensures n == |Queue()| == |Written| - |Consumed|
    {
      writer.pos - reader.pos
    }
  }
}
