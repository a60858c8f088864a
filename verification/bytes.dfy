/** Bytes and the result types the other modules share. */
module Bytes {
  type Byte = x: int | 0 <= x < 256

  datatype Option<+T> = None | Some(value: T)

  /** The exceptions that reading from the wire can raise. */
  datatype Error =
    | EndOfInput       // the terminal timed out: fewer bytes arrived than were asked for
    | ChunkReaderError // rubbish where a chunk must hold a token, or a wrong acknowledgement
    | ValueError       // a chunk length that int() refuses
    | StrCommReadError // a message length that int() refuses

  datatype Result<+T> = Ok(value: T) | Err(error: Error)

  function Concat(parts: seq<seq<Byte>>): seq<Byte> {
    if parts == [] then [] else parts[0] + Concat(parts[1..])
  }

  lemma SomeMember<T>(s: set<T>) returns (x: T)
    requires s != {}
    ensures x in s
  {
    x :| x in s;
  }

  function Min(a: int, b: int): int { if a <= b then a else b }

  function Max(a: int, b: int): int { if a <= b then b else a }

  lemma Assoc(a: seq<Byte>, b: seq<Byte>, c: seq<Byte>)
    ensures (a + b) + c == a + (b + c)
  {
  }

  lemma {:induction false} ConcatAppend(a: seq<seq<Byte>>, b: seq<seq<Byte>>)
    ensures Concat(a + b) == Concat(a) + Concat(b)
  {
    if a == [] {
      assert a + b == b;
    } else {
      assert (a + b)[1..] == a[1..] + b;
      ConcatAppend(a[1..], b);
    }
  }
}
