/**
 Reading from a channel through a queue that another thread fills. The queue of the
 model holds what that thread will ever put into it; taking an item from it may come
 too early, so that every timing of the thread is covered.
 */
module ParamikoReads {
  import opened Bytes

  /** A chunk of output, or the end of file. */
  datatype Item = Chunk(bytes: seq<Byte>) | EndOfFile

  datatype Reading = Bytes(s: seq<Byte>) | EOF | TIMEOUT

  function Output(q: seq<Item>): seq<Byte> {
    if q == [] then []
    else (match q[0] case Chunk(b) => b case EndOfFile => []) + Output(q[1..])
  }

  /** The thread stops behind the end of file. */
  predicate Ends(q: seq<Item>) {
    forall i :: 0 <= i < |q| - 1 ==> q[i].Chunk?
  }

  /** The first k items of q went, of which none was taken with size bytes there; b is start and what they held. */
  ghost predicate Drained(q: seq<Item>, k: int, rest: seq<Item>, start: seq<Byte>, b: seq<Byte>, size: nat) {
    0 <= k <= |q| && rest == q[k..] && b == start + Output(q[..k]) &&
    (k > 0 ==> |start + Output(q[..k - 1])| < size)
  }

  lemma {:induction false} OutputOn(q: seq<Item>, i: Item)
    ensures Output(q + [i]) == Output(q) + match i case Chunk(b) => b case EndOfFile => []
  {
    if q == [] {
      assert Output([i][1..]) == [];
    } else {
      assert (q + [i])[1..] == q[1..] + [i];
      OutputOn(q[1..], i);
    }
  }

  lemma OneMoreTaken(q: seq<Item>, k: nat, rest: seq<Item>, start: seq<Byte>, b: seq<Byte>, size: nat, i: Item,
                     left: seq<Item>)
    requires Drained(q, k, rest, start, b, size) && |b| < size && rest == [i] + left
    ensures Drained(q, k + 1, left, start, b + match i case Chunk(c) => c case EndOfFile => [], size)
  {
    assert q[k] == rest[0] == i;
    assert left == rest[1..] == q[k + 1..];
    assert q[..k + 1] == q[..k] + [i];
    OutputOn(q[..k], i);
    assert q[..k + 1][..k] == q[..k];
  }

  class ParamikoSpawn {
    var readQueue: seq<Item>
    var buf: seq<Byte>
    var readReachedEof: bool
    var flagEof: bool
    ghost const Stream: seq<Byte> // all output of the channel
    ghost var Returned: seq<Byte> // what the caller has got
    ghost var Misses: nat         // how often the queue was found empty

    /** With b for the buffer: nothing is lost, doubled or out of order. */
    ghost predicate Keeps(b: seq<Byte>)
      reads this
    {
      Stream == Returned + b + Output(readQueue) && Ends(readQueue) && (readReachedEof ==> readQueue == [])
    }

    /** When the end of file is noted, everything was handed out. */
    ghost predicate Valid()
      reads this
    {
      Keeps(buf) && (readReachedEof ==> buf == []) && (flagEof ==> readReachedEof)
    }

    constructor (incoming: seq<Item>)
      requires Ends(incoming)
      ensures Valid() && Stream == Output(incoming) && Returned == [] && readQueue == incoming && !readReachedEof
    {
      readQueue, buf, readReachedEof, flagEof := incoming, [], false, false;
      Stream, Returned, Misses := Output(incoming), [], 0;
    }

    /** get() or get_nowait() of the queue; None when it raises Empty. */
    method TakeFromQueue() returns (item: Option<Item>)
      modifies this`readQueue, this`Misses
      ensures item.None? ==> readQueue == old(readQueue) && Misses == old(Misses) + 1
      ensures item.Some? ==> old(readQueue) == [item.value] + readQueue && Misses == old(Misses)
    {
      var early: bool := *;
      if readQueue == [] || early {
        Misses := Misses + 1;
        return None;
      }
      item := Some(readQueue[0]);
      readQueue := readQueue[1..];
    }

    /** read_nonblocking */
    method ReadNonblocking(size: int) returns (r: Reading)
      requires Valid()
      modifies this
      ensures Valid()
      ensures r.Bytes? ==> |r.s| <= Max(0, size) && Returned == old(Returned) + r.s && Returned <= Stream
      ensures !r.Bytes? ==> Returned == old(Returned)
      ensures r.EOF? ==> flagEof && Returned == Stream
      ensures old(readReachedEof) ==> r == EOF
      ensures r.TIMEOUT? ==>
                size > 0 && old(buf) == [] && readQueue == old(readQueue) && readReachedEof == old(readReachedEof) &&
                Misses > old(Misses)
      ensures size <= 0 && !old(readReachedEof) ==> r == Bytes([]) && readQueue == old(readQueue)
      ensures size > 0 && old(buf) != [] ==> r.Bytes? && r.s != []
    {
      if readReachedEof {
        flagEof := true;
        return EOF;
      }
      if size > 0 {
        r := ReadQueueAndBuf(size);
      } else {
        r := Bytes([]);
        assert Returned + [] == Returned;
      }
    }

    method ReadQueueAndBuf(size: nat) returns (r: Reading)
      requires Valid() && !readReachedEof && size > 0
      modifies this
      ensures Valid()
      ensures r.Bytes? ==> |r.s| <= size && Returned == old(Returned) + r.s && Returned <= Stream
      ensures !r.Bytes? ==> Returned == old(Returned)
      ensures r.EOF? ==> flagEof && Returned == Stream
      ensures r.TIMEOUT? ==>
                old(buf) == [] && readQueue == old(readQueue) && !readReachedEof && Misses > old(Misses)
      ensures old(buf) != [] ==> r.Bytes? && r.s != []
    {
      var b := ReadWithOrWithoutTimeout(size);
      if b.None? {
        return TIMEOUT;
      }
      var s := b.value[..Min(size, |b.value|)];
      buf := b.value[|s|..];
      if readReachedEof && s == [] {
        flagEof := true;
        return EOF;
      }
      assert b.value == s + buf;
      Assoc(Returned, s, buf);
      Assoc(Returned + s, buf, Output(readQueue));
      Returned := Returned + s;
      r := Bytes(s);
    }

    /** The buffer with what the queue adds to it; None when the timeout is exceeded. */
    method ReadWithOrWithoutTimeout(size: nat) returns (b: Option<seq<Byte>>)
      requires Valid() && !readReachedEof && size > 0
      modifies this`readQueue, this`readReachedEof, this`Misses
      ensures b.None? ==> buf == [] && readQueue == old(readQueue) && !readReachedEof && Misses > old(Misses)
      ensures b.Some? ==> Keeps(b.value) && buf <= b.value && (readReachedEof ==> |b.value| < size)
    {
      if buf == [] {
        b := ReadFromQueue(size);
      } else {
        var more := ReadFromQueueUntilEndOrSize(buf, size);
        b := Some(more);
      }
    }

    /** With an empty buffer: waits for the first item. */
    method ReadFromQueue(size: nat) returns (b: Option<seq<Byte>>)
      requires Keeps([]) && !readReachedEof && size > 0
      modifies this`readQueue, this`readReachedEof, this`Misses
      ensures b.None? ==> readQueue == old(readQueue) && !readReachedEof && Misses > old(Misses)
      ensures b.Some? ==> Keeps(b.value) && (readReachedEof ==> |b.value| < size)
    {
      var incoming := TakeFromQueue();
      if incoming.None? {
        return None;
      }
      Taken(old(readQueue), readQueue, incoming.value, []);
      if incoming.value.EndOfFile? {
        readReachedEof := true;
        return Some([]);
      }
      var more := ReadFromQueueUntilEndOrSize([] + incoming.value.bytes, size);
      b := Some(more);
    }

    /** Items are taken as long as the bytes are too few, the end of file is not
        among them, and the queue is not found empty. */
    method ReadFromQueueUntilEndOrSize(start: seq<Byte>, size: nat) returns (b: seq<Byte>)
      requires Keeps(start) && !readReachedEof
      modifies this`readQueue, this`readReachedEof, this`Misses
      ensures Keeps(b) && start <= b && (readReachedEof ==> |b| < size)
      ensures exists k :: Drained(old(readQueue), k, readQueue, start, b, size)
      ensures |b| < size && !readReachedEof ==> Misses > old(Misses)
    {
      b := start;
      ghost var k := 0;
      while |b| < size && !readReachedEof
        invariant Keeps(b) && start <= b && (readReachedEof ==> |b| < size)
        invariant Drained(old(readQueue), k, readQueue, start, b, size) && Misses >= old(Misses)
        decreases |readQueue|, !readReachedEof
      {
        ghost var before := readQueue;
        var incoming := TakeFromQueue();
        if incoming.None? {
          break;
        }
        Taken(before, readQueue, incoming.value, b);
        OneMoreTaken(old(readQueue), k, before, start, b, size, incoming.value, readQueue);
        k := k + 1;
        if incoming.value.EndOfFile? {
          readReachedEof := true;
          assert b + [] == b;
        } else {
          b := b + incoming.value.bytes;
        }
      }
    }

    lemma Taken(q: seq<Item>, rest: seq<Item>, i: Item, b: seq<Byte>)
      requires q == [i] + rest && Ends(q) && Stream == Returned + b + Output(q)
      ensures Ends(rest) && (i.EndOfFile? ==> rest == [])
      ensures Stream == Returned + (b + if i.Chunk? then i.bytes else []) + Output(rest)
    {
      assert q[1..] == rest && q[0] == i;
      forall j | 0 <= j < |rest| - 1
        ensures rest[j].Chunk?
      {
        assert rest[j] == q[j + 1];
      }
      var s := if i.Chunk? then i.bytes else [];
      Assoc(Returned + b, s, Output(rest));
      Assoc(Returned, b, s);
    }
  }
}
