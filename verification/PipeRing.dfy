/** kernel/pipe.c: a ring buffer of 4096 characters (PIPE_SIZE), as a bounded queue. */
module PipeRing {

  // ------------------------------------------------------ the queue it stands for

  function Min(a: int, b: int): int { if a < b then a else b }

  /** How many of n requested characters there are; none if n is negative. */
  function Grant(n: int, available: nat): (r: nat)
    ensures r <= available
  {
    if n <= 0 then 0 else Min(n, available)
  }

  datatype Op = Read(n: int) | Write(data: string)

  /** A queue together with everything it has taken in and given out. */
  datatype Queue = Queue(items: string, accepted: string, delivered: string)

  function Step(q: Queue, op: Op): Queue {
    match op
    case Read(n) =>
      var k := Grant(n, |q.items|);
      Queue(q.items[k..], q.accepted, q.delivered + q.items[..k])
    case Write(data) =>
      var k := Grant(|data|, if |q.items| <= 4096 then 4096 - |q.items| else 0);
      Queue(q.items + data[..k], q.accepted + data[..k], q.delivered)
  }

  function Run(q: Queue, ops: seq<Op>): Queue
    decreases |ops|
  {
    if ops == [] then q else Run(Step(q, ops[0]), ops[1..])
  }

  /** Whatever readers and writers do, what has been read so far is a prefix of
      what has been accepted, and the queue holds exactly the rest. */
  lemma {:induction false} RunIsFifo(q: Queue, ops: seq<Op>)
    requires |q.items| <= 4096 && q.accepted == q.delivered + q.items
    ensures Run(q, ops).accepted == Run(q, ops).delivered + Run(q, ops).items
    ensures |Run(q, ops).items| <= 4096
    ensures q.accepted <= Run(q, ops).accepted && q.delivered <= Run(q, ops).delivered
    decreases |ops|
  {
    if ops != [] {
      var q' := Step(q, ops[0]);
      assert q'.accepted == q'.delivered + q'.items;
      RunIsFifo(q', ops[1..]);
    }
  }

  /** A run is one call after the other. */
  lemma {:induction false} RunAppend(q: Queue, ops: seq<Op>, op: Op)
    ensures Run(q, ops + [op]) == Step(Run(q, ops), op)
    decreases |ops|
  {
    if ops == [] {
      assert (ops + [op])[1..] == [];
    } else {
      assert (ops + [op])[1..] == ops[1..] + [op];
      RunAppend(Step(q, ops[0]), ops[1..], op);
    }
  }

  /** A call moves fewer characters than asked for only if it stops at an empty or
      a full queue. */
  lemma StepIsMaximal(q: Queue, op: Op)
    requires |q.items| <= 4096
    ensures op.Read? ==>
              var moved := |Step(q, op).delivered| - |q.delivered|;
              moved == op.n || (op.n <= 0 && moved == 0) || (moved < op.n && Step(q, op).items == [])
    ensures op.Write? ==>
              var moved := |Step(q, op).accepted| - |q.accepted|;
              moved == |op.data| || (moved < |op.data| && |Step(q, op).items| == 4096)
  {
  }

  // --------------------------------------------------------------- the ring

  /** The count characters from index `reader` on, around the end of the buffer. */
  function Ring(buffer: seq<char>, reader: nat, count: nat): (r: string)
    requires |buffer| == 4096
    ensures |r| == count
  {
    seq(count, k requires 0 <= k => buffer[(reader + k) % 4096])
  }

  function Held(reader: nat, writer: nat, full: bool): nat {
    if full then 4096 else (writer + 4096 - reader % 4096) % 4096
  }

  lemma RingTail(buffer: seq<char>, reader: nat, count: nat)
    requires |buffer| == 4096 && reader < 4096 && 0 < count
    ensures Ring(buffer, (reader + 1) % 4096, count - 1) == Ring(buffer, reader, count)[1..]
    ensures Ring(buffer, reader, count)[0] == buffer[reader]
  {
    var tail := Ring(buffer, (reader + 1) % 4096, count - 1);
    forall k | 0 <= k < count - 1 ensures tail[k] == Ring(buffer, reader, count)[1..][k] {
      Around(reader, k);
    }
  }

  lemma Around(reader: nat, k: nat)
    requires reader < 4096
    ensures ((reader + 1) % 4096 + k) % 4096 == (reader + (k + 1)) % 4096
  {
  }

  lemma RingAppend(buffer: seq<char>, reader: nat, count: nat, writer: nat, c: char)
    requires |buffer| == 4096 && reader < 4096 && count < 4096 && writer == (reader + count) % 4096
    ensures Ring(buffer[writer := c], reader, count + 1) == Ring(buffer, reader, count) + [c]
  {
    var ring := Ring(buffer[writer := c], reader, count + 1);
    forall k | 0 <= k < count + 1 ensures ring[k] == (Ring(buffer, reader, count) + [c])[k] {
      assert k < count ==> (reader + k) % 4096 != writer;
    }
  }

  lemma HeldLess(reader: nat, writer: nat, full: bool)
    requires reader < 4096 && writer < 4096 && (full ==> reader == writer) && Held(reader, writer, full) > 0
    ensures Held((reader + 1) % 4096, writer, false) == Held(reader, writer, full) - 1
  {
    if full {
    } else if reader < writer {
      assert Held(reader, writer, full) == writer - reader;
    } else {
      assert Held(reader, writer, full) == writer + 4096 - reader;
    }
  }

  class Pipe {
    var buffer: array<char>
    var reader: nat
    var writer: nat
    var full: bool

    ghost predicate Valid()
      reads this
    {
      buffer.Length == 4096 && reader < 4096 && writer < 4096 && (full ==> reader == writer)
    }

    ghost function Contents(): (s: string)
      reads this, buffer
      requires Valid()
    {
      Ring(buffer[..], reader, Held(reader, writer, full))
    }

    /** pipe_reset, on a newly allocated pipe. */
    constructor ()
      ensures Valid() && fresh(buffer) && Contents() == ""
    {
      buffer := new char[4096];
      reader, writer, full := 0, 0, false;
    }

    predicate CanRead()
      reads this, buffer
      requires Valid()
      ensures CanRead() <==> Contents() != ""
    {
      full || writer != reader
    }

    /** One turn of the loop of pipe_read. */
    method Take() returns (c: char)
      requires Valid() && Contents() != ""
      modifies this`reader, this`full
      ensures Valid() && Contents() == old(Contents())[1..] && c == old(Contents())[0]
    {
      hide Ring, Held;
      RingTail(buffer[..], reader, |Contents()|);
      HeldLess(reader, writer, full);
      c := buffer[reader];
      reader := (reader + 1) % 4096;
      full := false;
    }

    /** One turn of the loop of pipe_write. */
    method Put(c: char)
      requires Valid() && !full
      modifies this`writer, this`full, buffer
      ensures Valid() && Contents() == old(Contents()) + [c]
      ensures full <==> |Contents()| == 4096
    {
      RingAppend(buffer[..], reader, |Contents()|, writer, c);
      buffer[writer] := c;
      writer := (writer + 1) % 4096;
      full := writer == reader;
    }

    /** pipe_read: up to nchars characters from the front of the queue. */
    method Read(out: array<char>, nchars: int) returns (i: nat)
      requires Valid() && out != buffer && nchars <= out.Length
      modifies this`reader, this`full, out
      ensures Valid() && i == Grant(nchars, |old(Contents())|)
      ensures Contents() == old(Contents())[i..]
      ensures out[..i] == old(Contents())[..i] && out[i..] == old(out[i..])
      ensures Step(Queue(old(Contents()), "", ""), Op.Read(nchars)) == Queue(Contents(), "", out[..i])
    {
      hide Ring, Held;
      i := 0;
      ghost var s := Contents();
      while i < nchars && CanRead()
        invariant Valid() && i <= |s| && (0 <= nchars ==> i <= nchars) && (nchars < 0 ==> i == 0)
        invariant Contents() == s[i..]
        invariant i <= out.Length && out[..i] == s[..i] && out[i..] == old(out[..])[i..]
        decreases |s| - i
      {
        var c := Take();
        out[i] := c;
        i := i + 1;
      }
    }

    /** pipe_write: as many of the first nchars characters as there is room for. */
    method Write(data: seq<char>, nchars: int) returns (i: nat)
      requires Valid() && nchars <= |data|
      modifies this`writer, this`full, buffer
      ensures Valid() && i == Grant(nchars, 4096 - |old(Contents())|)
      ensures Contents() == old(Contents()) + data[..i]
      ensures Step(Queue(old(Contents()), "", ""), Op.Write(if nchars < 0 then "" else data[..nchars]))
           == Queue(Contents(), data[..i], "")
    {
      hide Ring;
      i := 0;
      ghost var s := Contents();
      while i < nchars && !full
        invariant Valid() && |s| + i <= 4096 && (0 <= nchars ==> i <= nchars) && (nchars < 0 ==> i == 0)
        invariant Contents() == s + data[..i]
        invariant full <==> |s| + i == 4096
        decreases 4096 - |s| - i
      {
        Put(data[i]);
        i := i + 1;
      }
    }
  }
}
