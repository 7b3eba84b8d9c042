/** `chunk_out_stream`: gathers writes into chunks whose size the consumer may change on every chunk. */
module ChunkStream {
  import opened Common

  /** What `write_chunk` does to its own state, the next chunk size, and whether it succeeded. */
  datatype Outcome<!H> = Outcome(state: H, chunkSize: nat, ok: bool)

  /** `write_chunk` of a derived class: state, current chunk size, chunk, final flag. */
  datatype Consumer<!H> = Consumer(chunk: (H, nat, Bytes, bool) -> Outcome<H>)

  /** `Undefined`: bytes arrive while the wanted chunk is empty, or some cut of the input overruns the buffer. */
  datatype Flow<!H> =
    | Open(state: H, chunkSize: nat, buffered: Bytes)
    | Rejected
    | Undefined

  /** The stream as a function of all bytes so far. */
  function Drain<H>(c: Consumer<H>, cap: nat, state: H, size: nat, bytes: Bytes): Flow<H>
    decreases |bytes|
  {
    if bytes == [] then Open(state, size, [])
    else if size == 0 || (size > cap && |bytes| > cap) then Undefined
    else if |bytes| < size then Open(state, size, bytes)
    else
      var r := c.chunk(state, size, bytes[..size], false);
      if r.ok then Drain(c, cap, r.state, r.chunkSize, bytes[size..]) else Rejected
  }

  /** Bytes that complete a chunk the buffer can hold. */
  predicate FullChunk(cap: nat, size: nat, bytes: Bytes) { 0 < size <= cap && size <= |bytes| }

  /** The chunks handed over so far. */
  function Emitted<H>(c: Consumer<H>, cap: nat, state: H, size: nat, bytes: Bytes): seq<Bytes>
    decreases |bytes|
  {
    if !FullChunk(cap, size, bytes) then []
    else
      var r := c.chunk(state, size, bytes[..size], false);
      if r.ok then [bytes[..size]] + Emitted(c, cap, r.state, r.chunkSize, bytes[size..]) else [bytes[..size]]
  }

  /** One chunk, seen from both functions. */
  lemma OneChunk<H>(c: Consumer<H>, cap: nat, state: H, size: nat, bytes: Bytes)
    ensures FullChunk(cap, size, bytes) ==>
              var r := c.chunk(state, size, bytes[..size], false);
              if r.ok then
                && Drain(c, cap, state, size, bytes) == Drain(c, cap, r.state, r.chunkSize, bytes[size..])
                && Emitted(c, cap, state, size, bytes) == [bytes[..size]] + Emitted(c, cap, r.state, r.chunkSize, bytes[size..])
              else Drain(c, cap, state, size, bytes) == Rejected
    ensures !FullChunk(cap, size, bytes) ==>
              && Emitted(c, cap, state, size, bytes) == []
              && Drain(c, cap, state, size, bytes)
                 == if bytes == [] || (|bytes| < size && |bytes| <= cap) then Open(state, size, bytes) else Undefined
  {
  }

  lemma FlattenCons(first: Bytes, more: seq<Bytes>)
    ensures Flatten([first] + more) == first + Flatten(more)
  {
    assert ([first] + more)[1..] == more;
  }

  /** No byte is lost or repeated, however the chunk size changes on the way. */
  lemma {:induction false} NothingLost<H>(c: Consumer<H>, cap: nat, state: H, size: nat, bytes: Bytes)
    requires Drain(c, cap, state, size, bytes).Open?
    ensures Flatten(Emitted(c, cap, state, size, bytes)) + Drain(c, cap, state, size, bytes).buffered == bytes
    decreases |bytes|
  {
    hide Drain, Emitted, Flatten;
    OneChunk(c, cap, state, size, bytes);
    if !FullChunk(cap, size, bytes) {
      FlattenNone<Byte>();
      assert [] + bytes == bytes;
    } else {
      var first, rest := bytes[..size], bytes[size..];
      var r := c.chunk(state, size, first, false);
      var more := Emitted(c, cap, r.state, r.chunkSize, rest);
      NothingLost(c, cap, r.state, r.chunkSize, rest);
      FlattenCons(first, more);
      Associative(first, Flatten(more), Drain(c, cap, r.state, r.chunkSize, rest).buffered);
      assert bytes == first + rest;
    }
  }

  /** Where the input is cut makes no difference. */
  lemma {:induction false} DrainSplit<H>(c: Consumer<H>, cap: nat, state: H, size: nat, a: Bytes, b: Bytes)
    ensures var first := Drain(c, cap, state, size, a);
            Drain(c, cap, state, size, a + b) ==
              if first.Open? then Drain(c, cap, first.state, first.chunkSize, first.buffered + b) else first
    decreases |a|
  {
    hide Drain, Emitted;
    OneChunk(c, cap, state, size, a);
    OneChunk(c, cap, state, size, a + b);
    if !FullChunk(cap, size, a) {
      assert a == [] ==> a + b == b && [] + b == b;
    } else {
      var r := c.chunk(state, size, a[..size], false);
      assert (a + b)[..size] == a[..size] && (a + b)[size..] == a[size..] + b;
      if r.ok {
        DrainSplit(c, cap, r.state, r.chunkSize, a[size..], b);
      }
    }
  }

  /** The chunks handed over for more input come after those handed over before. */
  lemma {:induction false} EmittedSplit<H>(c: Consumer<H>, cap: nat, state: H, size: nat, a: Bytes, b: Bytes)
    requires Drain(c, cap, state, size, a).Open?
    ensures var first := Drain(c, cap, state, size, a);
            Emitted(c, cap, state, size, a + b)
            == Emitted(c, cap, state, size, a) + Emitted(c, cap, first.state, first.chunkSize, first.buffered + b)
    decreases |a|
  {
    hide Drain, Emitted;
    OneChunk(c, cap, state, size, a);
    OneChunk(c, cap, state, size, a + b);
    if !FullChunk(cap, size, a) {
      var all := Emitted(c, cap, state, size, a + b);
      assert [] + all == all && (a == [] ==> a + b == b && [] + b == b);
    } else {
      var r := c.chunk(state, size, a[..size], false);
      assert (a + b)[..size] == a[..size] && (a + b)[size..] == a[size..] + b;
      EmittedSplit(c, cap, r.state, r.chunkSize, a[size..], b);
      var rest := Drain(c, cap, r.state, r.chunkSize, a[size..]);
      Associative([a[..size]], Emitted(c, cap, r.state, r.chunkSize, a[size..]),
                  Emitted(c, cap, rest.state, rest.chunkSize, rest.buffered + b));
    }
  }

  /** Less than a chunk is ever left in the buffer, and no more than it holds. */
  lemma {:induction false} BufferedIsShort<H>(c: Consumer<H>, cap: nat, state: H, size: nat, bytes: Bytes)
    ensures var flow := Drain(c, cap, state, size, bytes);
            flow.Open? ==> flow.buffered == [] || (|flow.buffered| < flow.chunkSize && |flow.buffered| <= cap)
    decreases |bytes|
  {
    hide Drain, Emitted;
    OneChunk(c, cap, state, size, bytes);
    if !FullChunk(cap, size, bytes) {
    } else {
      var r := c.chunk(state, size, bytes[..size], false);
      if r.ok { BufferedIsShort(c, cap, r.state, r.chunkSize, bytes[size..]); }
    }
  }

  /** What `Undefined` stands for: written byte by byte, the stream comes to a point where the next byte has no chunk
      to go to, or the buffer is full and the chunk is not. */
  lemma {:induction false} UndefinedOverruns<H>(c: Consumer<H>, cap: nat, state: H, size: nat, bytes: Bytes)
    returns (k: nat)
    requires Drain(c, cap, state, size, bytes).Undefined?
    ensures k < |bytes|
    ensures var flow := Drain(c, cap, state, size, bytes[..k]);
            && flow.Open?
            && ((flow.chunkSize == 0 && flow.buffered == []) || (flow.chunkSize > cap && |flow.buffered| == cap))
    decreases |bytes|
  {
    hide Drain, Emitted;
    OneChunk(c, cap, state, size, bytes);
    if !FullChunk(cap, size, bytes) {
      k := if size == 0 then 0 else cap;
      OneChunk(c, cap, state, size, bytes[..k]);
    } else {
      var r := c.chunk(state, size, bytes[..size], false);
      var rest := UndefinedOverruns(c, cap, r.state, r.chunkSize, bytes[size..]);
      k := size + rest;
      assert bytes[..k][..size] == bytes[..size] && bytes[..k][size..] == bytes[size..][..rest];
      OneChunk(c, cap, state, size, bytes[..k]);
    }
  }

  class ChunkOutStream<H> {
    const consumer: Consumer<H>
    const data: array<Byte>   // the internal buffer
    var state: H              // fields of the derived class
    var chunkSize: nat
    var bufOff: nat
    ghost const start: Flow<H>
    ghost var total: Bytes    // everything written so far
    ghost var chunks: seq<Bytes>  // every chunk handed over

    ghost predicate Valid()
      reads this, data
    {
      && bufOff <= data.Length && start.Open? && start.buffered == []
      && Drain(consumer, data.Length, start.state, start.chunkSize, total) == Open(state, chunkSize, data[..bufOff])
      && Emitted(consumer, data.Length, start.state, start.chunkSize, total) == chunks
    }

    /** The chunks handed over and the bytes in the buffer are everything written. */
    lemma AllAccounted()
      requires Valid()
      ensures Flatten(chunks) + data[..bufOff] == total
    {
      NothingLost(consumer, data.Length, start.state, start.chunkSize, total);
    }

    constructor (consumer: Consumer<H>, state: H, bufSize: nat, chunkSize: nat)
      ensures Valid() && fresh(data) && total == []
      ensures this.consumer == consumer && data.Length == bufSize && start == Open(state, chunkSize, [])
    {
      this.consumer, this.state, this.chunkSize, bufOff := consumer, state, chunkSize, 0;
      data := new Byte[bufSize](_ => 0);
      start, total, chunks := Open(state, chunkSize, []), [], [];
    }

    /** The whole stream after writing more. */
    ghost function After(input: Bytes): Flow<H>
      reads this, data
      requires Valid()
    {
      Drain(consumer, data.Length, start.state, start.chunkSize, total + input)
    }

    /** Copies bytes behind what is buffered. */
    method Buffer(input: Bytes)
      requires bufOff + |input| <= data.Length
      modifies this`bufOff, data
      ensures bufOff == old(bufOff) + |input|
      ensures data[..bufOff] == old(data[..bufOff]) + input
    {
      var i := 0;
      while i < |input|
        invariant 0 <= i <= |input|
        invariant bufOff == old(bufOff)
        invariant data[..bufOff + i] == old(data[..bufOff]) + input[..i]
      {
        data[bufOff + i] := input[i];
        assert data[..bufOff + i + 1] == data[..bufOff + i] + [input[i]];
        i := i + 1;
      }
      bufOff := bufOff + |input|;
      assert input[..|input|] == input;
    }

    /** The next full chunk: what is buffered and what is missing to it, or all of it from the input. */
    method NextChunk(input: Bytes) returns (chunk: Bytes, rest: Bytes)
      requires bufOff <= data.Length && chunkSize <= bufOff + |input|
      requires bufOff == 0 || bufOff < chunkSize <= data.Length
      modifies this`bufOff, data
      ensures bufOff == 0
      ensures chunk == (old(data[..bufOff]) + input)[..chunkSize] && rest == (old(data[..bufOff]) + input)[chunkSize..]
    {
      ghost var pending := data[..bufOff] + input;
      if bufOff != 0 {
        var copy := chunkSize - bufOff;
        assert pending[chunkSize..] == input[copy..];
        assert pending[..chunkSize] == data[..bufOff] + input[..copy];
        Buffer(input[..copy]);
        chunk, rest := data[..chunkSize], input[copy..];
        bufOff := 0;
      } else {
        assert pending == input;
        chunk, rest := input[..chunkSize], input[chunkSize..];
      }
    }

    /** `write`. What the source leaves undefined is the caller's to avoid. */
    method Write(input: Bytes) returns (ok: bool)
      requires Valid() && !After(input).Undefined?
      modifies this, data
      ensures ok <==> old(After(input)).Open?
      ensures ok ==> Valid() && total == old(total) + input && Flatten(chunks) + data[..bufOff] == total
    {
      hide Drain, Emitted, Flatten;
      ghost var goal := After(input);
      ghost var cap := data.Length;
      ghost var every := Emitted(consumer, cap, start.state, start.chunkSize, total + input);
      DrainSplit(consumer, cap, start.state, start.chunkSize, total, input);
      EmittedSplit(consumer, cap, start.state, start.chunkSize, total, input);
      BufferedIsShort(consumer, cap, start.state, start.chunkSize, total);
      var rest := input;
      while rest != []
        invariant bufOff <= data.Length && total == old(total)
        invariant bufOff == 0 || bufOff < chunkSize
        invariant goal == Drain(consumer, cap, state, chunkSize, data[..bufOff] + rest)
        invariant goal.Open? ==> every == chunks + Emitted(consumer, cap, state, chunkSize, data[..bufOff] + rest)
        decreases |rest|
      {
        ghost var pending := data[..bufOff] + rest;
        OneChunk(consumer, cap, state, chunkSize, pending);
        if bufOff + |rest| >= chunkSize {
          var chunk;
          chunk, rest := NextChunk(rest);
          var r := consumer.chunk(state, chunkSize, chunk, false);
          ghost var more := Emitted(consumer, cap, r.state, r.chunkSize, rest);
          Associative(chunks, [chunk], more);
          state, chunkSize, chunks := r.state, r.chunkSize, chunks + [chunk];
          if !r.ok {
            return false;
          }
          assert data[..bufOff] + rest == rest;
        } else {
          Buffer(rest);
          rest := [];
          assert data[..bufOff] + rest == pending;
        }
      }
      OneChunk(consumer, cap, state, chunkSize, data[..bufOff]);
      assert data[..bufOff] + rest == data[..bufOff] && chunks + [] == chunks;
      total := total + input;
      ok := true;
      AllAccounted();
    }

    /** `finalize`: what is still buffered becomes one last, short chunk. */
    method Finalize() returns (ok: bool)
      requires Valid()
      modifies this
      ensures var done := Finish(consumer, Open(old(state), old(chunkSize), old(data[..bufOff])));
              state == done.0 && ok == done.1
      ensures bufOff == 0
    {
      ok := true;
      if bufOff != 0 {
        var r := consumer.chunk(state, chunkSize, data[..bufOff], true);
        state, chunkSize, ok := r.state, r.chunkSize, r.ok;
        bufOff := 0;
      }
    }
  }

  function Finish<H>(c: Consumer<H>, flow: Flow<H>): (H, bool)
    requires flow.Open?
  {
    if flow.buffered == [] then (flow.state, true)
    else
      var r := c.chunk(flow.state, flow.chunkSize, flow.buffered, true);
      (r.state, r.ok)
  }

  /** A whole stream, cut into writes anywhere, then finalized. */
  method RunStream<H>(c: Consumer<H>, state: H, bufSize: nat, chunkSize: nat, writes: seq<Bytes>)
    returns (last: H, ok: bool)
    requires !Drain(c, bufSize, state, chunkSize, Flatten(writes)).Undefined?
    ensures var flow := Drain(c, bufSize, state, chunkSize, Flatten(writes));
            if flow.Open? then (last, ok) == Finish(c, flow) else !ok
  {
    var strm := new ChunkOutStream(c, state, bufSize, chunkSize);
    for i := 0 to |writes|
      invariant strm.Valid() && fresh(strm) && fresh(strm.data)
      invariant strm.consumer == c && strm.data.Length == bufSize && strm.start == Open(state, chunkSize, [])
      invariant strm.total == Flatten(writes[..i])
    {
      assert writes[..i + 1] == writes[..i] + [writes[i]];
      FlattenAppend(writes[..i], writes[i]);
      assert writes == writes[..i + 1] + writes[i + 1..];
      FlattenConcat(writes[..i + 1], writes[i + 1..]);
      DrainSplit(c, bufSize, state, chunkSize, Flatten(writes[..i + 1]), Flatten(writes[i + 1..]));
      ok := strm.Write(writes[i]);
      if !ok { last := strm.state; return; }
    }
    assert writes[..|writes|] == writes;
    ok := strm.Finalize();
    last := strm.state;
  }
}
