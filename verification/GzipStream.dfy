/** The multi-member gzip decoder: its state machine, and the stream it decodes. */
module GzipStream {
  import opened Common

  const CHUNK := 0x40000
  const ID1: Byte := 0x1f
  const ID2: Byte := 0x8b

  datatype Phase = Running | Ended | Failed

  /** One zlib inflate stream, as a machine that takes a byte at a time. */
  datatype Inflater<!S> = Inflater(init: S, phase: S -> Phase, step: (S, Byte) -> (S, Bytes)) {
    /** The first byte of a gzip header produces nothing and does not end the stream. */
    ghost predicate Valid() {
      && phase(init).Running?
      && phase(step(init, ID1).0).Running?
      && step(init, ID1).1 == []
    }
  }

  /** Where the machine is after as much of the input as it takes. */
  datatype Inflation<!S> = Inflation(state: S, output: Bytes, used: nat)

  ghost function Inflated<S>(z: Inflater<S>, s: S, input: Bytes): (r: Inflation<S>)
    ensures r.used <= |input|
    ensures z.phase(r.state).Running? ==> r.used == |input|
    ensures z.phase(s).Running? && input != [] ==> r.used > 0
    decreases |input|
  {
    if input == [] || !z.phase(s).Running? then Inflation(s, [], 0)
    else
      var (next, out) := z.step(s, input[0]);
      var r := Inflated(z, next, input[1..]);
      Inflation(r.state, out + r.output, r.used + 1)
  }

  datatype Mode<!S> = Decoding(state: S) | Waiting | Copying

  datatype Fed<!S> = Fed(mode: Mode<S>, output: Bytes)

  predicate StartsMember(bytes: Bytes) {
    |bytes| > 1 && bytes[0] == ID1 && bytes[1] == ID2
  }

  /** The gzip file format: a member, then further members, then bytes that start no member. */
  ghost function Decode<S>(z: Inflater<S>, s: S, input: Bytes): Fed<S>
    requires z.Valid()
    decreases 2 * |input| + if z.phase(s).Ended? then 1 else 0
  {
    var r := Inflated(z, s, input);
    var rest := input[r.used..];
    if !z.phase(r.state).Ended? || rest == [] then Fed(Decoding(r.state), r.output)
    else if rest == [ID1] then Fed(Waiting, r.output)
    else if StartsMember(rest) then
      var d := Decode(z, z.init, rest);
      Fed(d.mode, r.output + d.output)
    else Fed(Copying, r.output)
  }

  /** What one more piece of input does in each mode. */
  ghost function Feed<S>(z: Inflater<S>, mode: Mode<S>, input: Bytes): Fed<S>
    requires z.Valid()
  {
    match mode
    case Decoding(s) => Decode(z, s, input)
    case Copying => Fed(Copying, [])
    case Waiting =>
      if input == [] then Fed(Waiting, [])
      else if input[0] == ID2 then Decode(z, z.step(z.init, ID1).0, input)
      else Fed(Copying, [])
  }

  lemma {:induction false} InflatedSplit<S>(z: Inflater<S>, s: S, a: Bytes, b: Bytes)
    ensures var ra := Inflated(z, s, a);
            var rb := Inflated(z, ra.state, b);
            if z.phase(ra.state).Running?
            then Inflated(z, s, a + b) == Inflation(rb.state, ra.output + rb.output, |a| + rb.used)
            else Inflated(z, s, a + b) == ra
    decreases |a|
  {
    if a == [] {
      assert a + b == b;
    } else if z.phase(s).Running? {
      var (next, out) := z.step(s, a[0]);
      InflatedSplit(z, next, a[1..], b);
      assert (a + b)[1..] == a[1..] + b;
      var ra := Inflated(z, next, a[1..]);
      var rb := Inflated(z, ra.state, b);
      assert out + (ra.output + rb.output) == (out + ra.output) + rb.output;
    }
  }

  /** A machine that has ended, or failed, takes nothing more. */
  lemma InflatedAtRest<S>(z: Inflater<S>, s: S, input: Bytes)
    requires !z.phase(s).Running?
    ensures Inflated(z, s, input) == Inflation(s, [], 0)
  {
  }

  /** Feeding the first header byte by itself, as the decoder does after waiting for the second. */
  lemma DecodeAfterId1<S>(z: Inflater<S>, input: Bytes)
    requires z.Valid()
    ensures Decode(z, z.init, [ID1] + input) == Decode(z, z.step(z.init, ID1).0, input)
  {
    var whole := [ID1] + input;
    assert whole[1..] == input;
    var r := Inflated(z, z.step(z.init, ID1).0, input);
    assert Inflated(z, z.init, whole) == Inflation(r.state, [] + r.output, r.used + 1);
    assert [] + r.output == r.output;
    assert whole[r.used + 1..] == input[r.used..];
  }

  /** Two starting points with the same machine state and the same bytes left differ only in the
      output already produced. */
  lemma DecodeConcat<S>(z: Inflater<S>, s: S, t: S, whole: Bytes, tail: Bytes, before: Bytes)
    requires z.Valid()
    requires var r, u := Inflated(z, s, whole), Inflated(z, t, tail);
             r.state == u.state && r.output == before + u.output && whole[r.used..] == tail[u.used..]
    ensures Decode(z, s, whole) == Fed(Decode(z, t, tail).mode, before + Decode(z, t, tail).output)
  {
    hide Inflated, Decode;
    var u := Inflated(z, t, tail);
    DecodeResumes(z, s, whole);
    DecodeResumes(z, t, tail);
    Associative(before, u.output, Resume(z, u.state, tail[u.used..]).output);
    hide Resume;
  }

  /** Decoding after the machine has ended, with these bytes left over. */
  ghost function Resume<S>(z: Inflater<S>, ended: S, rest: Bytes): Fed<S>
    requires z.Valid()
  {
    if rest == [] then Fed(Decoding(ended), [])
    else if rest == [ID1] then Fed(Waiting, [])
    else if StartsMember(rest) then Decode(z, z.init, rest)
    else Fed(Copying, [])
  }

  lemma DecodeResumes<S>(z: Inflater<S>, s: S, input: Bytes)
    requires z.Valid()
    ensures var r := Inflated(z, s, input);
            if z.phase(r.state).Ended? then
              var d := Resume(z, r.state, input[r.used..]);
              Decode(z, s, input) == Fed(d.mode, r.output + d.output)
            else Decode(z, s, input) == Fed(Decoding(r.state), r.output)
  {
    var r := Inflated(z, s, input);
    assert r.output + [] == r.output;
  }

  lemma SplitRunning<S>(z: Inflater<S>, s: S, a: Bytes, b: Bytes)
    requires z.Valid() && z.phase(Inflated(z, s, a).state).Running?
    ensures var ra := Inflated(z, s, a);
            var second := Decode(z, ra.state, b);
            && Decode(z, s, a) == Fed(Decoding(ra.state), ra.output)
            && Decode(z, s, a + b) == Fed(second.mode, ra.output + second.output)
  {
    hide Inflated;
    DecodeResumes(z, s, a);
    hide Decode;
    var ra := Inflated(z, s, a);
    var rb := Inflated(z, ra.state, b);
    InflatedSplit(z, s, a, b);
    assert (a + b)[|a| + rb.used..] == b[rb.used..];
    DecodeConcat(z, s, ra.state, a + b, b, ra.output);
  }

  lemma SplitFailed<S>(z: Inflater<S>, s: S, a: Bytes, b: Bytes)
    requires z.Valid() && z.phase(Inflated(z, s, a).state).Failed?
    ensures var ra := Inflated(z, s, a);
            && Decode(z, s, a) == Decode(z, s, a + b) == Fed(Decoding(ra.state), ra.output)
            && Decode(z, ra.state, b) == Fed(Decoding(ra.state), [])
  {
    hide Inflated;
    InflatedSplit(z, s, a, b);
    InflatedAtRest(z, Inflated(z, s, a).state, b);
  }

  /** Decoding does not depend on where the input is cut. */
  lemma {:induction false} DecodeSplit<S>(z: Inflater<S>, s: S, a: Bytes, b: Bytes)
    requires z.Valid()
    ensures var first := Decode(z, s, a);
            var second := Feed(z, first.mode, b);
            Decode(z, s, a + b) == Fed(second.mode, first.output + second.output)
    decreases 2 * |a| + (if z.phase(s).Ended? then 1 else 0), 1
  {
    hide Decode, Resume, Inflated;
    var ra := Inflated(z, s, a);
    if z.phase(ra.state).Running? {
      SplitRunning(z, s, a, b);
    } else if z.phase(ra.state).Failed? {
      SplitFailed(z, s, a, b);
      assert ra.output + [] == ra.output;
    } else {
      InflatedSplit(z, s, a, b);
      var rest := a[ra.used..];
      assert (a + b)[ra.used..] == rest + b;
      DecodeResumes(z, s, a);
      DecodeResumes(z, s, a + b);
      ResumeSplit(z, s, ra.state, a, b);
      var first := Resume(z, ra.state, rest);
      var second := Feed(z, first.mode, b);
      hide Feed;
      Associative(ra.output, first.output, second.output);
    }
  }

  lemma {:induction false} ResumeSplit<S>(z: Inflater<S>, s: S, ended: S, a: Bytes, b: Bytes)
    requires z.Valid() && z.phase(ended).Ended? && Inflated(z, s, a).state == ended
    ensures var rest := a[Inflated(z, s, a).used..];
            var first := Resume(z, ended, rest);
            var second := Feed(z, first.mode, b);
            Resume(z, ended, rest + b) == Fed(second.mode, first.output + second.output)
    decreases 2 * |a| + (if z.phase(s).Ended? then 1 else 0), 0
  {
    hide Inflated, Decode;
    var rest := a[Inflated(z, s, a).used..];
    if rest == [] {
      assert rest + b == b;
      InflatedAtRest(z, ended, b);
      DecodeResumes(z, ended, b);
      assert b[0..] == b;
      assert [] + Resume(z, ended, b).output == Resume(z, ended, b).output;
    } else if rest == [ID1] {
      assert rest + b == [ID1] + b;
      if b != [] && b[0] == ID2 {
        DecodeAfterId1(z, b);
        assert [] + Decode(z, z.init, rest + b).output == Decode(z, z.init, rest + b).output;
      }
    } else if StartsMember(rest) {
      if !z.phase(s).Running? { InflatedAtRest(z, s, a); }
      DecodeSplit(z, z.init, rest, b);
    }
  }

  lemma FeedSplit<S>(z: Inflater<S>, mode: Mode<S>, a: Bytes, b: Bytes)
    requires z.Valid()
    ensures var first := Feed(z, mode, a);
            var second := Feed(z, first.mode, b);
            Feed(z, mode, a + b) == Fed(second.mode, first.output + second.output)
  {
    if a == [] {
      FeedNothing(z, mode);
      assert a + b == b;
    } else {
      match mode
      case Decoding(s) => DecodeSplit(z, s, a, b);
      case Copying =>
      case Waiting =>
        if a[0] == ID2 { DecodeSplit(z, z.step(z.init, ID1).0, a, b); }
    }
  }

  lemma FeedNothing<S>(z: Inflater<S>, mode: Mode<S>)
    requires z.Valid()
    ensures Feed(z, mode, []) == Fed(mode, [])
  {
  }

  // ----- what the decoded bytes are -----

  /** The machine, started fresh, ends exactly at the end of these bytes, with this output. */
  ghost predicate IsMember<S>(z: Inflater<S>, bytes: Bytes, content: Bytes) {
    var r := Inflated(z, z.init, bytes);
    z.phase(r.state).Ended? && r.used == |bytes| && r.output == content
  }

  /** Every member's content comes out, in order, and bytes that start no member are ignored. */
  lemma {:induction false} DecodesAllMembers<S>(z: Inflater<S>, members: seq<Bytes>, contents: seq<Bytes>, junk: Bytes)
    requires z.Valid()
    requires |members| == |contents| > 0
    requires forall i | 0 <= i < |members| :: IsMember(z, members[i], contents[i])
    requires forall i | 0 < i < |members| :: StartsMember(members[i])
    requires !StartsMember(junk)
    ensures Decode(z, z.init, Flatten(members) + junk).output == Flatten(contents)
    decreases |members|
  {
    hide Decode, Inflated;
    var rest := Flatten(members[1..]) + junk;
    var first := Inflated(z, z.init, members[0]);
    var whole := Flatten(members) + junk;
    assert whole == members[0] + rest by { Associative(members[0], Flatten(members[1..]), junk); }
    assert IsMember(z, members[0], contents[0]);
    InflatedSplit(z, z.init, members[0], rest);
    assert whole[first.used..] == rest;
    DecodeResumes(z, z.init, whole);
    if |members| == 1 {
      assert rest == junk;
      assert Flatten(contents) == contents[0] + [];
    } else {
      assert StartsMember(rest) by {
        assert StartsMember(members[1]);
        assert Flatten(members[1..]) == members[1] + Flatten(members[1..][1..]);
      }
      DecodesAllMembers(z, members[1..], contents[1..], junk);
    }
  }

  // ----- the stream class -----

  datatype GzMode = DECODE | WAIT | COPY

  datatype Code = Z_OK | Z_STREAM_END | Z_DATA_ERROR

  /** `gz_strm` in its decoding use, writing to a base stream that accepts everything. */
  class GzDecoder<S> {
    const z: Inflater<S>
    var mode: GzMode
    var state: S          // the inflate state inside the z_stream
    var pending: Bytes    // output the inflate state still holds back
    var sink: Bytes       // everything written to the base stream
    ghost var fed: Bytes  // everything written to this stream

    ghost function AbstractMode(): Mode<S>
      reads this
    {
      match mode
      case DECODE => Decoding(state)
      case WAIT => Waiting
      case COPY => Copying
    }

    /** Whatever the writes were so far, the output is that of all their bytes at once. */
    ghost predicate Valid()
      reads this
    {
      z.Valid() && pending == [] && Feed(z, Decoding(z.init), fed) == Fed(AbstractMode(), sink)
    }

    constructor (z: Inflater<S>)
      requires z.Valid()
      ensures Valid() && fed == [] && sink == [] && this.z == z
    {
      this.z, mode, state := z, DECODE, z.init;
      pending, sink, fed := [], [], [];
      new;
      FeedNothing(z, Decoding(z.init));
    }

    /** `inflate` with `cap` bytes of output space: stops when the space, or the input, is used up
        or the stream is at its end. */
    method Inflate(input: Bytes, cap: nat) returns (taken: nat, out: Bytes, code: Code)
      modifies this`state, this`pending
      ensures taken <= |input|
      ensures var before, after := Inflated(z, old(state), input), Inflated(z, state, input[taken..]);
              && after.state == before.state && taken + after.used == before.used
              && out + pending + after.output == old(pending) + before.output
      ensures |out| <= cap
      ensures |out| < cap ==> pending == [] && (z.phase(state).Running? ==> taken == |input|)
      ensures code.Z_STREAM_END? <==> z.phase(state).Ended? && pending == []
      ensures taken == 0 ==> state == old(state)
    {
      taken, out := 0, [];
      ghost var r0 := Inflated(z, state, input);
      while |out| < cap && (pending != [] || (z.phase(state).Running? && taken < |input|))
        invariant taken <= |input|
        invariant var r := Inflated(z, state, input[taken..]);
                  && r.state == r0.state && taken + r.used == r0.used
                  && out + pending + r.output == old(pending) + r0.output
        invariant |out| <= cap
        invariant taken == 0 ==> state == old(state)
        decreases |input| - taken, |pending|
      {
        if pending != [] {
          assert out + pending == (out + [pending[0]]) + pending[1..];
          out, pending := out + [pending[0]], pending[1..];
        } else {
          InflatedStep(z, state, input, taken);
          var (next, produced) := z.step(state, input[taken]);
          assert out + [] == out;
          Associative(out, produced, Inflated(z, next, input[taken + 1..]).output);
          state, pending, taken := next, produced, taken + 1;
        }
      }
      code := if z.phase(state).Ended? && pending == [] then Z_STREAM_END
              else if z.phase(state).Failed? then Z_DATA_ERROR else Z_OK;
    }

    /** `write`: any bytes, cut anywhere. */
    method Write(buf: Bytes)
      requires Valid()
      modifies this
      ensures Valid() && fed == old(fed) + buf
    {
      if buf == [] {
        assert fed + buf == fed;
        return;
      }
      ghost var goal := Feed(z, AbstractMode(), buf);
      FeedSplit(z, Decoding(z.init), fed, buf);
      ghost var before := sink;
      fed := fed + buf;
      if mode == WAIT {
        if buf[0] != ID2 {
          mode := COPY;
          assert sink + [] == sink;
          return;
        }
        mode := DECODE;
        state := z.step(z.init, ID1).0;
      }
      if mode == COPY {
        assert sink + [] == sink;
        return;
      }
      DecodeLoop(buf);
      assert Fed(AbstractMode(), sink) == Fed(goal.mode, before + goal.output);
    }

    /** The loop of `do_write` in decoding mode. */
    method DecodeLoop(buf: Bytes)
      requires z.Valid() && mode == DECODE && pending == []
      modifies this`mode, this`state, this`pending, this`sink
      ensures pending == []
      ensures var goal := Decode(z, old(state), buf);
              AbstractMode() == goal.mode && sink == old(sink) + goal.output
    {
      hide Decode, Inflated;
      ghost var goal := Decode(z, state, buf);
      var input := buf;
      while true
        invariant mode == DECODE
        invariant goal.mode == Decode(z, state, input).mode
        invariant old(sink) + goal.output == sink + pending + Decode(z, state, input).output
        decreases 2 * |input| + (if z.phase(state).Ended? then 1 else 0), |pending + Inflated(z, state, input).output|
      {
        ghost var s0, p0, i0, k0 := state, pending, input, sink;
        var taken, out, code := Inflate(input, CHUNK);
        input, sink := input[taken..], sink + out;
        DecodeAdvance(z, s0, i0, state, taken, p0, out, pending);
        Deliver(k0, p0, Decode(z, s0, i0).output, out, pending, Decode(z, state, input).output);
        if code == Z_STREAM_END {
          DecodeAtEnd(z, state, input);
          if |input| > 1 {
            if input[0] == ID1 && input[1] == ID2 {
              state := z.init;
              continue;
            }
          } else if |input| == 1 {
            if input[0] == ID1 {
              mode := WAIT;
              return;
            }
          } else {
            return;
          }
          mode := COPY;
          return;
        }
        if |out| < CHUNK {
          DecodeStops(z, state, input);
          return;
        }
      }
    }
  }

  lemma InflatedStep<S>(z: Inflater<S>, s: S, input: Bytes, k: nat)
    requires z.phase(s).Running? && k < |input|
    ensures var (next, out) := z.step(s, input[k]);
            var r := Inflated(z, next, input[k + 1..]);
            Inflated(z, s, input[k..]) == Inflation(r.state, out + r.output, r.used + 1)
  {
    assert input[k..][1..] == input[k + 1..];
  }

  /** Moving the machine forward, keeping what it has yet to deliver, does not change the outcome. */
  lemma DecodeAdvance<S>(z: Inflater<S>, s: S, input: Bytes, t: S, taken: nat, before: Bytes, out: Bytes, pending: Bytes)
    requires z.Valid() && taken <= |input|
    requires var r, u := Inflated(z, s, input), Inflated(z, t, input[taken..]);
             && u.state == r.state && taken + u.used == r.used
             && out + pending + u.output == before + r.output
    ensures Decode(z, t, input[taken..]).mode == Decode(z, s, input).mode
    ensures before + Decode(z, s, input).output == out + pending + Decode(z, t, input[taken..]).output
  {
    var rest := input[taken..];
    var r, u := Inflated(z, s, input), Inflated(z, t, rest);
    assert input[r.used..] == rest[u.used..];
    DecodeResumes(z, s, input);
    DecodeResumes(z, t, rest);
    SameOutcome(z, r, u, Decode(z, s, input), Decode(z, t, rest), rest[u.used..], before, out + pending);
  }

  lemma SameOutcome<S>(z: Inflater<S>, r: Inflation<S>, u: Inflation<S>, d: Fed<S>, e: Fed<S>,
                       left: Bytes, before: Bytes, after: Bytes)
    requires z.Valid() && u.state == r.state && after + u.output == before + r.output
    requires if z.phase(r.state).Ended? then
               var more := Resume(z, r.state, left);
               d == Fed(more.mode, r.output + more.output) && e == Fed(more.mode, u.output + more.output)
             else d == Fed(Decoding(r.state), r.output) && e == Fed(Decoding(r.state), u.output)
    ensures e.mode == d.mode && before + d.output == after + e.output
  {
    if z.phase(r.state).Ended? {
      Extend(before, r.output, after, u.output, Resume(z, r.state, left).output);
    }
  }

  lemma Extend(a: Bytes, b: Bytes, c: Bytes, d: Bytes, more: Bytes)
    requires a + b == c + d
    ensures a + (b + more) == c + (d + more)
  {
    assert a + (b + more) == (a + b) + more;
    assert c + (d + more) == (c + d) + more;
  }

  lemma DecodeAtEnd<S>(z: Inflater<S>, ended: S, input: Bytes)
    requires z.Valid() && z.phase(ended).Ended?
    ensures Decode(z, ended, input) == Resume(z, ended, input)
  {
    InflatedAtRest(z, ended, input);
    DecodeResumes(z, ended, input);
    assert input[0..] == input;
    assert [] + Resume(z, ended, input).output == Resume(z, ended, input).output;
  }

  lemma Deliver(sink: Bytes, before: Bytes, d0: Bytes, out: Bytes, pending: Bytes, d1: Bytes)
    requires before + d0 == out + pending + d1
    ensures sink + before + d0 == (sink + out) + pending + d1
  {
    assert sink + before + d0 == sink + (before + d0);
    assert (sink + out) + pending + d1 == sink + (out + pending + d1);
  }

  /** Nothing more to come: the machine has failed, or waits for input. */
  lemma DecodeStops<S>(z: Inflater<S>, s: S, input: Bytes)
    requires z.Valid()
    requires !z.phase(s).Ended? && (z.phase(s).Running? ==> input == [])
    ensures Decode(z, s, input) == Fed(Decoding(s), [])
  {
  }

  /** Any cutting of a stream into writes gives the same output: that of the whole stream. */
  method DecodeStream<S>(z: Inflater<S>, writes: seq<Bytes>) returns (output: Bytes)
    requires z.Valid()
    ensures output == Decode(z, z.init, Flatten(writes)).output
  {
    var strm := new GzDecoder(z);
    for i := 0 to |writes|
      invariant strm.Valid() && strm.z == z && fresh(strm)
      invariant strm.fed == Flatten(writes[..i])
    {
      assert writes[..i + 1] == writes[..i] + [writes[i]];
      FlattenAppend(writes[..i], writes[i]);
      strm.Write(writes[i]);
    }
    assert writes[..|writes|] == writes;
    output := strm.sink;
  }
}
