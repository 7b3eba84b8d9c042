/** Extracting a partition from an update payload, read from a file or from a pipe. */
module Payload {
  import opened Common

  const TWO_TO_THE_63 := 0x8000_0000_0000_0000
  const TWO_TO_THE_64 := 0x1_0000_0000_0000_0000

  type U64 = x: nat | x < TWO_TO_THE_64

  /** `Packed` stands for the two compressed kinds. */
  datatype Kind = Replace | Packed | Zero | Other

  datatype Extent = Extent(start: Option<U64>, blocks: Option<U64>)

  datatype Operation = Operation(kind: Kind, offset: Option<U64>, length: Option<U64>, extents: seq<Extent>)

  /** Bytes put at a position of the output file. */
  datatype Write = Write(at: nat, data: Bytes)

  type Unpack = Bytes -> Option<Bytes>

  /** The output position of a block: a product of 64 bits, to which the file seeks if it is not negative. */
  function Position(start: U64, block: nat): Option<nat> {
    var at := start * block % TWO_TO_THE_64;
    if at < TWO_TO_THE_63 then Some(at) else None
  }

  function ZeroWrites(extents: seq<Extent>, block: nat): Option<seq<Write>> {
    if extents == [] then Some([])
    else if extents[0].start.None? || extents[0].blocks.None? then None
    else match Position(extents[0].start.value, block)
      case None => None
      case Some(at) =>
        match ZeroWrites(extents[1..], block)
        case None => None
        case Some(ws) => Some([Write(at, Zeros(extents[0].blocks.value))] + ws)
  }

  /** What an operation writes, given its data; `None` where it is rejected. */
  function WritesOf(op: Operation, data: Bytes, block: nat, unpack: Unpack): Option<seq<Write>> {
    if op.extents == [] || op.extents[0].start.None? then None
    else if op.kind == Zero then ZeroWrites(op.extents, block)
    else match Position(op.extents[0].start.value, block)
      case None => None
      case Some(at) =>
        match op.kind
        case Replace => Some([Write(at, data)])
        case Packed => (match unpack(data) case None => None case Some(d) => Some([Write(at, d)]))
        case _ => None
  }

  predicate HasRange(op: Operation) { op.offset.Some? && op.length.Some? }

  function EndOf(op: Operation): nat
    requires HasRange(op)
  {
    op.offset.value + op.length.value
  }

  /** The output file: writing behind the end fills the gap with zeros. */
  function WriteAt(out: Bytes, w: Write): (r: Bytes)
    ensures |r| == if w.data == [] then |out| else Max(|out|, w.at + |w.data|)
  {
    if w.data == [] then out
    else
      var filled := if w.at <= |out| then out else out + Zeros(w.at - |out|);
      var end := w.at + |w.data|;
      filled[..w.at] + w.data + if end <= |filled| then filled[end..] else []
  }

  function Max(a: nat, b: nat): nat { if a < b then b else a }

  function WriteAll(out: Bytes, ws: seq<Write>): Bytes {
    if ws == [] then out else WriteAt(WriteAll(out, ws[..|ws| - 1]), ws[|ws| - 1])
  }

  // ----- random access -----

  /** The data of an operation; `None` where it cannot be had. */
  type Source = Operation -> Option<Bytes>

  /** Every operation takes its slice of the data directly. */
  function Slices(blob: Bytes): Source {
    op => if HasRange(op) && EndOf(op) <= |blob| then Some(blob[op.offset.value..EndOf(op)]) else None
  }

  function DirectWrite(op: Operation, source: Source, block: nat, unpack: Unpack): Option<seq<Write>> {
    match source(op)
    case None => None
    case Some(data) => WritesOf(op, data, block, unpack)
  }

  /** All writes, in the order of the operations. */
  function DirectWrites(ops: seq<Operation>, source: Source, block: nat, unpack: Unpack): Option<seq<Write>> {
    if ops == [] then Some([])
    else Both(DirectWrites(ops[..|ops| - 1], source, block, unpack), DirectWrite(ops[|ops| - 1], source, block, unpack))
  }

  function Both(a: Option<seq<Write>>, b: Option<seq<Write>>): (r: Option<seq<Write>>)
    ensures r.Some? <==> a.Some? && b.Some?
    ensures r.Some? ==> multiset(r.value) == multiset(a.value) + multiset(b.value)
  {
    if a.None? || b.None? then None else Some(a.value + b.value)
  }

  /** Every operation's data starts behind that of the one before it. */
  predicate Forward(ops: seq<Operation>) {
    && (forall i | 0 <= i < |ops| :: HasRange(ops[i]))
    && (forall i | 0 < i < |ops| :: EndOf(ops[i - 1]) <= ops[i].offset.value)
  }

  // ----- the input -----

  /** The payload: its data starts behind the manifest at `base`, which in a short file is past the end; `limit` is the
      last position a file seeks to. */
  datatype Input = Input(file: Bytes, base: nat, limit: nat, seekable: bool) {
    predicate Valid() {
      && base <= limit && |file| <= limit < TWO_TO_THE_63
      && (!seekable ==> base <= |file|)
    }

    function Blob(): Bytes { if base <= |file| then file[base..] else [] }
  }

  /** `u64` subtraction and addition, and the cast to `i64`. */
  function Minus(a: U64, b: U64): U64 { (a - b) % TWO_TO_THE_64 }

  function Plus(a: U64, b: U64): U64 { (a + b) % TWO_TO_THE_64 }

  function Signed(a: U64): int { if a < TWO_TO_THE_63 then a else a - TWO_TO_THE_64 }

  /** The data of an operation in a file: the offset counts from `base`, backwards if its top bit is set, and nothing
      is read for an empty range. */
  function Seeked(input: Input): Source
    requires input.Valid()
  {
    op =>
      if !HasRange(op) then None
      else
        var at := input.base + Signed(op.offset.value);
        if at < 0 || at > input.limit then None
        else if op.length.value == 0 then Some([])
        else if at + op.length.value <= |input.file| then Some(input.file[at..at + op.length.value])
        else None
  }

  function SourceOf(input: Input): Source
    requires input.Valid()
  {
    if input.seekable then Seeked(input) else Slices(input.Blob())
  }

  /** `skip`: a seek, and where that fails reading forward. */
  method Skip(input: Input, pos: nat, len: U64) returns (r: Option<nat>)
    requires input.Valid()
    ensures input.seekable && 0 <= pos + Signed(len) <= input.limit ==> r == Some(pos + Signed(len))
    ensures !(input.seekable && 0 <= pos + Signed(len) <= input.limit) ==>
              r == if pos + len <= |input.file| then Some(pos + len) else None
  {
    if input.seekable && 0 <= pos + Signed(len) <= input.limit {
      return Some(pos + Signed(len));
    }
    if pos + len > |input.file| { return None; }
    return Some(pos + len);
  }

  /** Where the input stands: at the counter, which is a signed distance from `base`. */
  predicate InStep(input: Input, pos: nat, curr: U64) {
    && pos == input.base + Signed(curr) && pos <= input.limit
    && (!input.seekable ==> curr < TWO_TO_THE_63 && pos <= |input.file|)
  }

  /** Skipping to the data of one operation and reading it. */
  method ReadData(input: Input, pos: nat, curr: U64, op: Operation)
    returns (data: Option<Bytes>, pos': nat, curr': U64)
    requires input.Valid() && InStep(input, pos, curr)
    ensures input.seekable ==> data == Seeked(input)(op)
    ensures !input.seekable ==> data == if HasRange(op) && curr <= op.offset.value then Slices(input.Blob())(op) else None
    ensures data.Some? ==> InStep(input, pos', curr')
    ensures data.Some? && !input.seekable ==> curr' == EndOf(op)
  {
    pos', curr' := pos, curr;
    if op.length.None? || op.offset.None? { return None, pos', curr'; }
    var length := op.length.value;
    var at := Skip(input, pos, Minus(op.offset.value, curr));
    SkipLands(input, pos, curr, op.offset.value);
    if at.None? || (length != 0 && at.value + length > |input.file|) { return None, pos', curr'; }
    data := Some(if length == 0 then [] else input.file[at.value..at.value + length]);
    pos', curr' := at.value + length, Plus(op.offset.value, length);
    ReadOn(input, at.value, op.offset.value, length);
    if !input.seekable { SliceOfBlob(input, op); }
  }

  lemma SliceOfBlob(input: Input, op: Operation)
    requires HasRange(op) && input.base + EndOf(op) <= |input.file|
    ensures Slices(input.Blob())(op) == Some(input.file[input.base + op.offset.value..input.base + EndOf(op)])
    ensures op.length.value == 0 ==> Slices(input.Blob())(op) == Some([])
  {
    assert input.Blob()[op.offset.value..EndOf(op)] == input.file[input.base + op.offset.value..input.base + EndOf(op)];
  }

  /** A wrapped difference, cast and added, leads to the signed offset, or nowhere. */
  lemma SkipLands(input: Input, pos: nat, curr: U64, offset: U64)
    requires input.Valid() && InStep(input, pos, curr)
    ensures var len, at := Minus(offset, curr), input.base + Signed(offset);
            && (input.seekable && 0 <= at <= input.limit ==> pos + Signed(len) == at)
            && (input.seekable && !(0 <= at <= input.limit) ==>
                  !(0 <= pos + Signed(len) <= input.limit) && pos + len > |input.file|)
            && (!input.seekable && curr <= offset ==> pos + len == input.base + offset)
            && (!input.seekable && curr > offset ==> pos + len > |input.file|)
  {
    var len := Minus(offset, curr);
    assert len == offset - curr || len == offset - curr + TWO_TO_THE_64;
  }

  lemma ReadOn(input: Input, at: nat, offset: U64, length: U64)
    requires input.Valid() && at == input.base + Signed(offset)
    requires at + length <= |input.file| || (length == 0 && at <= input.limit && input.seekable)
    ensures at + length == input.base + Signed(Plus(offset, length))
    ensures !input.seekable && offset < TWO_TO_THE_63 ==> Plus(offset, length) == offset + length < TWO_TO_THE_63
  {
    assert Plus(offset, length) == offset + length || Plus(offset, length) == offset + length - TWO_TO_THE_64;
  }

  // ----- the loop -----

  /** Where a pipe stands after some operations. */
  function Reached(ops: seq<Operation>): nat
    requires Forward(ops)
  {
    if ops == [] then 0 else EndOf(ops[|ops| - 1])
  }

  /** Operations whose data the input can deliver one after the other: any in a file, later ones only in a pipe. */
  predicate Readable(input: Input, ops: seq<Operation>) { input.seekable || Forward(ops) }

  /** The loop over the operations: skip, read, write. */
  method Extract(input: Input, ops: seq<Operation>, block: nat, unpack: Unpack) returns (r: Option<Bytes>)
    requires input.Valid()
    ensures var ws := DirectWrites(ops, SourceOf(input), block, unpack);
            r == if Readable(input, ops) && ws.Some? then Some(WriteAll([], ws.value)) else None
  {
    hide WritesOf, Forward, DirectWrites, WriteAll, Reached, Slices, Seeked;
    var source := SourceOf(input);
    var out: Bytes := [];
    var pos, curr: U64 := input.base, 0;
    ghost var ws: seq<Write> := [];
    assert ops[..0] == [];
    NothingYet(source, block, unpack);
    for i := 0 to |ops|
      invariant Readable(input, ops[..i]) && InStep(input, pos, curr)
      invariant !input.seekable ==> curr == Reached(ops[..i])
      invariant DirectWrites(ops[..i], source, block, unpack) == Some(ws) && out == WriteAll([], ws)
    {
      assert ops[..i + 1] == ops[..i] + [ops[i]];
      OneMore(ops[..i], ops[i], source, block, unpack);
      if !input.seekable { OneMoreForward(ops[..i], ops[i]); }
      Prefix(ops, i + 1, source, block, unpack);
      NoRangeNoData(input, ops[i]);
      var data, pos', curr' := ReadData(input, pos, curr, ops[i]);
      if data.None? { return None; }
      pos, curr := pos', curr';
      var written := WritesOf(ops[i], data.value, block, unpack);
      if written.None? { return None; }
      out := WriteEach(out, ws, written.value);
      ws := ws + written.value;
    }
    assert ops[..|ops|] == ops;
    return Some(out);
  }

  lemma NoRangeNoData(input: Input, op: Operation)
    requires input.Valid()
    ensures !HasRange(op) ==> SourceOf(input)(op).None?
  {
  }

  lemma NothingYet(source: Source, block: nat, unpack: Unpack)
    ensures Forward([]) && Reached([]) == 0 && DirectWrites([], source, block, unpack) == Some([]) && WriteAll([], []) == []
  {
  }

  lemma OneMore(ops: seq<Operation>, op: Operation, source: Source, block: nat, unpack: Unpack)
    requires DirectWrites(ops, source, block, unpack).Some?
    ensures var ws := DirectWrites(ops, source, block, unpack);
            DirectWrites(ops + [op], source, block, unpack) == Both(ws, DirectWrite(op, source, block, unpack))
  {
    hide WritesOf;
    var next := ops + [op];
    assert next[..|next| - 1] == ops && next[|next| - 1] == op;
  }

  lemma OneMoreForward(ops: seq<Operation>, op: Operation)
    requires Forward(ops)
    ensures Forward(ops + [op]) <==> HasRange(op) && Reached(ops) <= op.offset.value
    ensures Forward(ops + [op]) ==> Reached(ops + [op]) == EndOf(op)
  {
    var next := ops + [op];
    assert next[|next| - 1] == op;
    if HasRange(op) && Reached(ops) <= op.offset.value {
      forall i | 0 < i < |next| ensures EndOf(next[i - 1]) <= next[i].offset.value {
        assert i < |ops| ==> next[i] == ops[i];
        assert next[i - 1] == ops[i - 1];
      }
    }
    if Forward(next) && ops != [] {
      assert EndOf(next[|ops| - 1]) <= next[|ops|].offset.value;
    }
  }

  method WriteEach(start: Bytes, ghost done: seq<Write>, ws: seq<Write>) returns (out: Bytes)
    requires start == WriteAll([], done)
    ensures out == WriteAll([], done + ws)
  {
    out := start;
    assert done + ws[..0] == done;
    for i := 0 to |ws|
      invariant out == WriteAll([], done + ws[..i])
    {
      ghost var next := done + ws[..i + 1];
      assert next[..|next| - 1] == done + ws[..i];
      out := WriteAt(out, ws[i]);
    }
    assert ws[..|ws|] == ws;
  }

  /** A list fails as soon as a first part of it does. */
  lemma {:induction false} Prefix(ops: seq<Operation>, i: nat, source: Source, block: nat, unpack: Unpack)
    requires i <= |ops|
    ensures !Forward(ops[..i]) ==> !Forward(ops)
    ensures DirectWrites(ops[..i], source, block, unpack).None? ==> DirectWrites(ops, source, block, unpack).None?
    decreases |ops| - i
  {
    if i == |ops| {
      assert ops[..i] == ops;
    } else {
      Prefix(ops, i + 1, source, block, unpack);
      assert ops[..i + 1][..i] == ops[..i];
      if !Forward(ops[..i]) {
        assert forall k | 0 <= k < i :: ops[..i + 1][k] == ops[..i][k];
      }
    }
  }

  // ----- the order does not matter -----

  predicate Apart(v: Write, w: Write) {
    v.data == [] || w.data == [] || v.at + |v.data| <= w.at || w.at + |w.data| <= v.at
  }

  predicate PairwiseApart(ws: seq<Write>) { forall i, j | 0 <= i < j < |ws| :: Apart(ws[i], ws[j]) }

  predicate Covers(w: Write, x: nat) { w.at <= x < w.at + |w.data| }

  lemma WriteAtAt(out: Bytes, w: Write, x: nat)
    requires x < |WriteAt(out, w)|
    ensures WriteAt(out, w)[x] == if Covers(w, x) then w.data[x - w.at] else if x < |out| then out[x] else 0
  {
  }

  /** The file ends where the write that reaches farthest does. */
  lemma {:induction false} WriteAllEnd(ws: seq<Write>)
    ensures var end := |WriteAll([], ws)|;
            && (forall i | 0 <= i < |ws| && ws[i].data != [] :: ws[i].at + |ws[i].data| <= end)
            && (end > 0 ==> exists i :: 0 <= i < |ws| && ws[i].data != [] && ws[i].at + |ws[i].data| == end)
  {
    hide WriteAt;
    if ws == [] {
    } else {
      var last := |ws| - 1;
      var init, w := ws[..last], ws[last];
      WriteAllEnd(init);
      var before, end := |WriteAll([], init)|, |WriteAll([], ws)|;
      hide WriteAll;
      assert forall i | 0 <= i < last :: init[i] == ws[i];
      if end > before {
        assert ws[last].data != [] && ws[last].at + |ws[last].data| == end;
      } else if end > 0 {
        var i :| 0 <= i < |init| && init[i].data != [] && init[i].at + |init[i].data| == before;
        assert ws[i].data != [] && ws[i].at + |ws[i].data| == end;
      }
    }
  }

  /** Every byte of the file is that of the write that covers it, or zero. */
  lemma {:induction false} WriteAllAt(ws: seq<Write>, x: nat)
    requires PairwiseApart(ws) && x < |WriteAll([], ws)|
    ensures forall i | 0 <= i < |ws| && Covers(ws[i], x) :: WriteAll([], ws)[x] == ws[i].data[x - ws[i].at]
    ensures (forall i | 0 <= i < |ws| :: !Covers(ws[i], x)) ==> WriteAll([], ws)[x] == 0
  {
    hide WriteAt;
    if ws == [] {
    } else {
      var last := |ws| - 1;
      var init, w := ws[..last], ws[last];
      var before, r := WriteAll([], init), WriteAll([], ws);
      WriteAtAt(before, w, x);
      if x < |before| { WriteAllAt(init, x); }
      hide WriteAll;
      forall i | 0 <= i < last && Covers(ws[i], x) ensures r[x] == ws[i].data[x - ws[i].at] {
        assert Apart(ws[i], w) && init[i] == ws[i];
        WriteAllEnd(init);
      }
      if forall i | 0 <= i < |ws| :: !Covers(ws[i], x) {
        assert forall i | 0 <= i < last :: init[i] == ws[i];
      }
    }
  }

  /** Writes that do not overlap give the same file in any order. */
  lemma SameFile(v: seq<Write>, w: seq<Write>)
    requires PairwiseApart(v) && PairwiseApart(w) && forall u :: u in v <==> u in w
    ensures WriteAll([], v) == WriteAll([], w)
  {
    hide WriteAll;
    var a, b := WriteAll([], v), WriteAll([], w);
    assert |a| == |b| by {
      WriteAllEnd(v);
      WriteAllEnd(w);
      Reaches(v, w, |a|, |b|);
      Reaches(w, v, |b|, |a|);
    }
    forall x | 0 <= x < |a| ensures a[x] == b[x] {
      WriteAllAt(v, x);
      WriteAllAt(w, x);
      if i :| 0 <= i < |v| && Covers(v[i], x) {
        assert v[i] in w;
        var j :| 0 <= j < |w| && w[j] == v[i];
      } else {
        forall j | 0 <= j < |w| ensures !Covers(w[j], x) {
          assert w[j] in v;
        }
      }
    }
  }

  lemma Reaches(v: seq<Write>, w: seq<Write>, a: nat, b: nat)
    requires forall u :: u in v <==> u in w
    requires a > 0 ==> exists i :: 0 <= i < |v| && v[i].data != [] && v[i].at + |v[i].data| == a
    requires forall i | 0 <= i < |w| && w[i].data != [] :: w[i].at + |w[i].data| <= b
    ensures a <= b
  {
    if a > 0 {
      var i :| 0 <= i < |v| && v[i].data != [] && v[i].at + |v[i].data| == a;
      assert v[i] in w;
    }
  }

  // ----- permuted operations -----

  function Without<T>(s: seq<T>, k: nat): (r: seq<T>)
    requires k < |s|
    ensures multiset(r) == multiset(s) - multiset{s[k]} && |r| == |s| - 1
  {
    assert s == s[..k] + [s[k]] + s[k + 1..];
    s[..k] + s[k + 1..]
  }

  lemma WithoutLast<T>(s: seq<T>, k: nat)
    requires k < |s|
    ensures k == |s| - 1 ==> Without(s, k) == s[..|s| - 1]
    ensures k < |s| - 1 ==> var rest := Without(s, k);
                            rest[..|rest| - 1] == Without(s[..|s| - 1], k) && rest[|rest| - 1] == s[|s| - 1]
  {
  }

  lemma {:induction false} WithoutOne(ops: seq<Operation>, k: nat, source: Source, block: nat, unpack: Unpack)
    requires k < |ops|
    ensures var all, one, rest := DirectWrites(ops, source, block, unpack), DirectWrite(ops[k], source, block, unpack),
                                  DirectWrites(Without(ops, k), source, block, unpack);
            && (all.Some? <==> one.Some? && rest.Some?)
            && (all.Some? ==> multiset(all.value) == multiset(rest.value) + multiset(one.value))
  {
    hide DirectWrite, Without, Both;
    var last := |ops| - 1;
    var init := ops[..last];
    WithoutLast(ops, k);
    assert DirectWrites(ops, source, block, unpack)
        == Both(DirectWrites(init, source, block, unpack), DirectWrite(ops[last], source, block, unpack));
    if k == last {
    } else {
      WithoutOne(init, k, source, block, unpack);
      var rest := Without(ops, k);
      assert DirectWrites(rest, source, block, unpack)
          == Both(DirectWrites(Without(init, k), source, block, unpack), DirectWrite(ops[last], source, block, unpack));
    }
    hide DirectWrites;
  }

  lemma {:induction false} PermutedWrites(a: seq<Operation>, b: seq<Operation>, source: Source, block: nat, unpack: Unpack)
    requires multiset(a) == multiset(b)
    ensures var v, w := DirectWrites(a, source, block, unpack), DirectWrites(b, source, block, unpack);
            (v.Some? <==> w.Some?) && (v.Some? ==> multiset(v.value) == multiset(w.value))
    decreases |a|
  {
    if a == [] {
      assert |multiset(b)| == 0;
      assert b == [];
    } else {
      var k := |a| - 1;
      assert a[k] in multiset(b);
      var j :| 0 <= j < |b| && b[j] == a[k];
      hide DirectWrites;
      WithoutOne(a, k, source, block, unpack);
      WithoutOne(b, j, source, block, unpack);
      PermutedWrites(Without(a, k), Without(b, j), source, block, unpack);
    }
  }

  lemma {:induction false} TwicePlaced(s: seq<Write>, i: nat, j: nat)
    requires i < j < |s| && s[i] == s[j]
    ensures multiset(s)[s[i]] >= 2
  {
    var rest := Without(s, j);
    assert rest[i] == s[i];
    assert s[i] in multiset(rest);
  }

  lemma PlacedTwice(s: seq<Write>, x: Write) returns (i: nat, j: nat)
    requires multiset(s)[x] >= 2
    ensures i < j < |s| && s[i] == x && s[j] == x
  {
    var k :| 0 <= k < |s| && s[k] == x;
    var rest := Without(s, k);
    assert x in multiset(rest);
    var m :| 0 <= m < |rest| && rest[m] == x;
    var n := if m < k then m else m + 1;
    assert s[n] == x;
    i, j := if n < k then n else k, if n < k then k else n;
  }

  lemma PermutedApart(v: seq<Write>, w: seq<Write>)
    requires PairwiseApart(v) && multiset(v) == multiset(w)
    ensures PairwiseApart(w) && forall u :: u in v <==> u in w
  {
    assert forall u :: u in v <==> u in multiset(v);
    assert forall u :: u in w <==> u in multiset(w);
    forall i, j | 0 <= i < j < |w| ensures Apart(w[i], w[j]) {
      if w[i] == w[j] {
        TwicePlaced(w, i, j);
        var m, n := PlacedTwice(v, w[i]);
        assert Apart(v[m], v[n]);
      } else {
        assert w[i] in v && w[j] in v;
        var m :| 0 <= m < |v| && v[m] == w[i];
        var n :| 0 <= n < |v| && v[n] == w[j];
        assert Apart(v[m], v[n]) || Apart(v[n], v[m]);
      }
    }
  }

  /** Streaming refines random access: sorted operations with disjoint data give the file that the operations give
      in their own order, provided their destinations do not overlap. */
  lemma StreamingIsRandomAccess(ops: seq<Operation>, sorted: seq<Operation>, source: Source, block: nat, unpack: Unpack)
    requires multiset(sorted) == multiset(ops)
    requires DirectWrites(ops, source, block, unpack).Some? && PairwiseApart(DirectWrites(ops, source, block, unpack).value)
    ensures DirectWrites(sorted, source, block, unpack).Some?
    ensures WriteAll([], DirectWrites(sorted, source, block, unpack).value)
            == WriteAll([], DirectWrites(ops, source, block, unpack).value)
  {
    hide DirectWrites, WriteAll, PairwiseApart;
    PermutedWrites(ops, sorted, source, block, unpack);
    var v, w := DirectWrites(ops, source, block, unpack).value, DirectWrites(sorted, source, block, unpack).value;
    PermutedApart(v, w);
    SameFile(v, w);
  }

  // ----- sorted by offset -----

  function Key(op: Operation): nat { if op.offset.Some? then op.offset.value else 0 }

  predicate SortedByOffset(ops: seq<Operation>) { forall i, j | 0 <= i < j < |ops| :: Key(ops[i]) <= Key(ops[j]) }

  /** An operation goes behind those with an offset up to its own. */
  function Insert(sorted: seq<Operation>, op: Operation): (r: seq<Operation>)
    ensures multiset(r) == multiset(sorted) + multiset{op}
  {
    if sorted == [] then [op]
    else
      var last := |sorted| - 1;
      assert sorted == sorted[..last] + [sorted[last]];
      if Key(sorted[last]) <= Key(op) then sorted + [op] else Insert(sorted[..last], op) + [sorted[last]]
  }

  function Sorted(ops: seq<Operation>): (r: seq<Operation>)
    ensures multiset(r) == multiset(ops)
  {
    if ops == [] then []
    else
      assert ops == ops[..|ops| - 1] + [ops[|ops| - 1]];
      Insert(Sorted(ops[..|ops| - 1]), ops[|ops| - 1])
  }

  /** The operations with one offset, in their order. */
  function WithKey(ops: seq<Operation>, key: nat): seq<Operation> {
    if ops == [] then [] else WithKey(ops[..|ops| - 1], key) + Pick(ops[|ops| - 1], key)
  }

  function Pick(op: Operation, key: nat): seq<Operation> { if Key(op) == key then [op] else [] }

  lemma WithKeyAppend(ops: seq<Operation>, op: Operation, key: nat)
    ensures WithKey(ops + [op], key) == WithKey(ops, key) + Pick(op, key)
  {
    assert (ops + [op])[..|ops|] == ops;
  }

  lemma {:induction false} InsertSorts(sorted: seq<Operation>, op: Operation)
    requires SortedByOffset(sorted)
    ensures SortedByOffset(Insert(sorted, op))
  {
    var last := |sorted| - 1;
    if sorted == [] || Key(sorted[last]) <= Key(op) {
    } else {
      var init := sorted[..last];
      InsertSorts(init, op);
      forall x | x in Insert(init, op) ensures Key(x) <= Key(sorted[last]) {
        assert x in multiset(Insert(init, op));
        assert x in multiset(init) || x == op;
      }
    }
  }

  lemma {:induction false} InsertKeepsOrder(sorted: seq<Operation>, op: Operation, key: nat)
    ensures WithKey(Insert(sorted, op), key) == WithKey(sorted, key) + Pick(op, key)
  {
    hide WithKey;
    var last := |sorted| - 1;
    if sorted == [] || Key(sorted[last]) <= Key(op) {
      assert Insert(sorted, op) == sorted + [op];
      WithKeyAppend(sorted, op, key);
    } else {
      var init, x := sorted[..last], sorted[last];
      assert Insert(sorted, op) == Insert(init, op) + [x] && sorted == init + [x];
      hide Insert;
      InsertKeepsOrder(init, op, key);
      WithKeyAppend(Insert(init, op), x, key);
      WithKeyAppend(init, x, key);
      assert Pick(op, key) == [] || Pick(x, key) == [];
    }
  }

  /** A stable sort: the same operations by rising offset, those with one offset in the order they had. */
  lemma {:induction false} SortedIs(ops: seq<Operation>, key: nat)
    ensures multiset(Sorted(ops)) == multiset(ops) && SortedByOffset(Sorted(ops))
    ensures WithKey(Sorted(ops), key) == WithKey(ops, key)
  {
    if ops == [] {
    } else {
      SortedIs(ops[..|ops| - 1], key);
      InsertSorts(Sorted(ops[..|ops| - 1]), ops[|ops| - 1]);
      InsertKeepsOrder(Sorted(ops[..|ops| - 1]), ops[|ops| - 1], key);
    }
  }

  /** Sorted operations can be read forward exactly if no non-empty data range reaches into a later one. */
  lemma ForwardIff(ops: seq<Operation>)
    requires SortedByOffset(ops) && forall i | 0 <= i < |ops| :: HasRange(ops[i])
    ensures Forward(ops) <==> forall i, j | 0 <= i < j < |ops| :: EndOf(ops[i]) <= Key(ops[j])
  {
    if Forward(ops) {
      forall i, j | 0 <= i < j < |ops| ensures EndOf(ops[i]) <= Key(ops[j]) {
        assert EndOf(ops[i + 1 - 1]) <= ops[i + 1].offset.value;
        assert i + 1 < j ==> Key(ops[i + 1]) <= Key(ops[j]);
      }
    }
  }

  // ----- a partition -----

  /** A range that a file delivers although it is none of the data: before `base`, or empty and past the end. */
  predicate Stray(input: Input, op: Operation)
    requires HasRange(op)
  {
    var at := input.base + Signed(op.offset.value);
    if op.offset.value < TWO_TO_THE_63 then op.length.value == 0 && |input.Blob()| < op.offset.value && at <= input.limit
    else at >= 0 && (op.length.value == 0 || at + op.length.value <= |input.file|)
  }

  /** Seeking delivers every slice of the data, and nothing else but stray ranges. */
  lemma SeekedIsSlice(input: Input, op: Operation)
    requires input.Valid()
    ensures Slices(input.Blob())(op).Some? ==> Seeked(input)(op) == Slices(input.Blob())(op)
    ensures Seeked(input)(op) == Slices(input.Blob())(op) <==> !(HasRange(op) && Stray(input, op))
  {
    if HasRange(op) && input.base + EndOf(op) <= |input.file| {
      SliceOfBlob(input, op);
    }
  }

  lemma {:induction false} SeekedWrites(input: Input, ops: seq<Operation>, block: nat, unpack: Unpack)
    requires input.Valid()
    ensures var direct := DirectWrites(ops, Slices(input.Blob()), block, unpack);
            direct.Some? ==> DirectWrites(ops, SourceOf(input), block, unpack) == direct
  {
    hide Slices, Seeked, WritesOf;
    if ops == [] {
    } else {
      SeekedWrites(input, ops[..|ops| - 1], block, unpack);
      SeekedIsSlice(input, ops[|ops| - 1]);
    }
  }

  /** Extracting a partition: it succeeds exactly if the input can deliver the sorted operations and each of them can be
      carried out; the file is that of random access in the operations' own order. */
  method ExtractPartition(input: Input, ops: seq<Operation>, block: nat, unpack: Unpack) returns (r: Option<Bytes>)
    requires input.Valid()
    ensures r.Some? <==> Readable(input, Sorted(ops)) && DirectWrites(ops, SourceOf(input), block, unpack).Some?
    ensures var ws := DirectWrites(ops, SourceOf(input), block, unpack);
            r.Some? && PairwiseApart(ws.value) ==> r.value == WriteAll([], ws.value)
    ensures var direct := DirectWrites(ops, Slices(input.Blob()), block, unpack);
            Readable(input, Sorted(ops)) && direct.Some? && PairwiseApart(direct.value) ==>
              r == Some(WriteAll([], direct.value))
  {
    hide *;
    r := Extract(input, Sorted(ops), block, unpack);
    PermutedWrites(ops, Sorted(ops), SourceOf(input), block, unpack);
    SeekedWrites(input, ops, block, unpack);
    var ws := DirectWrites(ops, SourceOf(input), block, unpack);
    if ws.Some? && PairwiseApart(ws.value) {
      StreamingIsRandomAccess(ops, Sorted(ops), SourceOf(input), block, unpack);
    }
  }
}
