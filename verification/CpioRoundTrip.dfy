/** Loading what `dump` wrote gives the archive back, also when archives are concatenated. */
module CpioRoundTrip {
  import opened Common
  import opened NameOrder
  import opened CpioFormat

  /** A header and a name, wherever they stand in a file. */
  lemma HeadLayout(before: Bytes, values: seq<nat>, name: Name, after: Bytes)
    requires |values| == 13
    ensures var data, pos := before + (Header(values) + name + [0]) + after, |before|;
            && pos + HEADER_SIZE + |name| + 1 <= |data|
            && data[pos..pos + HEADER_SIZE] == Header(values)
            && data[pos + HEADER_SIZE..pos + HEADER_SIZE + |name| + 1] == name + [0]
  {
    hide Header;
    var header := Header(values);
    assert |header| == HEADER_SIZE by { HeaderSize(values); }
    var data := before + (header + name + [0]) + after;
    assert data == before + header + (name + [0] + after);
    assert data == (before + header) + (name + [0]) + after;
    Middle(before, header, name + [0] + after);
    Middle(before + header, name + [0], after);
  }

  lemma HeaderSize(values: seq<nat>)
    ensures |Header(values)| == 6 + 8 * |values|
    ensures Header(values)[..6] == MAGIC
  {
    hide Fields;
    TakeLeft(MAGIC, Fields(values));
  }

  lemma NameReadBack(name: Name)
    requires 0 !in name && Utf8(name)
    ensures CString(name + [0]) == Some(name)
  {
    hide Utf8;
    TakeLeft(name, [0]);
  }

  /** Reading a header and its name back. */
  lemma StepOnHead(before: Bytes, values: seq<nat>, name: Name, after: Bytes)
    requires |values| == 13 && values[11] == |name| + 1 < TWO_TO_THE_32
    requires Aligned(|before|, 4) && 0 !in name && Utf8(name)
    ensures var data := before + (Header(values) + name + [0]) + after;
            var next := |before| + Align4(HEADER_SIZE + |name| + 1);
            && |before| < |data|
            && |Header(values)| == HEADER_SIZE
            && ReadStep(data, |before|) ==
                 if name == [46] || name == [46, 46] then Next(next, name, None)
                 else if name == TRAILER then ReadTrailer(data, next)
                 else ReadBody(data, Header(values), next, name)
  {
    hide Header, Utf8, Aligned, CString, FindMagic, ReadTrailer, ReadBody;
    HeadLayout(before, values, name, after);
    HeaderSize(values);
    HeaderField(values, 11);
    NameReadBack(name);
    AlignOffset(|before|, HEADER_SIZE + |name| + 1);
  }

  /** The body of an entry, wherever it stands. */
  lemma BodyOnEntry(before: Bytes, inode: nat, name: Name, e: CpioEntry, after: Bytes)
    requires Aligned(|before|, 4) && FitsHeader(e) && |name| + 1 < TWO_TO_THE_32
    requires |Header(EntryValues(inode, name, e))| == HEADER_SIZE
    ensures ReadBody(before + e.data + after, Header(EntryValues(inode, name, e)), |before|, name)
            == Next(|before| + |Padded(e.data)|, name, Some(e))
  {
    hide Header, Aligned, EntryValues, Fields;
    var values := EntryValues(inode, name, e);
    assert values[1] == e.mode && values[2] == e.uid && values[3] == e.gid && values[6] == |e.data|
        && values[9] == e.rdevmajor && values[10] == e.rdevminor by { ValuesOf(inode, name, e); }
    HeaderField(values, 1);
    HeaderField(values, 2);
    HeaderField(values, 3);
    HeaderField(values, 6);
    HeaderField(values, 9);
    HeaderField(values, 10);
    Middle(before, e.data, after);
    AlignOffset(|before|, |e.data|);
  }

  lemma ValuesOf(inode: nat, name: Name, e: CpioEntry)
    ensures var values := EntryValues(inode, name, e);
            values[1] == e.mode && values[2] == e.uid && values[3] == e.gid && values[6] == |e.data|
            && values[9] == e.rdevmajor && values[10] == e.rdevminor
  {
  }

  lemma StepOnEntry(before: Bytes, inode: nat, name: Name, e: CpioEntry, after: Bytes)
    requires Aligned(|before|, 4) && OrdinaryName(name) && FitsHeader(e)
    ensures var data := before + EntryBytes(inode, name, e) + after;
            && |before| < |data|
            && ReadStep(data, |before|) == Next(|before| + |EntryBytes(inode, name, e)|, name, Some(e))
  {
    hide Header, Utf8, Aligned, ReadStep, ReadBody, EntryValues, Align4;
    var values := EntryValues(inode, name, e);
    var head := Header(values) + name + [0];
    assert EntryHead(inode, name, e) == head;
    var pad1, pad2 := Zeros(Align4(|head|) - |head|), Zeros(Align4(|e.data|) - |e.data|);
    var data := before + EntryBytes(inode, name, e) + after;
    assert Padded(head) == head + pad1 && Padded(e.data) == e.data + pad2;
    assert data == before + head + (pad1 + e.data + pad2 + after);
    assert data == (before + head + pad1) + e.data + (pad2 + after);
    StepOnHead(before, values, name, pad1 + e.data + pad2 + after);
    AlignOffset(|before|, |head|);
    BodyOnEntry(before + head + pad1, inode, name, e, pad2 + after);
  }

  lemma TrailerIsText()
    ensures 0 !in TRAILER && Utf8(TRAILER)
  {
    hide Utf8;
    AsciiIsUtf8(TRAILER);
  }

  lemma {:induction false} AsciiIsUtf8(b: Bytes)
    requires forall i | 0 <= i < |b| :: b[i] <= 0x7F
    ensures Utf8(b)
    decreases |b|
  {
    if b != [] { AsciiIsUtf8(b[1..]); }
  }

  lemma StepOnTrailer(before: Bytes, inode: nat, after: Bytes)
    requires Aligned(|before|, 4)
    ensures var data := before + Padded(TrailerHead(inode)) + after;
            && |before| < |data|
            && ReadStep(data, |before|) == ReadTrailer(data, |before| + |Padded(TrailerHead(inode))|)
  {
    hide Header, Utf8, Aligned, ReadStep, TrailerValues, Align4, ReadTrailer, ReadBody;
    TrailerIsText();
    var head := TrailerHead(inode);
    var pad := Zeros(Align4(|head|) - |head|);
    assert Padded(head) == head + pad;
    assert before + Padded(head) + after == before + head + (pad + after);
    StepOnHead(before, TrailerValues(inode), TRAILER, pad + after);
  }

  /** The entries of an archive, given by some of its names. */
  function Part(a: Archive, names: seq<Name>): Archive {
    map name | name in a && name in names :: a[name]
  }

  predicate WritableNames(a: Archive, names: seq<Name>) {
    forall i | 0 <= i < |names| :: names[i] in a && OrdinaryName(names[i]) && FitsHeader(a[names[i]])
  }

  /** Reading a run of entries adds them to what was read before. */
  lemma {:induction false} LoadEntries(before: Bytes, a: Archive, names: seq<Name>, inode: nat, after: Bytes, got: Archive)
    requires Aligned(|before|, 4) && WritableNames(a, names) && AllIn(names, a)
    ensures var data := before + EntriesBytes(a, names, inode) + after;
            LoadFrom(data, |before|, got)
            == LoadFrom(data, |before| + |EntriesBytes(a, names, inode)|, got + Part(a, names))
    decreases |names|
  {
    hide OrdinaryName, FitsHeader, EntryBytes, ReadStep, Aligned;
    if names == [] {
      assert got + Part(a, names) == got;
    } else {
      var name, rest := names[0], names[1..];
      var e := a[name];
      var entry, more := EntryBytes(inode, name, e), EntriesBytes(a, rest, inode + 1);
      var data := before + EntriesBytes(a, names, inode) + after;
      assert data == before + entry + (more + after);
      assert data == (before + entry) + more + after;
      StepOnEntry(before, inode, name, e, more + after);
      SumAligned(|before|, |entry|);
      LoadEntries(before + entry, a, rest, inode + 1, after, got[name := e]);
      PartStep(a, names, got);
    }
  }

  lemma PartStep(a: Archive, names: seq<Name>, got: Archive)
    requires names != [] && names[0] in a
    ensures got[names[0] := a[names[0]]] + Part(a, names[1..]) == got + Part(a, names)
  {
    assert forall n :: n in names <==> n == names[0] || n in names[1..];
  }

  /** The parts of a dump within a file. */
  lemma DumpLayout(before: Bytes, a: Archive, names: seq<Name>, after: Bytes)
    requires AllIn(names, a)
    ensures var entries := EntriesBytes(a, names, FIRST_INODE);
            var trailer := Padded(TrailerHead(FIRST_INODE + |names|));
            var data := before + DumpOf(a, names) + after;
            && data == before + entries + (trailer + after)
            && data == (before + entries) + trailer + after
            && |before| + |DumpOf(a, names)| == |before + entries| + |trailer|
            && data[|before| + |DumpOf(a, names)|..] == after
  {
    hide EntriesBytes, TrailerHead, Padded;
    var entries := EntriesBytes(a, names, FIRST_INODE);
    var trailer := Padded(TrailerHead(FIRST_INODE + |names|));
    Associative(before, entries, trailer);
    Associative(before + entries, trailer, after);
    TakeLeft(before + DumpOf(a, names), after);
  }

  /** Reading goes on behind a trailer at the next magic, or ends. */
  lemma LoadTrailer(data: Bytes, before: Bytes, inode: nat, after: Bytes, got: Archive)
    requires Aligned(|before|, 4) && data == before + Padded(TrailerHead(inode)) + after
    ensures var next := |before| + |Padded(TrailerHead(inode))|;
            LoadFrom(data, |before|, got) ==
              match FindMagic(after)
              case None => Loaded(got)
              case Some(x) => LoadFrom(data, next + x, got)
  {
    hide TrailerHead, Padded, Aligned, ReadStep, FindMagic;
    StepOnTrailer(before, inode, after);
    TakeLeft(before + Padded(TrailerHead(inode)), after);
  }

  lemma LoadRun(data: Bytes, before: Bytes, a: Archive, names: seq<Name>, after: Bytes, got: Archive)
    requires Aligned(|before|, 4) && WritableNames(a, names) && AllIn(names, a)
    requires data == before + EntriesBytes(a, names, FIRST_INODE) + after
    ensures LoadFrom(data, |before|, got)
            == LoadFrom(data, |before| + |EntriesBytes(a, names, FIRST_INODE)|, got + Part(a, names))
    ensures Aligned(|before| + |EntriesBytes(a, names, FIRST_INODE)|, 4)
  {
    hide EntriesBytes, Aligned, LoadFrom;
    LoadEntries(before, a, names, FIRST_INODE, after, got);
    EntriesAligned(a, names, FIRST_INODE);
    SumAligned(|before|, |EntriesBytes(a, names, FIRST_INODE)|);
  }

  /** Reading a whole dump, wherever it stands aligned in a file, up to its trailer. */
  lemma LoadNames(before: Bytes, a: Archive, names: seq<Name>, after: Bytes, got: Archive)
    requires Aligned(|before|, 4) && WritableNames(a, names) && AllIn(names, a)
    ensures var data := before + DumpOf(a, names) + after;
            var next := |before| + |DumpOf(a, names)|;
            LoadFrom(data, |before|, got) ==
              match FindMagic(after)
              case None => Loaded(got + Part(a, names))
              case Some(x) => LoadFrom(data, next + x, got + Part(a, names))
  {
    hide *;
    var data := before + DumpOf(a, names) + after;
    var entries := EntriesBytes(a, names, FIRST_INODE);
    var trailer := Padded(TrailerHead(FIRST_INODE + |names|));
    DumpLayout(before, a, names, after);
    LoadRun(data, before, a, names, trailer + after, got);
    LoadTrailer(data, before + entries, FIRST_INODE + |names|, after, got + Part(a, names));
  }

  lemma LoadDump(before: Bytes, a: Archive, after: Bytes, got: Archive)
    requires Aligned(|before|, 4) && Writable(a)
    ensures var data := before + DumpBytes(a) + after;
            var next := |before| + |DumpBytes(a)|;
            LoadFrom(data, |before|, got) ==
              match FindMagic(after)
              case None => Loaded(got + a)
              case Some(x) => LoadFrom(data, next + x, got + a)
  {
    hide Aligned, OrdinaryName, FitsHeader, FindMagic, DumpOf, LoadFrom;
    assert Part(a, InOrder(a.Keys)) == a;
    LoadNames(before, a, InOrder(a.Keys), after, got);
  }

  /** The round trip. */
  lemma DumpThenLoad(a: Archive)
    requires Writable(a)
    ensures LoadFrom(DumpBytes(a), 0, map[]) == Loaded(a)
  {
    hide DumpBytes, LoadFrom;
    LoadDump([], a, [], map[]);
    assert [] + DumpBytes(a) + [] == DumpBytes(a);
    assert FindMagic([]) == None;
    assert map[] + a == a;
  }

  lemma {:induction false} FindAfterZeros(n: nat, b: Bytes)
    requires |b| >= 6 && b[..6] == MAGIC
    ensures FindMagic(Zeros(n) + b) == Some(n)
    decreases n
  {
    if n == 0 {
      assert Zeros(0) + b == b;
    } else {
      FindAfterZeros(n - 1, b);
      assert (Zeros(n) + b)[1..] == Zeros(n - 1) + b;
      assert (Zeros(n) + b)[..6][0] == 0;
    }
  }

  lemma HeadStartsWithMagic(values: seq<nat>, name: Name, after: Bytes)
    ensures var b := Padded(Header(values) + name + [0]) + after;
            |b| >= 6 && b[..6] == MAGIC
  {
    hide Header;
    HeaderSize(values);
    var head := Header(values) + name + [0];
    assert Header(values) <= head <= Padded(head) + after;
  }

  lemma DumpStartsWithMagic(a: Archive, names: seq<Name>)
    requires AllIn(names, a)
    ensures |DumpOf(a, names)| >= 6 && DumpOf(a, names)[..6] == MAGIC
  {
    hide Header, Padded;
    var trailer := Padded(TrailerHead(FIRST_INODE + |names|));
    if names == [] {
      HeadStartsWithMagic(TrailerValues(FIRST_INODE + |names|), TRAILER, []);
      assert DumpOf(a, names) == trailer + [];
    } else {
      var e := a[names[0]];
      var head, body, more := Padded(EntryHead(FIRST_INODE, names[0], e)), Padded(e.data),
                              EntriesBytes(a, names[1..], FIRST_INODE + 1);
      HeadStartsWithMagic(EntryValues(FIRST_INODE, names[0], e), names[0], body + (more + trailer));
      Associative(head, body, more + trailer);
      Associative(head + body, more, trailer);
    }
  }

  /** Two archives in one file, with zero padding between them: the second overrides the first. */
  lemma ConcatenatedArchives(a: Archive, b: Archive, padding: nat)
    requires Writable(a) && Writable(b) && Aligned(padding, 4)
    ensures LoadFrom(DumpBytes(a) + Zeros(padding) + DumpBytes(b), 0, map[]) == Loaded(a + b)
  {
    hide *;
    var first, zeros, second := DumpBytes(a), Zeros(padding), DumpBytes(b);
    var data := first + zeros + second;
    LoadFirst(data, a, padding, b, |first| + padding);
    LoadSecond(data, first + zeros, b, a);
  }

  lemma LoadFirst(data: Bytes, a: Archive, padding: nat, b: Archive, next: nat)
    requires Writable(a) && Aligned(padding, 4)
    requires data == DumpBytes(a) + Zeros(padding) + DumpBytes(b) && next == |DumpBytes(a)| + padding
    ensures next <= |data| && Aligned(next, 4) && LoadFrom(data, 0, map[]) == LoadFrom(data, next, a)
  {
    hide *;
    var first, zeros, second := DumpBytes(a), Zeros(padding), DumpBytes(b);
    DumpAligned(a);
    SumAligned(|first|, padding);
    Associative(first, zeros, second);
    assert [] + first == first;
    LoadDump([], a, zeros + second, map[]);
    DumpMagic(b);
    FindAfterZeros(padding, second);
    assert map[] + a == a;
  }

  lemma LoadSecond(data: Bytes, before: Bytes, b: Archive, got: Archive)
    requires Writable(b) && Aligned(|before|, 4) && data == before + DumpBytes(b)
    ensures LoadFrom(data, |before|, got) == Loaded(got + b)
  {
    hide DumpBytes, LoadFrom, Aligned, FindMagic, Writable;
    assert data == before + DumpBytes(b) + [];
    LoadDump(before, b, [], got);
    NoMagicInNothing();
  }

  lemma DumpMagic(a: Archive)
    ensures |DumpBytes(a)| >= 6 && DumpBytes(a)[..6] == MAGIC
  {
    hide DumpOf;
    DumpStartsWithMagic(a, InOrder(a.Keys));
  }

  lemma NoMagicInNothing()
    ensures FindMagic([]) == None
  {
  }

  lemma DumpAligned(a: Archive)
    ensures Aligned(|DumpBytes(a)|, 4) && Aligned(0, 4)
  {
    hide TrailerHead, EntriesBytes;
    EntriesAligned(a, InOrder(a.Keys), FIRST_INODE);
    SumAligned(|EntriesBytes(a, InOrder(a.Keys), FIRST_INODE)|, |Padded(TrailerHead(FIRST_INODE + |InOrder(a.Keys)|))|);
  }
}
