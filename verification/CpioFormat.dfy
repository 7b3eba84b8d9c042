/** Reading and writing cpio archives in the "New ASCII Format" of cpio(5). */
module CpioFormat {
  import opened Common
  import opened NameOrder

  const MAGIC: Bytes := [48, 55, 48, 55, 48, 49]                          // 070701
  const TRAILER: Bytes := [84, 82, 65, 73, 76, 69, 82, 33, 33, 33]        // TRAILER!!!
  const HEADER_SIZE: nat := 110
  const FIRST_INODE: nat := 300000

  datatype CpioEntry = CpioEntry(mode: nat, uid: nat, gid: nat, rdevmajor: nat, rdevminor: nat, data: Bytes)

  type Archive = map<Name, CpioEntry>

  // ----- hexadecimal fields -----

  function HexDigit(d: nat): Byte
    requires d < 16
  {
    if d < 10 then 48 + d else 87 + d
  }

  /** `{:0k x}` for a value that fits in k digits. */
  function Hex(n: nat, k: nat): (r: Bytes)
    ensures |r| == k
    decreases k
  {
    if k == 0 then [] else Hex(n / 16, k - 1) + [HexDigit(n % 16)]
  }

  function DigitValue(c: Byte): Option<nat> {
    if 48 <= c <= 57 then Some(c - 48)
    else if 97 <= c <= 102 then Some(c - 87)
    else if 65 <= c <= 70 then Some(c - 55)
    else None
  }

  /** The value of hexadecimal digits of either case, or None. */
  function ParseHex(b: Bytes): Option<nat>
    decreases |b|
  {
    if b == [] then Some(0)
    else
      var high, low := ParseHex(b[..|b| - 1]), DigitValue(b[|b| - 1]);
      if high.None? || low.None? then None else Some(high.value * 16 + low.value)
  }

  /** `x8u`: the loop over the characters. */
  method X8u(field: Bytes) returns (r: Option<nat>)
    ensures r == ParseHex(field)
  {
    var acc := 0;
    for i := 0 to |field|
      invariant ParseHex(field[..i]) == Some(acc)
    {
      assert field[..i + 1][..i] == field[..i];
      match DigitValue(field[i])
      case None =>
        ParseHexFails(field, i);
        return None;
      case Some(d) => acc := acc * 16 + d;
    }
    assert field[..|field|] == field;
    r := Some(acc);
  }

  lemma {:induction false} ParseHexFails(b: Bytes, i: nat)
    requires i < |b| && DigitValue(b[i]).None?
    ensures ParseHex(b).None?
    decreases |b|
  {
    if i == |b| - 1 {
    } else {
      ParseHexFails(b[..|b| - 1], i);
    }
  }

  function Power16(k: nat): nat {
    if k == 0 then 1 else 16 * Power16(k - 1)
  }

  lemma {:induction false} HexRoundTrip(n: nat, k: nat)
    requires n < Power16(k)
    ensures ParseHex(Hex(n, k)) == Some(n)
    decreases k
  {
    if k == 0 {
    } else {
      HexRoundTrip(n / 16, k - 1);
      assert Hex(n, k)[..k - 1] == Hex(n / 16, k - 1);
    }
  }

  lemma Hex8RoundTrip(n: nat)
    requires n < TWO_TO_THE_32
    ensures ParseHex(Hex(n, 8)) == Some(n)
  {
    assert Power16(4) == 65536;
    assert Power16(8) == TWO_TO_THE_32;
    HexRoundTrip(n, 8);
  }

  // ----- headers -----

  function Fields(values: seq<nat>): (r: Bytes)
    ensures |r| == 8 * |values|
  {
    if values == [] then [] else Hex(values[0], 8) + Fields(values[1..])
  }

  function Header(values: seq<nat>): Bytes {
    MAGIC + Fields(values)
  }

  /** The i-th eight digit field of a header. */
  function Field(header: Bytes, i: nat): Option<nat>
    requires 6 + 8 * i + 8 <= |header|
  {
    ParseHex(header[6 + 8 * i..6 + 8 * i + 8])
  }

  lemma {:induction false} FieldsAt(values: seq<nat>, i: nat)
    requires i < |values|
    ensures Fields(values)[8 * i..8 * i + 8] == Hex(values[i], 8)
    decreases |values|
  {
    hide Hex;
    var first, rest := Hex(values[0], 8), Fields(values[1..]);
    if i == 0 {
      TakeLeft(first, rest);
    } else {
      FieldsAt(values[1..], i - 1);
      SliceRight(first, rest, 8 * i, 8 * i + 8);
    }
  }

  lemma HeaderField(values: seq<nat>, i: nat)
    requires i < |values| && values[i] < TWO_TO_THE_32
    ensures |Header(values)| == 6 + 8 * |values|
    ensures Field(Header(values), i) == Some(values[i])
  {
    hide Fields, Hex, ParseHex;
    FieldsAt(values, i);
    SliceRight(MAGIC, Fields(values), 6 + 8 * i, 6 + 8 * i + 8);
    Hex8RoundTrip(values[i]);
  }

  function Align4(x: nat): (r: nat)
    ensures Aligned(r, 4) && x <= r < x + 4
  {
    (x + 3) / 4 * 4
  }

  function Padded(b: Bytes): (r: Bytes)
    ensures |r| == Align4(|b|)
  {
    b + Zeros(Align4(|b|) - |b|)
  }

  // ----- names -----

  predicate Continues(c: Byte) { 0x80 <= c <= 0xBF }

  /** The length of the UTF-8 character a string starts with (RFC 3629, section 4), 0 if there is none. */
  function CharLength(b: Bytes): (k: nat)
    requires b != []
    ensures k <= |b|
  {
    if b[0] <= 0x7F then 1
    else if 0xC2 <= b[0] <= 0xDF then if |b| >= 2 && Continues(b[1]) then 2 else 0
    else if 0xE0 <= b[0] <= 0xEF then
      if |b| >= 3 && Continues(b[1]) && Continues(b[2])
         && (b[0] == 0xE0 ==> b[1] >= 0xA0) && (b[0] == 0xED ==> b[1] <= 0x9F) then 3 else 0
    else if 0xF0 <= b[0] <= 0xF4 then
      if |b| >= 4 && Continues(b[1]) && Continues(b[2]) && Continues(b[3])
         && (b[0] == 0xF0 ==> b[1] >= 0x90) && (b[0] == 0xF4 ==> b[1] <= 0x8F) then 4 else 0
    else 0
  }

  /** Well-formed UTF-8. */
  predicate Utf8(b: Bytes)
    decreases |b|
  {
    b == [] || (CharLength(b) > 0 && Utf8(b[CharLength(b)..]))
  }

  /** `Utf8CStr::from_bytes`: exactly one NUL, at the end, and valid UTF-8 before it. */
  function CString(b: Bytes): Option<Name> {
    if b == [] || b[|b| - 1] != 0 || 0 in b[..|b| - 1] || !Utf8(b[..|b| - 1]) then None
    else Some(b[..|b| - 1])
  }

  /** A name `dump` can write and `load_from_data` reads back as an entry. */
  predicate OrdinaryName(name: Name) {
    && 0 !in name && Utf8(name) && name != [46] && name != [46, 46] && name != TRAILER
    && |name| + 1 < TWO_TO_THE_32
  }

  predicate FitsHeader(e: CpioEntry) {
    && e.mode < TWO_TO_THE_32 && e.uid < TWO_TO_THE_32 && e.gid < TWO_TO_THE_32
    && e.rdevmajor < TWO_TO_THE_32 && e.rdevminor < TWO_TO_THE_32 && |e.data| < TWO_TO_THE_32
  }

  predicate Writable(a: Archive) {
    && (forall name | name in a :: OrdinaryName(name) && FitsHeader(a[name]))
    && FIRST_INODE + |a| < TWO_TO_THE_32
  }

  // ----- dump -----

  /** The header fields of an entry. */
  function EntryValues(inode: nat, name: Name, e: CpioEntry): (r: seq<nat>)
    ensures |r| == 13 && r[11] == |name| + 1
  {
    [inode, e.mode, e.uid, e.gid, 1, 0, |e.data|, 0, 0, e.rdevmajor, e.rdevminor, |name| + 1, 0]
  }

  function TrailerValues(inode: nat): (r: seq<nat>)
    ensures |r| == 13 && r[11] == |TRAILER| + 1
  {
    [inode, 0x1ED, 0, 0, 1, 0, 0, 0, 0, 0, 0, 11, 0]
  }

  /** The header and name of an entry. */
  function EntryHead(inode: nat, name: Name, e: CpioEntry): Bytes { Header(EntryValues(inode, name, e)) + name + [0] }

  function TrailerHead(inode: nat): Bytes { Header(TrailerValues(inode)) + TRAILER + [0] }

  function EntryBytes(inode: nat, name: Name, e: CpioEntry): (r: Bytes)
    ensures Aligned(|r|, 4)
  {
    SumAligned(|Padded(EntryHead(inode, name, e))|, |Padded(e.data)|);
    Padded(EntryHead(inode, name, e)) + Padded(e.data)
  }

  predicate AllIn(names: seq<Name>, a: Archive) {
    forall i | 0 <= i < |names| :: names[i] in a
  }

  function EntriesBytes(a: Archive, names: seq<Name>, inode: nat): Bytes
    requires AllIn(names, a)
    decreases |names|
  {
    if names == [] then []
    else EntryBytes(inode, names[0], a[names[0]]) + EntriesBytes(a, names[1..], inode + 1)
  }

  lemma {:induction false} EntriesAligned(a: Archive, names: seq<Name>, inode: nat)
    requires AllIn(names, a)
    ensures Aligned(|EntriesBytes(a, names, inode)|, 4)
    decreases |names|
  {
    hide EntryBytes;
    if names == [] {
    } else {
      EntriesAligned(a, names[1..], inode + 1);
      SumAligned(|EntryBytes(inode, names[0], a[names[0]])|, |EntriesBytes(a, names[1..], inode + 1)|);
    }
  }

  lemma SumAligned(x: nat, y: nat)
    requires Aligned(x, 4) && Aligned(y, 4)
    ensures Aligned(x + y, 4)
  {
  }

  /** The archive file: entries in the order of the names, then the trailer. */
  function DumpOf(a: Archive, names: seq<Name>): Bytes
    requires AllIn(names, a)
  {
    EntriesBytes(a, names, FIRST_INODE) + Padded(TrailerHead(FIRST_INODE + |names|))
  }

  ghost function DumpBytes(a: Archive): Bytes {
    DumpOf(a, InOrder(a.Keys))
  }

  /** Appends a piece and the zeros that align the running position. */
  method WritePadded(file: Bytes, pos: nat, piece: Bytes) returns (file': Bytes, pos': nat)
    requires pos == |file| && Aligned(pos, 4)
    ensures file' == file + Padded(piece) && pos' == |file'| && Aligned(pos', 4)
  {
    pos' := pos + |piece|;
    AlignOffset(pos, |piece|);
    file' := file + piece + Zeros(Align4(pos') - pos');
    Associative(file, piece, Zeros(Align4(pos') - pos'));
    pos' := Align4(pos');
  }

  method WriteEntry(file: Bytes, pos: nat, inode: nat, name: Name, e: CpioEntry) returns (file': Bytes, pos': nat)
    requires pos == |file| && Aligned(pos, 4)
    ensures file' == file + EntryBytes(inode, name, e) && pos' == |file'| && Aligned(pos', 4)
  {
    file', pos' := WritePadded(file, pos, EntryHead(inode, name, e));
    file', pos' := WritePadded(file', pos', e.data);
    Associative(file, Padded(EntryHead(inode, name, e)), Padded(e.data));
  }

  method WriteEntries(a: Archive, names: seq<Name>) returns (file: Bytes, pos: nat)
    requires AllIn(names, a)
    ensures file == EntriesBytes(a, names, FIRST_INODE) && pos == |file| && Aligned(pos, 4)
  {
    hide EntryBytes, EntriesBytes, Aligned;
    file, pos := [], 0;
    var inode := FIRST_INODE;
    NoEntries(a, names[..0]);
    for i := 0 to |names|
      invariant pos == |file| && Aligned(pos, 4) && inode == FIRST_INODE + i
      invariant file == EntriesBytes(a, names[..i], FIRST_INODE)
    {
      EntriesAppend(a, names, i, FIRST_INODE);
      file, pos := WriteEntry(file, pos, inode, names[i], a[names[i]]);
      inode := inode + 1;
    }
    assert names[..|names|] == names;
  }

  lemma NoEntries(a: Archive, names: seq<Name>)
    requires names == []
    ensures EntriesBytes(a, names, FIRST_INODE) == [] && Aligned(0, 4)
  {
  }

  /** `dump`: the file grows piece by piece, padded by the running position. */
  method Dump(a: Archive) returns (file: Bytes)
    ensures file == DumpBytes(a)
  {
    hide TrailerHead, EntriesBytes, Padded, Aligned;
    var names := SortKeys(a.Keys);
    var pos;
    file, pos := WriteEntries(a, names);
    file, pos := WritePadded(file, pos, TrailerHead(FIRST_INODE + |names|));
  }

  lemma {:induction false} EntriesAppend(a: Archive, names: seq<Name>, i: nat, inode: nat)
    requires AllIn(names, a) && i < |names|
    ensures EntriesBytes(a, names[..i + 1], inode)
            == EntriesBytes(a, names[..i], inode) + EntryBytes(inode + i, names[i], a[names[i]])
    decreases i
  {
    hide EntryBytes;
    if i == 0 {
      assert names[..1][1..] == [];
    } else {
      EntriesAppend(a, names[1..], i - 1, inode + 1);
      assert names[..i + 1][1..] == names[1..][..i];
      assert names[..i][1..] == names[1..][..i - 1];
      Associative(EntryBytes(inode, names[0], a[names[0]]), EntriesBytes(a, names[1..][..i - 1], inode + 1),
                  EntryBytes(inode + i, names[i], a[names[i]]));
    }
  }

  lemma AlignOffset(a: nat, b: nat)
    requires Aligned(a, 4)
    ensures Align4(a + b) == a + Align4(b)
  {
  }

  // ----- load_from_data -----

  datatype LoadResult = Loaded(entries: Archive) | Invalid | OutOfBounds

  /** One round of the reading loop: where to go on and what was read, or how reading ends. */
  datatype Step = Next(pos: nat, name: Name, entry: Option<CpioEntry>) | Done | Bad | Beyond

  /** The first place the magic occurs at. */
  function FindMagic(b: Bytes): (r: Option<nat>)
    ensures r.Some? ==> r.value + 6 <= |b|
    decreases |b|
  {
    if |b| < 6 then None
    else if b[..6] == MAGIC then Some(0)
    else
      var r := FindMagic(b[1..]);
      if r.None? then None else Some(r.value + 1)
  }

  function ReadStep(data: Bytes, pos: nat): (r: Step)
    requires pos < |data|
    ensures r.Next? ==> r.pos > pos
  {
    if pos + HEADER_SIZE > |data| then Beyond
    else
      var header := data[pos..pos + HEADER_SIZE];
      if header[..6] != MAGIC || Field(header, 11).None? then Bad
      else
        var after := pos + HEADER_SIZE + Field(header, 11).value;
        if after > |data| then Beyond
        else
          var name := CString(data[pos + HEADER_SIZE..after]);
          if name.None? then Bad
          else if name.value == [46] || name.value == [46, 46] then Next(Align4(after), name.value, None)
          else if name.value == TRAILER then ReadTrailer(data, Align4(after))
          else ReadBody(data, header, Align4(after), name.value)
  }

  /** Archives can be concatenated: after a trailer, reading goes on at the next magic, if any. */
  function ReadTrailer(data: Bytes, pos: nat): (r: Step)
    ensures r.Next? ==> r.pos >= pos
  {
    if pos > |data| then Beyond
    else
      match FindMagic(data[pos..])
      case None => Done
      case Some(x) => Next(pos + x, TRAILER, None)
  }

  function ReadBody(data: Bytes, header: Bytes, pos: nat, name: Name): (r: Step)
    requires |header| == HEADER_SIZE
    ensures r.Next? ==> r.pos >= pos
  {
    var size, mode, uid, gid := Field(header, 6), Field(header, 1), Field(header, 2), Field(header, 3);
    var major, minor := Field(header, 9), Field(header, 10);
    if size.None? || mode.None? || uid.None? || gid.None? || major.None? || minor.None? then Bad
    else if pos + size.value > |data| then Beyond
    else Next(Align4(pos + size.value), name,
              Some(CpioEntry(mode.value, uid.value, gid.value, major.value, minor.value, data[pos..pos + size.value])))
  }

  function LoadFrom(data: Bytes, pos: nat, entries: Archive): LoadResult
    decreases if pos < |data| then |data| - pos else 0
  {
    if pos >= |data| then Loaded(entries)
    else
      match ReadStep(data, pos)
      case Done => Loaded(entries)
      case Bad => Invalid
      case Beyond => OutOfBounds
      case Next(next, name, entry) =>
        LoadFrom(data, next, if entry.Some? then entries[name := entry.value] else entries)
  }

  /** `load_from_data`: the loop over positions. */
  method LoadFromData(data: Bytes) returns (r: LoadResult)
    ensures r == LoadFrom(data, 0, map[])
  {
    hide ReadStep;
    var pos, entries: Archive := 0, map[];
    while pos < |data|
      invariant LoadFrom(data, pos, entries) == LoadFrom(data, 0, map[])
      decreases if pos < |data| then |data| - pos else 0
    {
      match ReadStep(data, pos)
      case Done => return Loaded(entries);
      case Bad => return Invalid;
      case Beyond => return OutOfBounds;
      case Next(next, name, entry) =>
        pos := next;
        if entry.Some? { entries := entries[name := entry.value]; }
    }
    r := Loaded(entries);
  }
}
