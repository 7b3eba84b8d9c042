/** Boot image layout: where `parse_image` finds the components and where `repack` puts them. */
module BootImage {
  import opened Common

  // ----- alignment -----

  /** `align_to` */
  function AlignTo(v: nat, a: nat): nat
    requires a > 0
  {
    (v + a - 1) / a * a
  }

  lemma QuotientIs(x: nat, a: nat, q: nat)
    requires a > 0 && q * a <= x < q * a + a
    ensures x / a == q && x % a == x - q * a
  {
    var p := x / a;
    assert p * a <= x < p * a + a;
    assert p < q ==> (p + 1) * a <= q * a;
    assert q < p ==> (q + 1) * a <= p * a;
  }

  /** Aligning moves up by less than one unit, to a multiple. */
  lemma AlignToIs(v: nat, a: nat)
    requires a > 0
    ensures v <= AlignTo(v, a) < v + a && Aligned(AlignTo(v, a), a)
  {
    var k := (v + a - 1) / a;
    assert k * a <= v + a - 1 < k * a + a;
    QuotientIs(k * a, a, k);
  }

  /** From an aligned position, only what is written counts. */
  lemma AlignToShift(base: nat, v: nat, a: nat)
    requires Aligned(base, a)
    ensures AlignTo(base + v, a) == base + AlignTo(v, a)
  {
    var m, k := base / a, (v + a - 1) / a;
    assert base == m * a;
    Distributes(m, k, a);
    assert k * a <= v + a - 1 < k * a + a;
    QuotientIs(base + v + a - 1, a, m + k);
  }

  lemma Distributes(m: nat, k: nat, a: nat)
    ensures (m + k) * a == m * a + k * a
  {
  }

  lemma AlignToAligned(v: nat, a: nat)
    requires Aligned(v, a)
    ensures AlignTo(v, a) == v
  {
    assert AlignTo(0, a) == 0 by { QuotientIs(a - 1, a, 0); }
    AlignToShift(v, 0, a);
  }

  // ----- headers -----

  datatype Part = Kernel | Ramdisk | Second | Extra | RecoveryDtbo | Dtb | Signature | RamdiskTable | Bootconfig

  /** The order of the components in an image. */
  const PARTS: seq<Part> := [Kernel, Ramdisk, Second, Extra, RecoveryDtbo, Dtb, Signature, RamdiskTable, Bootconfig]

  datatype Version = V0 | V1 | V2 | Pxa | V3 | V4 | VendorV3 | VendorV4

  /** Which size fields a header has. */
  predicate HasField(v: Version, p: Part) {
    match v
    case V0 => p in {Kernel, Ramdisk, Second, Extra}
    case V1 => p in {Kernel, Ramdisk, Second, RecoveryDtbo}
    case V2 => p in {Kernel, Ramdisk, Second, RecoveryDtbo, Dtb}
    case Pxa => p in {Kernel, Ramdisk, Second, Extra}
    case V3 => p in {Kernel, Ramdisk}
    case V4 => p in {Kernel, Ramdisk, Signature}
    case VendorV3 => p in {Ramdisk, Dtb}
    case VendorV4 => p in {Ramdisk, Dtb, RamdiskTable, Bootconfig}
  }

  predicate IsVendor(v: Version) { v == VendorV3 || v == VendorV4 }

  datatype Header = Header(version: Version, pageField: nat, headerSize: nat, sizes: map<Part, nat>) {
    predicate Valid() { pageField > 0 && forall p | p in sizes :: sizes[p] < TWO_TO_THE_32 }

    /** Versions 3 and 4 have no page size field. */
    function PageSize(): nat { if version == V3 || version == V4 then 4096 else pageField }

    function HeaderSpace(): nat
      requires Valid()
    {
      if IsVendor(version) then AlignTo(headerSize, PageSize()) else PageSize()
    }

    /** A missing field reads as zero. */
    function SizeOf(p: Part): nat { if HasField(version, p) && p in sizes then sizes[p] else 0 }

    /** Writing to a missing field is lost; fields have 32 bits. */
    function SetSize(p: Part, n: nat): Header {
      if HasField(version, p) then this.(sizes := sizes[p := n % TWO_TO_THE_32]) else this
    }
  }

  // ----- parsing -----

  /** Where component `i` starts, counted from the header. */
  function Offset(h: Header, i: nat): nat
    requires h.Valid() && i <= |PARTS|
  {
    if i == 0 then h.HeaderSpace() else AlignTo(Offset(h, i - 1) + h.SizeOf(PARTS[i - 1]), h.PageSize())
  }

  /** Components are page aligned, in order and disjoint. */
  lemma {:induction false} OffsetsInOrder(h: Header, i: nat)
    requires h.Valid() && i <= |PARTS|
    ensures Aligned(Offset(h, i), h.PageSize())
    ensures i > 0 ==> Offset(h, i - 1) + h.SizeOf(PARTS[i - 1]) <= Offset(h, i)
                      < Offset(h, i - 1) + h.SizeOf(PARTS[i - 1]) + h.PageSize()
  {
    if i == 0 {
      if IsVendor(h.version) {
        AlignToIs(h.headerSize, h.PageSize());
      } else {
        QuotientIs(h.PageSize(), h.PageSize(), 1);
      }
    } else {
      AlignToIs(Offset(h, i - 1) + h.SizeOf(PARTS[i - 1]), h.PageSize());
    }
  }

  lemma {:induction false} OffsetsGrow(h: Header, i: nat, j: nat)
    requires h.Valid() && i < j <= |PARTS|
    ensures Offset(h, i) + h.SizeOf(PARTS[i]) <= Offset(h, j)
    decreases j
  {
    OffsetsInOrder(h, j);
    if i == j - 1 {
    } else {
      OffsetsGrow(h, i, j - 1);
    }
  }

  /** A position between the first and the last bound lies between exactly two that follow each other. */
  ghost predicate InOneBlock(bounds: seq<nat>, p: nat) {
    && (exists i :: 0 <= i < |bounds| - 1 && InBlock(bounds, i, p))
    && (forall i, j | 0 <= i < |bounds| - 1 && 0 <= j < |bounds| - 1 && InBlock(bounds, i, p) && InBlock(bounds, j, p) ::
          i == j)
  }

  predicate InBlock(bounds: seq<nat>, i: nat, p: nat)
    requires i < |bounds| - 1
  {
    bounds[i] <= p < bounds[i + 1]
  }

  predicate Rising(bounds: seq<nat>) { forall i, j | 0 <= i < j < |bounds| :: bounds[i] <= bounds[j] }

  lemma {:induction false} RisingPartitions(bounds: seq<nat>, p: nat)
    requires Rising(bounds) && bounds != [] && bounds[0] <= p < bounds[|bounds| - 1]
    ensures InOneBlock(bounds, p)
  {
    var n := |bounds| - 1;
    if bounds[n - 1] <= p {
      assert InBlock(bounds, n - 1, p);
    } else {
      RisingPartitions(bounds[..n], p);
      var i :| 0 <= i < n - 1 && InBlock(bounds[..n], i, p);
      assert InBlock(bounds, i, p);
    }
  }

  /** Bounds divide a stretch: every position lies in exactly one block. */
  ghost predicate Divide(bounds: seq<nat>, start: nat, end: nat) {
    && |bounds| > 0 && bounds[0] == start && bounds[|bounds| - 1] == end && Rising(bounds)
    && forall p | start <= p < end :: InOneBlock(bounds, p)
  }

  /** Each component starts at a page and is followed by less than a page of padding. */
  predicate Padded(h: Header, bounds: seq<nat>)
    requires h.Valid()
  {
    && |bounds| == |PARTS| + 1
    && forall i | 0 <= i < |PARTS| ::
         && Aligned(bounds[i], h.PageSize())
         && bounds[i] + h.SizeOf(PARTS[i]) <= bounds[i + 1] < bounds[i] + h.SizeOf(PARTS[i]) + h.PageSize()
  }

  /** `parse_image`: the running offset, checked against the end of the map after every component. The padded components
      and the tail divide the map behind the header. */
  method ParseImage(h: Header, base: nat, mapEnd: nat) returns (ok: bool, offsets: seq<nat>, payload: nat)
    requires h.Valid()
    ensures ok <==> base + Offset(h, |PARTS|) <= mapEnd
    ensures ok ==> |offsets| == |PARTS| && payload == Offset(h, |PARTS|)
    ensures ok ==> forall i | 0 <= i < |PARTS| :: offsets[i] == Offset(h, i)
    ensures ok ==> Padded(h, offsets + [payload])
    ensures ok ==> Divide(offsets + [payload, mapEnd - base], h.HeaderSpace(), mapEnd - base)
  {
    hide HasField, AlignTo, Padded, Divide;
    var off := h.HeaderSpace();
    offsets := [];
    for i := 0 to |PARTS|
      invariant |offsets| == i && off == Offset(h, i) && (i > 0 ==> base + off <= mapEnd)
      invariant forall k | 0 <= k < i :: offsets[k] == Offset(h, k)
    {
      offsets := offsets + [off];
      off := AlignTo(off + h.SizeOf(PARTS[i]), h.PageSize());
      if base + off > mapEnd {
        if i + 1 < |PARTS| { OffsetsGrow(h, i + 1, |PARTS|); }
        return false, [], 0;
      }
    }
    hide Offset;
    OffsetsArePadded(h, offsets + [off]);
    OffsetsDivide(h, offsets + [off, mapEnd - base]);
    return true, offsets, off;
  }

  lemma OffsetsArePadded(h: Header, bounds: seq<nat>)
    requires h.Valid() && |bounds| == |PARTS| + 1 && forall i | 0 <= i <= |PARTS| :: bounds[i] == Offset(h, i)
    ensures Padded(h, bounds)
  {
    hide HasField, AlignTo, Aligned, Offset;
    forall i | 0 <= i < |PARTS|
      ensures && Aligned(bounds[i], h.PageSize())
              && bounds[i] + h.SizeOf(PARTS[i]) <= bounds[i + 1] < bounds[i] + h.SizeOf(PARTS[i]) + h.PageSize()
    {
      OffsetsInOrder(h, i);
      OffsetsInOrder(h, i + 1);
    }
  }

  lemma OffsetsDivide(h: Header, bounds: seq<nat>)
    requires h.Valid() && |bounds| == |PARTS| + 2 && Offset(h, |PARTS|) <= bounds[|PARTS| + 1]
    requires forall i | 0 <= i <= |PARTS| :: bounds[i] == Offset(h, i)
    ensures Divide(bounds, h.HeaderSpace(), bounds[|PARTS| + 1])
  {
    assert Offset(h, 0) == h.HeaderSpace();
    hide HasField, AlignTo, Offset, InOneBlock;
    forall i, j | 0 <= i < j < |bounds| ensures bounds[i] <= bounds[j] {
      if j <= |PARTS| {
        OffsetsGrow(h, i, j);
      } else if i < |PARTS| {
        OffsetsGrow(h, i, |PARTS|);
      }
    }
    forall p | h.HeaderSpace() <= p < bounds[|PARTS| + 1] ensures InOneBlock(bounds, p) { RisingPartitions(bounds, p); }
  }

  // ----- repacking -----

  /** `file_align`: zeros up to the next page, counted from the header. */
  function Padding(written: nat, page: nat): (r: Bytes)
    requires page > 0
    ensures |r| == AlignTo(written, page) - written
  {
    AlignToIs(written, page);
    Zeros(AlignTo(written, page) - written)
  }

  /** The component files to store, already in the form they are written in; the kernel is always written. */
  type Files = map<Part, Bytes>

  function Stored(files: Files, p: Part): Bytes { if p in files then files[p] else [] }

  /** The image after the first `i` components, from the header on. */
  function Image(head: Bytes, page: nat, files: Files, i: nat): Bytes
    requires page > 0 && i <= |PARTS|
  {
    if i == 0 then head
    else
      var before := Image(head, page, files, i - 1);
      if PARTS[i - 1] in files then
        var written := before + files[PARTS[i - 1]];
        written + Padding(|written|, page)
      else before
  }

  /** Sizes that `repack` starts from: all but those of the extra block, the recovery DTBO and the fixed tables. */
  function Reset(h: Header): Header {
    h.SetSize(Kernel, 0).SetSize(Ramdisk, 0).SetSize(Second, 0).SetSize(Dtb, 0).SetSize(Bootconfig, 0)
  }

  predicate Fixed(p: Part) { p == Signature || p == RamdiskTable }

  /** The header after the first `i` components. */
  function NewHeader(h: Header, files: Files, i: nat): Header
    requires i <= |PARTS|
  {
    if i == 0 then Reset(h)
    else
      var before := NewHeader(h, files, i - 1);
      var p := PARTS[i - 1];
      if p in files && !Fixed(p) then before.SetSize(p, |files[p]|) else before
  }

  /** `repack`: components are written behind the header, each followed by padding, and their sizes recorded. */
  method Repack(h: Header, pre: Bytes, head: Bytes, files: Files) returns (out: Bytes, h': Header)
    requires h.Valid() && |head| == h.HeaderSpace()
    ensures out == pre + Image(head, h.PageSize(), files, |PARTS|)
    ensures h' == NewHeader(h, files, |PARTS|)
  {
    h' := Reset(h);
    out := pre + head;
    for i := 0 to |PARTS|
      invariant out == pre + Image(head, h.PageSize(), files, i) && h' == NewHeader(h, files, i)
    {
      hide AlignTo, HasField;
      var p := PARTS[i];
      if p in files {
        ghost var before := Image(head, h.PageSize(), files, i);
        Associative(pre, before, files[p]);
        out := out + files[p];
        var padding := Padding(|out| - |pre|, h.PageSize());
        Associative(pre, before + files[p], padding);
        out := out + padding;
        if !Fixed(p) {
          h' := h'.SetSize(p, |files[p]|);
        }
      }
    }
  }

  /** The block the new header describes, in the new image. */
  predicate Recovers(image: Bytes, h: Header, files: Files, i: nat)
    requires h.Valid() && i < |PARTS|
  {
    var p := PARTS[i];
    && h.SizeOf(p) == |Stored(files, p)| && Offset(h, i) + h.SizeOf(p) <= |image|
    && image[Offset(h, i)..Offset(h, i) + h.SizeOf(p)] == Stored(files, p)
  }

  /** Files and source header fit: every non-empty file has a size field that holds its size, and sizes that are
      not reset belong to a file that is there. */
  predicate Fit(h: Header, files: Files, p: Part) {
    && (Stored(files, p) != [] ==> HasField(h.version, p) && |Stored(files, p)| < TWO_TO_THE_32)
    && (p in {Extra, RecoveryDtbo} && p !in files ==> h.SizeOf(p) == 0)
    && (Fixed(p) ==> h.SizeOf(p) == |Stored(files, p)|)
  }

  lemma SetSizeKeeps(h: Header, p: Part, n: nat, q: Part)
    ensures h.SetSize(p, n).version == h.version && h.SetSize(p, n).pageField == h.pageField
    ensures h.SetSize(p, n).headerSize == h.headerSize
    ensures h.SetSize(p, n).SizeOf(q) == if p == q then (if HasField(h.version, p) then n % TWO_TO_THE_32 else 0) else h.SizeOf(q)
  {
    hide HasField;
  }

  lemma ResetSizes(h: Header, q: Part)
    ensures Reset(h).version == h.version && Reset(h).pageField == h.pageField && Reset(h).headerSize == h.headerSize
    ensures Reset(h).SizeOf(q) == if q in {Kernel, Ramdisk, Second, Dtb, Bootconfig} then 0 else h.SizeOf(q)
  {
    hide Header.SetSize, Header.SizeOf;
    var a := h.SetSize(Kernel, 0);
    var b := a.SetSize(Ramdisk, 0);
    var c := b.SetSize(Second, 0);
    var d := c.SetSize(Dtb, 0);
    SetSizeKeeps(h, Kernel, 0, q);
    SetSizeKeeps(a, Ramdisk, 0, q);
    SetSizeKeeps(b, Second, 0, q);
    SetSizeKeeps(c, Dtb, 0, q);
    SetSizeKeeps(d, Bootconfig, 0, q);
  }

  /** What size the new header gives a component. */
  function NewSize(h: Header, files: Files, p: Part): nat {
    if p in files && !Fixed(p) then (if HasField(h.version, p) then |files[p]| % TWO_TO_THE_32 else 0)
    else if p in {Kernel, Ramdisk, Second, Dtb, Bootconfig} then 0
    else h.SizeOf(p)
  }

  lemma {:induction false} NewHeaderValid(h: Header, files: Files, i: nat)
    requires h.Valid() && i <= |PARTS|
    ensures NewHeader(h, files, i).Valid()
  {
    if i == 0 {
    } else {
      NewHeaderValid(h, files, i - 1);
    }
  }

  /** Where a component stands in the order. */
  function IndexOf(p: Part): (i: nat)
    ensures i < |PARTS|
  {
    match p
    case Kernel => 0
    case Ramdisk => 1
    case Second => 2
    case Extra => 3
    case RecoveryDtbo => 4
    case Dtb => 5
    case Signature => 6
    case RamdiskTable => 7
    case Bootconfig => 8
  }

  lemma PartAtIndex(p: Part)
    ensures PARTS[IndexOf(p)] == p
  {
  }

  lemma IndexOfPart(i: nat)
    requires i < |PARTS|
    ensures IndexOf(PARTS[i]) == i
  {
  }

  lemma {:induction false} NewHeaderSizes(h: Header, files: Files, i: nat, q: Part)
    requires i <= |PARTS|
    ensures var n := NewHeader(h, files, i);
            && n.version == h.version && n.pageField == h.pageField && n.headerSize == h.headerSize
            && n.SizeOf(q) == if IndexOf(q) < i then NewSize(h, files, q) else Reset(h).SizeOf(q)
  {
    hide Header.SetSize, Header.SizeOf, HasField, Reset, IndexOf;
    ResetSizes(h, q);
    if i == 0 {
    } else {
      NewHeaderSizes(h, files, i - 1, q);
      var p := PARTS[i - 1];
      IndexOfPart(i - 1);
      PartAtIndex(q);
      if p in files && !Fixed(p) { SetSizeKeeps(NewHeader(h, files, i - 1), p, |files[p]|, q); }
    }
  }

  lemma FinalSizes(h: Header, files: Files, q: Part)
    ensures var n := NewHeader(h, files, |PARTS|);
            && n.version == h.version && n.pageField == h.pageField && n.headerSize == h.headerSize
            && n.SizeOf(q) == NewSize(h, files, q)
  {
    NewHeaderSizes(h, files, |PARTS|, q);
  }

  /** A size is right exactly if the file fits. */
  lemma SizeIsRight(h: Header, files: Files, p: Part)
    requires h.Valid()
    ensures NewSize(h, files, p) == |Stored(files, p)| <==> Fit(h, files, p)
  {
  }

  /** With right sizes every component starts where it was written. */
  lemma {:induction false} ImageOffsets(h: Header, n: Header, head: Bytes, files: Files, i: nat)
    requires h.Valid() && n.Valid() && |head| == h.HeaderSpace() && i <= |PARTS|
    requires n.version == h.version && n.pageField == h.pageField && n.headerSize == h.headerSize
    requires forall k | 0 <= k < |PARTS| :: n.SizeOf(PARTS[k]) == |Stored(files, PARTS[k])|
    ensures |Image(head, h.PageSize(), files, i)| == Offset(n, i)
  {
    hide AlignTo, HasField, Header.SizeOf, Header.HeaderSpace;
    if i == 0 {
      assert n.HeaderSpace() == h.HeaderSpace() by { SameSpace(h, n); }
    } else {
      hide Image, Offset, Aligned;
      ImageOffsets(h, n, head, files, i - 1);
      ImageStep(head, h.PageSize(), files, i);
      OffsetStep(n, i);
      if PARTS[i - 1] !in files {
        OffsetsInOrder(n, i - 1);
        AlignToAligned(Offset(n, i - 1), n.PageSize());
      }
    }
  }

  lemma ImageStep(head: Bytes, page: nat, files: Files, i: nat)
    requires page > 0 && 0 < i <= |PARTS|
    ensures var before := |Image(head, page, files, i - 1)|;
            |Image(head, page, files, i)|
            == if PARTS[i - 1] in files then AlignTo(before + |files[PARTS[i - 1]]|, page) else before
  {
    hide AlignTo, Padding;
  }

  lemma OffsetStep(h: Header, i: nat)
    requires h.Valid() && 0 < i <= |PARTS|
    ensures Offset(h, i) == AlignTo(Offset(h, i - 1) + h.SizeOf(PARTS[i - 1]), h.PageSize())
  {
  }

  lemma SameSpace(h: Header, n: Header)
    requires h.Valid() && n.Valid()
    requires n.version == h.version && n.pageField == h.pageField && n.headerSize == h.headerSize
    ensures n.HeaderSpace() == h.HeaderSpace()
  {
  }

  lemma {:induction false} ImageGrows(head: Bytes, page: nat, files: Files, i: nat, j: nat)
    requires page > 0 && i <= j <= |PARTS|
    ensures Image(head, page, files, i) <= Image(head, page, files, j)
    decreases j
  {
    if i == j {
    } else {
      ImageGrows(head, page, files, i, j - 1);
    }
  }

  predicate AllFit(h: Header, files: Files) { forall i | 0 <= i < |PARTS| :: Fit(h, files, PARTS[i]) }

  predicate AllRecovered(image: Bytes, h: Header, files: Files)
    requires h.Valid()
  {
    forall i | 0 <= i < |PARTS| :: Recovers(image, h, files, i)
  }

  /** The blocks of a repacked image are the stored components exactly if all files fit the header. */
  lemma RepackParses(h: Header, head: Bytes, files: Files)
    requires h.Valid() && |head| == h.HeaderSpace()
    ensures var n := NewHeader(h, files, |PARTS|);
            var image := Image(head, h.PageSize(), files, |PARTS|);
            && n.Valid()
            && (AllRecovered(image, n, files) <==> AllFit(h, files))
  {
    hide AlignTo, HasField, Header.SizeOf, NewHeader, Image, Offset, Fit, NewSize;
    var n := NewHeader(h, files, |PARTS|);
    var image := Image(head, h.PageSize(), files, |PARTS|);
    NewHeaderValid(h, files, |PARTS|);
    forall i | 0 <= i < |PARTS| ensures (n.SizeOf(PARTS[i]) == |Stored(files, PARTS[i])| <==> Fit(h, files, PARTS[i])) {
      FinalSizes(h, files, PARTS[i]);
      SizeIsRight(h, files, PARTS[i]);
    }
    FinalSizes(h, files, Kernel);
    if AllFit(h, files) {
      forall i | 0 <= i < |PARTS| ensures Recovers(image, n, files, i) {
        BlockIsStored(h, n, head, files, i);
      }
    }
    if AllRecovered(image, n, files) {
      forall i | 0 <= i < |PARTS| ensures Fit(h, files, PARTS[i]) {
        assert Recovers(image, n, files, i);
      }
    }
  }

  /** A component whose file is missing is not recovered where the header keeps its size. */
  lemma MissingFileNotRecovered(head: Bytes)
    requires |head| == 2048
    ensures var h := Header(V1, 2048, 1648, map[RecoveryDtbo := 5]);
            var n := NewHeader(h, map[], |PARTS|);
            n.Valid() && !AllRecovered(Image(head, 2048, map[], |PARTS|), n, map[])
  {
    hide NewHeader, Image, AllRecovered;
    var h := Header(V1, 2048, 1648, map[RecoveryDtbo := 5]);
    RepackParses(h, head, map[]);
    assert PARTS[4] == RecoveryDtbo && !Fit(h, map[], PARTS[4]);
  }

  lemma BlockIsStored(h: Header, n: Header, head: Bytes, files: Files, i: nat)
    requires h.Valid() && n.Valid() && |head| == h.HeaderSpace() && i < |PARTS|
    requires n.version == h.version && n.pageField == h.pageField && n.headerSize == h.headerSize
    requires forall k | 0 <= k < |PARTS| :: n.SizeOf(PARTS[k]) == |Stored(files, PARTS[k])|
    ensures Recovers(Image(head, h.PageSize(), files, |PARTS|), n, files, i)
  {
    hide AlignTo, HasField, Header.SizeOf, Offset, Image;
    var page := h.PageSize();
    ImageOffsets(h, n, head, files, i);
    var before, after, image := Image(head, page, files, i), Image(head, page, files, i + 1), Image(head, page, files, |PARTS|);
    ImageGrows(head, page, files, i + 1, |PARTS|);
    ImageGrows(head, page, files, i, |PARTS|);
    if PARTS[i] in files {
      var c := files[PARTS[i]];
      StepHolds(head, page, files, i);
      PrefixSlice(after, image, |before|, |before| + |c|);
    }
  }

  lemma StepHolds(head: Bytes, page: nat, files: Files, i: nat)
    requires page > 0 && i < |PARTS| && PARTS[i] in files
    ensures var before, after, c := Image(head, page, files, i), Image(head, page, files, i + 1), files[PARTS[i]];
            |before| + |c| <= |after| && after[|before|..|before| + |c|] == c
  {
    hide AlignTo;
    var before, c := Image(head, page, files, i), files[PARTS[i]];
    Middle(before, c, Padding(|before + c|, page));
  }

  lemma PrefixSlice(a: Bytes, b: Bytes, lo: nat, hi: nat)
    requires a <= b && lo <= hi <= |a|
    ensures b[lo..hi] == a[lo..hi]
  {
  }
}
