/** Ramdisk backups: `backup` stores the difference to an original archive inside the archive,
    `restore` undoes it. */
module CpioBackup {
  import opened Common
  import opened NameOrder
  import opened CpioFormat

  const SLASH: Byte := 47
  const BACKUP: Bytes := [46, 98, 97, 99, 107, 117, 112]    // .backup
  const PREFIX: Bytes := BACKUP + [SLASH]
  const RMLIST: Bytes := [46, 114, 109, 108, 105, 115, 116] // .rmlist
  const MAGISK: Bytes := [46, 109, 97, 103, 105, 115, 107]  // .magisk
  const XZ: Bytes := [46, 120, 122]                         // .xz
  const S_IFDIR: nat := 0x4000
  const S_IFREG: nat := 0x8000

  /** `mode & S_IFMT == S_IFREG` */
  predicate IsRegular(mode: nat) { mode / 0x1000 % 16 == 8 }

  /** The xz library: `None` where it reports failure. */
  datatype XzCodec = XzCodec(compress: Bytes -> Option<Bytes>, decompress: Bytes -> Option<Bytes>) {
    ghost predicate Valid() {
      forall d: Bytes {:trigger compress(d)} | compress(d).Some? :: decompress(compress(d).value) == Some(d)
    }
  }

  // ----- splitting, joining and normal paths -----

  function Split(s: Bytes, sep: Byte): (r: seq<Bytes>)
    ensures |r| > 0
    decreases |s|
  {
    if s == [] then [[]]
    else
      var r := Split(s[1..], sep);
      if s[0] == sep then [[]] + r else [[s[0]] + r[0]] + r[1..]
  }

  function NonEmpty(pieces: seq<Bytes>): seq<Bytes> {
    if pieces == [] then []
    else if pieces[0] == [] then NonEmpty(pieces[1..])
    else [pieces[0]] + NonEmpty(pieces[1..])
  }

  function Join(pieces: seq<Bytes>, sep: Byte): Bytes {
    if pieces == [] then []
    else if |pieces| == 1 then pieces[0]
    else pieces[0] + [sep] + Join(pieces[1..], sep)
  }

  function NormPath(path: Bytes): Bytes {
    Join(NonEmpty(Split(path, SLASH)), SLASH)
  }

  lemma {:induction false} SplitPieces(s: Bytes, sep: Byte)
    ensures forall i | 0 <= i < |Split(s, sep)| :: sep !in Split(s, sep)[i]
    decreases |s|
  {
    if s == [] {
    } else {
      SplitPieces(s[1..], sep);
    }
  }

  lemma {:induction false} SplitPiece(p: Bytes, sep: Byte, rest: Bytes)
    requires sep !in p
    ensures Split(p + [sep] + rest, sep) == [p] + Split(rest, sep)
    decreases |p|
  {
    var s := p + [sep] + rest;
    if p == [] {
      assert s[1..] == rest;
    } else {
      SplitPiece(p[1..], sep, rest);
      assert s[1..] == p[1..] + [sep] + rest;
      assert [p[0]] + p[1..] == p;
    }
  }

  lemma {:induction false} SplitAlone(p: Bytes, sep: Byte)
    requires sep !in p
    ensures Split(p, sep) == [p]
    decreases |p|
  {
    if p == [] {
    } else {
      SplitAlone(p[1..], sep);
      assert [p[0]] + p[1..] == p;
    }
  }

  lemma {:induction false} SplitJoin(pieces: seq<Bytes>, sep: Byte)
    requires |pieces| > 0 && forall i | 0 <= i < |pieces| :: sep !in pieces[i]
    ensures Split(Join(pieces, sep), sep) == pieces
    decreases |pieces|
  {
    if |pieces| == 1 {
      SplitAlone(pieces[0], sep);
    } else {
      SplitJoin(pieces[1..], sep);
      SplitPiece(pieces[0], sep, Join(pieces[1..], sep));
    }
  }

  lemma {:induction false} NonEmptyPieces(pieces: seq<Bytes>, sep: Byte)
    requires forall i | 0 <= i < |pieces| :: sep !in pieces[i]
    ensures forall i | 0 <= i < |NonEmpty(pieces)| :: sep !in NonEmpty(pieces)[i]
    ensures NonEmpty(NonEmpty(pieces)) == NonEmpty(pieces)
  {
    if pieces == [] {
    } else {
      NonEmptyPieces(pieces[1..], sep);
    }
  }

  /** Normalising twice is normalising once. */
  lemma NormPathIdempotent(path: Bytes)
    ensures NormPath(NormPath(path)) == NormPath(path)
  {
    var pieces := NonEmpty(Split(path, SLASH));
    SplitPieces(path, SLASH);
    NonEmptyPieces(Split(path, SLASH), SLASH);
    if pieces != [] {
      SplitJoin(pieces, SLASH);
    } else {
      assert NonEmpty([[]]) == NonEmpty([]);
    }
  }

  lemma NormOfPlain(name: Bytes)
    requires name != [] && SLASH !in name
    ensures NormPath(name) == name
  {
    SplitAlone(name, SLASH);
    assert NonEmpty([name]) == [name] + NonEmpty([]);
  }

  // ----- removing entries -----

  predicate InBackup(name: Name) { PREFIX <= name }

  /** `rm(path, recursive)` */
  function Remove(a: Archive, path: Bytes, recursive: bool): Archive {
    var p := NormPath(path);
    map name | name in a && name != p && (recursive ==> !(p + [SLASH] <= name)) :: a[name]
  }

  /** The archive without any backup inside it. */
  function Stripped(a: Archive): Archive {
    map name | name in a && name != BACKUP && !InBackup(name) :: a[name]
  }

  lemma RemoveBackup(a: Archive)
    ensures Remove(a, BACKUP, true) == Stripped(a)
    ensures NormPath(BACKUP) == BACKUP
  {
    NormOfPlain(BACKUP);
  }

  // ----- the merge walk -----

  datatype Merged = Merged(saved: seq<Name>, added: seq<Name>)

  /** The walk over both archives in name order: what to save of the original, what to record as new. */
  function Merge(o: Archive, s: Archive, ls: seq<Name>, rs: seq<Name>): Merged
    requires AllIn(ls, o) && AllIn(rs, s)
    decreases |ls| + |rs|
  {
    if ls == [] && rs == [] then Merged([], [])
    else if rs == [] || (ls != [] && Less(ls[0], rs[0])) then
      var m := Merge(o, s, ls[1..], rs);
      Merged([ls[0]] + m.saved, m.added)
    else if ls == [] || Less(rs[0], ls[0]) then
      var m := Merge(o, s, ls, rs[1..]);
      Merged(m.saved, [rs[0]] + m.added)
    else
      var m := Merge(o, s, ls[1..], rs[1..]);
      if s[rs[0]].data != o[ls[0]].data then Merged([ls[0]] + m.saved, m.added) else m
  }

  /** A name of the original that the archive lacks or has with other data. */
  predicate Differs(o: Archive, s: Archive, name: Name)
    requires name in o
  {
    name !in s || s[name].data != o[name].data
  }

  lemma BeforeAll(x: Name, names: seq<Name>)
    requires Sorted(names) && (names != [] ==> Less(x, names[0]))
    ensures x !in names
  {
    if x in names {
      var i :| 0 <= i < |names| && names[i] == x;
      if i > 0 { LessTransitive(x, names[0], names[i]); }
      LessIrreflexive(x);
    }
  }

  lemma SortedTail(names: seq<Name>)
    requires Sorted(names) && names != []
    ensures Sorted(names[1..]) && names[0] !in names[1..]
    ensures forall n :: n in names <==> n == names[0] || n in names[1..]
  {
    BeforeAll(names[0], names[1..]);
    assert names == [names[0]] + names[1..];
  }

  /** The walk compares the two archives exactly. */
  lemma {:induction false} MergeCompares(o: Archive, s: Archive, ls: seq<Name>, rs: seq<Name>)
    requires AllIn(ls, o) && AllIn(rs, s) && Sorted(ls) && Sorted(rs)
    ensures var m := Merge(o, s, ls, rs);
            && (forall n :: n in m.saved <==> n in ls && (n !in rs || s[n].data != o[n].data))
            && (forall n :: n in m.added <==> n in rs && n !in ls)
            && Sorted(m.saved) && Sorted(m.added)
            && (m.saved != [] ==> m.saved[0] in ls) && (m.added != [] ==> m.added[0] in rs)
    decreases |ls| + |rs|
  {
    if ls == [] && rs == [] {
    } else if rs == [] || (ls != [] && Less(ls[0], rs[0])) {
      SortedTail(ls);
      MergeCompares(o, s, ls[1..], rs);
      BeforeAll(ls[0], rs);
      SortedCons(ls[0], Merge(o, s, ls[1..], rs).saved, ls);
    } else if ls == [] || Less(rs[0], ls[0]) {
      SortedTail(rs);
      MergeCompares(o, s, ls, rs[1..]);
      BeforeAll(rs[0], ls);
      SortedCons(rs[0], Merge(o, s, ls, rs[1..]).added, rs);
    } else {
      LessTotal(ls[0], rs[0]);
      SortedTail(ls);
      SortedTail(rs);
      MergeCompares(o, s, ls[1..], rs[1..]);
      SortedCons(ls[0], Merge(o, s, ls[1..], rs[1..]).saved, ls);
    }
  }

  lemma SortedCons(x: Name, names: seq<Name>, from: seq<Name>)
    requires Sorted(from) && from != [] && from[0] == x
    requires Sorted(names) && forall n | n in names :: n in from[1..]
    ensures Sorted([x] + names)
  {
    forall j | 0 <= j < |names| ensures Less(x, names[j]) {
      assert names[j] in from[1..];
    }
  }

  // ----- inserting into a hash map, one pair after the other -----

  function FromPairs(pairs: seq<(Name, CpioEntry)>): Archive {
    if pairs == [] then map[]
    else FromPairs(pairs[..|pairs| - 1])[pairs[|pairs| - 1].0 := pairs[|pairs| - 1].1]
  }

  ghost predicate DistinctKeys(pairs: seq<(Name, CpioEntry)>) {
    forall i, j | 0 <= i < j < |pairs| :: pairs[i].0 != pairs[j].0
  }

  lemma {:induction false} FromPairsKeys(pairs: seq<(Name, CpioEntry)>, name: Name)
    ensures name in FromPairs(pairs) <==> exists i :: 0 <= i < |pairs| && pairs[i].0 == name
  {
    if pairs == [] {
    } else {
      var init := pairs[..|pairs| - 1];
      FromPairsKeys(init, name);
      if name in FromPairs(init) {
        var i :| 0 <= i < |init| && init[i].0 == name;
        assert pairs[i].0 == name;
      }
    }
  }

  lemma {:induction false} FromPairsAt(pairs: seq<(Name, CpioEntry)>, i: nat)
    requires DistinctKeys(pairs) && i < |pairs|
    ensures pairs[i].0 in FromPairs(pairs) && FromPairs(pairs)[pairs[i].0] == pairs[i].1
  {
    if i == |pairs| - 1 {
    } else {
      FromPairsAt(pairs[..|pairs| - 1], i);
    }
  }

  // ----- backup -----

  predicate Packed(xz: XzCodec, skip: bool, e: CpioEntry) {
    !skip && IsRegular(e.mode) && xz.compress(e.data).Some?
  }

  /** The backup of one entry: compressed, with `.xz` added, where that is wanted and works. */
  function Saved(xz: XzCodec, skip: bool, name: Name, e: CpioEntry): (Name, CpioEntry) {
    if Packed(xz, skip, e)
    then (PREFIX + name + XZ, e.(data := xz.compress(e.data).value))
    else (PREFIX + name, e)
  }

  function SavedAll(xz: XzCodec, skip: bool, o: Archive, names: seq<Name>): (r: seq<(Name, CpioEntry)>)
    requires AllIn(names, o)
    ensures |r| == |names|
    ensures forall i | 0 <= i < |names| :: r[i] == Saved(xz, skip, names[i], o[names[i]])
  {
    seq(|names|, i requires 0 <= i < |names| => Saved(xz, skip, names[i], o[names[i]]))
  }

  /** The list of new names, each ended by a NUL. */
  function RmList(names: seq<Name>): Bytes {
    if names == [] then [] else names[0] + [0] + RmList(names[1..])
  }

  function RmListEntry(added: seq<Name>): Archive {
    if added == [] then map[] else map[PREFIX + RMLIST := CpioEntry(S_IFREG, 0, 0, 0, 0, RmList(added))]
  }

  function WithBackup(xz: XzCodec, skip: bool, s: Archive, o: Archive, m: Merged): Archive
    requires AllIn(m.saved, o)
  {
    s + map[BACKUP := CpioEntry(S_IFDIR, 0, 0, 0, 0, [])] + FromPairs(SavedAll(xz, skip, o, m.saved))
    + RmListEntry(m.added)
  }

  ghost function Compared(o: Archive, s: Archive): (m: Merged)
    ensures AllIn(m.saved, o)
  {
    MergeCompares(o, s, InOrder(o.Keys), InOrder(s.Keys));
    Merge(o, s, InOrder(o.Keys), InOrder(s.Keys))
  }

  ghost function Backup(xz: XzCodec, skip: bool, a: Archive, origin: Archive): Archive {
    var o, s := Stripped(origin), Stripped(a);
    WithBackup(xz, skip, s, o, Compared(o, s))
  }

  // ----- restore -----

  predicate EndsWithXz(name: Name) { |name| >= 3 && name[|name| - 3..] == XZ }

  lemma XzNameIsLong(name: Name)
    requires InBackup(name) && EndsWithXz(name)
    ensures |name| >= 11
  {
    assert name[..8] == PREFIX;
    assert name[7] == SLASH && name[6] == 112;
    assert forall i | |name| - 3 <= i < |name| :: name[i] == XZ[i - (|name| - 3)];
  }

  /** What one backup entry restores. */
  function Restored(xz: XzCodec, name: Name, e: CpioEntry): (Name, CpioEntry)
    requires InBackup(name)
  {
    if EndsWithXz(name) && IsRegular(e.mode) && xz.decompress(e.data).Some?
    then XzNameIsLong(name); (name[8..|name| - 3], e.(data := xz.decompress(e.data).value))
    else (name[8..], e)
  }

  predicate IsPayload(name: Name) { InBackup(name) && name != PREFIX + RMLIST && name != PREFIX + MAGISK }

  predicate AllPayload(names: seq<Name>) { forall i | 0 <= i < |names| :: IsPayload(names[i]) }

  function RestoredAll(xz: XzCodec, a: Archive, names: seq<Name>): (r: seq<(Name, CpioEntry)>)
    requires AllIn(names, a) && AllPayload(names)
    ensures |r| == |names|
    ensures forall i | 0 <= i < |names| :: r[i] == Restored(xz, names[i], a[names[i]])
  {
    seq(|names|, i requires 0 <= i < |names| => Restored(xz, names[i], a[names[i]]))
  }

  function ReadRmList(a: Archive): Bytes {
    if PREFIX + RMLIST in a && Utf8(a[PREFIX + RMLIST].data) then a[PREFIX + RMLIST].data else []
  }

  /** The names a removal list asks to remove, after `rm` has normalised them. */
  function Doomed(rmList: Bytes): set<Name> {
    set piece | piece in Split(rmList, 0) && piece != [] :: NormPath(piece)
  }

  ghost function PayloadNames(a: Archive): (r: seq<Name>)
    ensures AllIn(r, a) && AllPayload(r) && Sorted(r)
    ensures forall n :: n in r <==> n in a && IsPayload(n)
  {
    var names := set name | name in a && IsPayload(name);
    var r := InOrder(names);
    assert forall i | 0 <= i < |r| :: r[i] in names;
    r
  }

  ghost function Restore(xz: XzCodec, a: Archive): Archive {
    var backups := FromPairs(RestoredAll(xz, a, PayloadNames(a)));
    var rmList := ReadRmList(a);
    if rmList == [] && backups == map[] then map[]
    else (Stripped(a) - Doomed(rmList)) + backups
  }

  // ----- when restore undoes backup -----

  /** A file saved as it is that `restore` would take for one it compressed itself. */
  predicate LooksPacked(xz: XzCodec, name: Name, e: CpioEntry) {
    EndsWithXz(name) && IsRegular(e.mode) && xz.decompress(e.data).Some?
  }

  /** The name under which an entry is saved leads back to that entry. */
  predicate Fits(xz: XzCodec, skip: bool, name: Name, e: CpioEntry) {
    Packed(xz, skip, e) || (name != RMLIST && name != MAGISK && !LooksPacked(xz, name, e))
  }

  /** Two entries saved under one name. */
  predicate Clash(xz: XzCodec, skip: bool, n: Name, e: CpioEntry, k: Name, f: CpioEntry) {
    Packed(xz, skip, e) && !Packed(xz, skip, f) && k == n + XZ
  }

  ghost predicate SavedApart(xz: XzCodec, skip: bool, o: Archive, saved: seq<Name>)
    requires AllIn(saved, o)
  {
    && (forall i | 0 <= i < |saved| :: Fits(xz, skip, saved[i], o[saved[i]]))
    && (forall i, j | 0 <= i < |saved| && 0 <= j < |saved| ::
          !Clash(xz, skip, saved[i], o[saved[i]], saved[j], o[saved[j]]))
  }

  /** A name `rm` finds again in the removal list. */
  predicate Removable(name: Name) { name != [] && NormPath(name) == name }

  ghost predicate Recoverable(xz: XzCodec, skip: bool, o: Archive, m: Merged)
    requires AllIn(m.saved, o)
  {
    SavedApart(xz, skip, o, m.saved) && forall i | 0 <= i < |m.added| :: Removable(m.added[i])
  }

  /** Names are Rust strings read from C strings: UTF-8 without a NUL. */
  predicate TextNames(names: seq<Name>) {
    forall i | 0 <= i < |names| :: 0 !in names[i] && Utf8(names[i])
  }

  lemma SavedName(xz: XzCodec, skip: bool, name: Name, e: CpioEntry)
    requires xz.Valid()
    ensures var saved := Saved(xz, skip, name, e);
            && InBackup(saved.0)
            && (Fits(xz, skip, name, e) <==> IsPayload(saved.0) && Restored(xz, saved.0, saved.1) == (name, e))
            && (!Fits(xz, skip, name, e) && IsPayload(saved.0) ==>
                  |name| >= 3 && name[|name| - 3..] == XZ && Restored(xz, saved.0, saved.1).0 == name[..|name| - 3])
  {
    var saved := Saved(xz, skip, name, e);
    assert PREFIX <= saved.0;
    assert (PREFIX + RMLIST)[8..] == RMLIST && (PREFIX + MAGISK)[8..] == MAGISK;
    if Packed(xz, skip, e) {
      assert saved.0[|saved.0| - 3..] == XZ;
      assert saved.0[8..|saved.0| - 3] == name;
      assert saved.0[|saved.0| - 1] == 122;
      assert (PREFIX + RMLIST)[14] == 116 && (PREFIX + MAGISK)[14] == 107;
    } else {
      assert saved.0[8..] == name;
      if EndsWithXz(saved.0) {
        XzNameIsLong(saved.0);
        assert saved.0[|saved.0| - 3..] == name[|name| - 3..];
        assert saved.0[8..|saved.0| - 3] == name[..|name| - 3];
      } else if |name| >= 3 {
        assert saved.0[|saved.0| - 3..] == name[|name| - 3..];
      }
    }
  }

  lemma KeysApart(xz: XzCodec, skip: bool, n: Name, e: CpioEntry, k: Name, f: CpioEntry)
    requires n != k
    ensures Saved(xz, skip, n, e).0 == Saved(xz, skip, k, f).0
            <==> Clash(xz, skip, n, e, k, f) || Clash(xz, skip, k, f, n, e)
  {
    assert (PREFIX + n)[8..] == n && (PREFIX + k)[8..] == k;
    assert (PREFIX + n + XZ)[8..] == n + XZ && (PREFIX + k + XZ)[8..] == k + XZ;
    assert (n + XZ)[..|n|] == n && (k + XZ)[..|k|] == k;
    assert PREFIX + n + XZ == PREFIX + (n + XZ) && PREFIX + k + XZ == PREFIX + (k + XZ);
  }

  lemma CharLengthConcat(a: Bytes, b: Bytes)
    requires a != [] && CharLength(a) > 0
    ensures CharLength(a + b) == CharLength(a)
  {
    assert forall i | 0 <= i < |a| :: (a + b)[i] == a[i];
  }

  lemma {:induction false} Utf8Concat(a: Bytes, b: Bytes)
    requires Utf8(a) && Utf8(b)
    ensures Utf8(a + b)
    decreases |a|
  {
    hide CharLength;
    if a == [] {
      assert a + b == b;
    } else {
      var k := CharLength(a);
      assert k > 0 && Utf8(a[k..]);
      CharLengthConcat(a, b);
      Utf8Concat(a[k..], b);
      assert (a + b)[k..] == a[k..] + b;
      assert Utf8((a + b)[k..]);
    }
  }

  lemma {:induction false} RmListIsText(names: seq<Name>)
    requires forall i | 0 <= i < |names| :: Utf8(names[i])
    ensures Utf8(RmList(names))
    decreases |names|
  {
    if names == [] {
    } else {
      RmListIsText(names[1..]);
      assert Utf8([0]) by { assert [0][1..] == []; }
      Utf8Concat(names[0], [0]);
      Utf8Concat(names[0] + [0], RmList(names[1..]));
    }
  }

  lemma {:induction false} RmListSplits(names: seq<Name>)
    requires forall i | 0 <= i < |names| :: 0 !in names[i]
    ensures Split(RmList(names), 0) == names + [[]]
    decreases |names|
  {
    if names == [] {
    } else {
      RmListSplits(names[1..]);
      SplitPiece(names[0], 0, RmList(names[1..]));
      assert [names[0]] + (names[1..] + [[]]) == names + [[]];
    }
  }

  /** The list removes exactly the names that were recorded. */
  lemma RmListDooms(names: seq<Name>)
    requires forall i | 0 <= i < |names| :: 0 !in names[i] && names[i] != [] && NormPath(names[i]) == names[i]
    ensures forall n :: n in Doomed(RmList(names)) <==> n in names
  {
    RmListSplits(names);
    var pieces := Split(RmList(names), 0);
    forall n ensures n in Doomed(RmList(names)) <==> n in names {
      if n in Doomed(RmList(names)) {
        var piece :| piece in pieces && piece != [] && NormPath(piece) == n;
        assert piece in names;
      }
      if n in names {
        assert n in pieces && n != [];
      }
    }
  }


  // ----- the entries restore finds -----

  lemma {:induction false} FromPairsFrom(pairs: seq<(Name, CpioEntry)>, name: Name) returns (i: nat)
    requires name in FromPairs(pairs)
    ensures i < |pairs| && pairs[i] == (name, FromPairs(pairs)[name])
  {
    var last := |pairs| - 1;
    if pairs[last].0 == name {
      i := last;
    } else {
      i := FromPairsFrom(pairs[..last], name);
    }
  }

  /** A payload entry of the backed up archive is the backup of one saved name. */
  lemma PayloadFrom(xz: XzCodec, skip: bool, s: Archive, o: Archive, m: Merged, key: Name) returns (i: nat)
    requires AllIn(m.saved, o) && Stripped(s) == s
    requires key in WithBackup(xz, skip, s, o, m) && IsPayload(key)
    ensures i < |m.saved|
    ensures Saved(xz, skip, m.saved[i], o[m.saved[i]]) == (key, WithBackup(xz, skip, s, o, m)[key])
  {
    hide FromPairs, Saved;
    assert key in s <==> key in Stripped(s);
    i := FromPairsFrom(SavedAll(xz, skip, o, m.saved), key);
  }

  lemma SavedIsPayload(xz: XzCodec, skip: bool, s: Archive, o: Archive, m: Merged, i: nat)
    requires AllIn(m.saved, o) && i < |m.saved|
    requires IsPayload(Saved(xz, skip, m.saved[i], o[m.saved[i]]).0)
    ensures Saved(xz, skip, m.saved[i], o[m.saved[i]]).0 in WithBackup(xz, skip, s, o, m)
  {
    hide FromPairs, Saved, IsPayload;
    var pairs := SavedAll(xz, skip, o, m.saved);
    assert pairs[i].0 == Saved(xz, skip, m.saved[i], o[m.saved[i]]).0;
    FromPairsKeys(pairs, pairs[i].0);
  }

  /** The entries `restore` collects from the backup. */
  ghost function Collected(xz: XzCodec, a: Archive): Archive {
    FromPairs(RestoredAll(xz, a, PayloadNames(a)))
  }

  lemma CollectedFrom(xz: XzCodec, a: Archive, name: Name) returns (key: Name)
    requires name in Collected(xz, a)
    ensures key in a && IsPayload(key) && Restored(xz, key, a[key]) == (name, Collected(xz, a)[name])
  {
    hide FromPairs, Restored, IsPayload;
    var i := FromPairsFrom(RestoredAll(xz, a, PayloadNames(a)), name);
    key := PayloadNames(a)[i];
  }

  lemma CollectedHas(xz: XzCodec, a: Archive, key: Name)
    requires key in a && IsPayload(key)
    ensures Restored(xz, key, a[key]).0 in Collected(xz, a)
  {
    hide FromPairs, Restored, IsPayload;
    var names := PayloadNames(a);
    var i :| 0 <= i < |names| && names[i] == key;
    var pairs := RestoredAll(xz, a, names);
    FromPairsKeys(pairs, pairs[i].0);
  }

  /** Saved entries that lead back are collected, and nothing else is. */
  lemma CollectedBack(xz: XzCodec, skip: bool, s: Archive, o: Archive, m: Merged)
    requires xz.Valid() && AllIn(m.saved, o) && Stripped(s) == s
    requires SavedApart(xz, skip, o, m.saved)
    ensures var got := Collected(xz, WithBackup(xz, skip, s, o, m));
            && (forall n :: n in got <==> n in m.saved)
            && (forall n | n in got :: got[n] == o[n])
  {
    hide Collected, WithBackup, Saved, IsPayload, Restored, Fits, Clash;
    var a := WithBackup(xz, skip, s, o, m);
    var got := Collected(xz, a);
    forall n ensures n in got ==> n in m.saved && got[n] == o[n] {
      if n in got {
        var key := CollectedFrom(xz, a, n);
        var i := PayloadFrom(xz, skip, s, o, m, key);
        SavedName(xz, skip, m.saved[i], o[m.saved[i]]);
      }
    }
    forall n | n in m.saved ensures n in got {
      var i :| 0 <= i < |m.saved| && m.saved[i] == n;
      SavedName(xz, skip, n, o[n]);
      var key := Saved(xz, skip, n, o[n]).0;
      SavedIsPayload(xz, skip, s, o, m, i);
      var j := PayloadFrom(xz, skip, s, o, m, key);
      if m.saved[j] != n { KeysApart(xz, skip, n, o[n], m.saved[j], o[m.saved[j]]); }
      CollectedHas(xz, a, key);
    }
  }

  /** If every saved name is collected, each comes from its own entry: a name that came from the
      entry of its `.xz` namesake would leave that longer name without a source. */
  lemma OwnSource(xz: XzCodec, skip: bool, s: Archive, o: Archive, m: Merged, i: nat, longest: nat)
    requires xz.Valid() && AllIn(m.saved, o) && Stripped(s) == s
    requires forall k | 0 <= k < |m.saved| :: |m.saved[k]| <= longest
    requires forall n | n in m.saved :: n in Collected(xz, WithBackup(xz, skip, s, o, m))
    requires i < |m.saved|
    ensures var a := WithBackup(xz, skip, s, o, m);
            var pair := Saved(xz, skip, m.saved[i], o[m.saved[i]]);
            && pair.0 in a && a[pair.0] == pair.1 && IsPayload(pair.0)
            && Restored(xz, pair.0, pair.1).0 == m.saved[i]
    decreases longest - |m.saved[i]|
  {
    hide Collected, WithBackup, Saved, IsPayload, Restored, Fits;
    var a := WithBackup(xz, skip, s, o, m);
    var n := m.saved[i];
    assert n in m.saved;
    var key := CollectedFrom(xz, a, n);
    var j := PayloadFrom(xz, skip, s, o, m, key);
    SavedName(xz, skip, m.saved[j], o[m.saved[j]]);
    if m.saved[j] == n {
    } else {
      OwnSource(xz, skip, s, o, m, j, longest);
      assert false;
    }
  }

  /** Every saved name is collected only when all of them lead back to themselves. */
  lemma CollectedOnly(xz: XzCodec, skip: bool, s: Archive, o: Archive, m: Merged)
    requires xz.Valid() && AllIn(m.saved, o) && Stripped(s) == s
    requires forall n | n in m.saved :: n in Collected(xz, WithBackup(xz, skip, s, o, m))
    ensures SavedApart(xz, skip, o, m.saved)
  {
    hide Collected, WithBackup, Saved, IsPayload, Restored, Fits, Clash;
    var a := WithBackup(xz, skip, s, o, m);
    var longest := LongestName(m.saved);
    forall i | 0 <= i < |m.saved| ensures Fits(xz, skip, m.saved[i], o[m.saved[i]]) {
      OwnSource(xz, skip, s, o, m, i, longest);
      SavedName(xz, skip, m.saved[i], o[m.saved[i]]);
    }
    forall i, j | 0 <= i < |m.saved| && 0 <= j < |m.saved|
      ensures !Clash(xz, skip, m.saved[i], o[m.saved[i]], m.saved[j], o[m.saved[j]])
    {
      if Clash(xz, skip, m.saved[i], o[m.saved[i]], m.saved[j], o[m.saved[j]]) {
        ClashIsShared(xz, skip, m.saved[i], o[m.saved[i]], m.saved[j], o[m.saved[j]]);
        OwnSource(xz, skip, s, o, m, i, longest);
        OwnSource(xz, skip, s, o, m, j, longest);
        assert false;
      }
    }
  }

  lemma ClashIsShared(xz: XzCodec, skip: bool, n: Name, e: CpioEntry, k: Name, f: CpioEntry)
    requires Clash(xz, skip, n, e, k, f)
    ensures n != k && Saved(xz, skip, n, e).0 == Saved(xz, skip, k, f).0
  {
    assert |k| == |n| + 3;
    KeysApart(xz, skip, n, e, k, f);
  }

  lemma {:induction false} LongestName(names: seq<Name>) returns (longest: nat)
    ensures forall k | 0 <= k < |names| :: |names[k]| <= longest
  {
    longest := 0;
    for i := 0 to |names|
      invariant forall k | 0 <= k < i :: |names[k]| <= longest
    {
      if |names[i]| > longest { longest := |names[i]|; }
    }
  }

  // ----- restore undoes backup -----

  lemma SavedInBackup(xz: XzCodec, skip: bool, name: Name, e: CpioEntry)
    ensures InBackup(Saved(xz, skip, name, e).0)
  {
    assert PREFIX <= PREFIX + name && PREFIX <= PREFIX + name + XZ;
  }

  lemma ListInBackup(added: seq<Name>, name: Name)
    requires name in RmListEntry(added)
    ensures InBackup(name)
  {
  }

  lemma StrippedUnion(s: Archive, saved: Archive, list: Archive)
    requires Stripped(s) == s && (forall n | n in saved :: InBackup(n)) && (forall n | n in list :: InBackup(n))
    ensures Stripped(s + map[BACKUP := CpioEntry(S_IFDIR, 0, 0, 0, 0, [])] + saved + list) == s
  {
    hide InBackup;
    assert forall n | n in s :: n in Stripped(s);
  }

  lemma StrippedBack(xz: XzCodec, skip: bool, s: Archive, o: Archive, m: Merged)
    requires AllIn(m.saved, o) && Stripped(s) == s
    ensures Stripped(WithBackup(xz, skip, s, o, m)) == s
  {
    hide FromPairs, SavedAll, InBackup, Saved, RmListEntry, Stripped;
    var pairs := SavedAll(xz, skip, o, m.saved);
    forall n | n in FromPairs(pairs) ensures InBackup(n) {
      var i := FromPairsFrom(pairs, n);
      SavedInBackup(xz, skip, m.saved[i], o[m.saved[i]]);
    }
    forall n | n in RmListEntry(m.added) ensures InBackup(n) { ListInBackup(m.added, n); }
    StrippedUnion(s, FromPairs(pairs), RmListEntry(m.added));
  }

  lemma ListBack(xz: XzCodec, skip: bool, s: Archive, o: Archive, m: Merged)
    requires xz.Valid() && AllIn(m.saved, o) && Stripped(s) == s
    requires SavedApart(xz, skip, o, m.saved) && TextNames(m.added)
    ensures ReadRmList(WithBackup(xz, skip, s, o, m)) == RmList(m.added)
  {
    hide FromPairs, Saved, Fits, Clash, Restored, Utf8;
    RmListIsText(m.added);
    var pairs := SavedAll(xz, skip, o, m.saved);
    if PREFIX + RMLIST in FromPairs(pairs) {
      var i := FromPairsFrom(pairs, PREFIX + RMLIST);
      SavedName(xz, skip, m.saved[i], o[m.saved[i]]);
      assert false;
    }
    assert InBackup(PREFIX + RMLIST);
    assert PREFIX + RMLIST in s <==> PREFIX + RMLIST in Stripped(s);
  }

  ghost predicate SameContents(r: Archive, o: Archive) {
    r.Keys == o.Keys && forall n | n in o :: r[n].data == o[n].data
  }

  /** Every added name is listed and removed again only if all of them are removable. */
  lemma DoomedOnly(added: seq<Name>)
    requires TextNames(added) && forall n | n in added :: n in Doomed(RmList(added))
    ensures forall i | 0 <= i < |added| :: Removable(added[i])
  {
    hide NormPath;
    RmListSplits(added);
    forall n | n in added ensures NormPath(n) == n {
      var piece :| piece in Split(RmList(added), 0) && piece != [] && NormPath(piece) == n;
      NormPathIdempotent(piece);
    }
    forall i | 0 <= i < |added| ensures Removable(added[i]) {
      assert added[i] in added;
      var piece :| piece in Split(RmList(added), 0) && piece != [] && NormPath(piece) == added[i];
      assert piece in added;
    }
  }

  /** What `restore` makes of a backup whose saved entries lead back to themselves. */
  lemma RestoreIs(xz: XzCodec, skip: bool, s: Archive, o: Archive, m: Merged)
    requires xz.Valid() && AllIn(m.saved, o) && Stripped(s) == s
    requires SavedApart(xz, skip, o, m.saved) && TextNames(m.added)
    ensures var r := Restore(xz, WithBackup(xz, skip, s, o, m));
            if m.saved == [] && m.added == [] then r == map[]
            else && (forall n :: n in r <==> n in m.saved || (n in s && n !in Doomed(RmList(m.added))))
                 && (forall n | n in r :: r[n] == if n in m.saved then o[n] else s[n])
  {
    hide WithBackup, SavedApart, FromPairs, Doomed, RestoredAll, ReadRmList, Stripped;
    var a := WithBackup(xz, skip, s, o, m);
    StrippedBack(xz, skip, s, o, m);
    ListBack(xz, skip, s, o, m);
    CollectedBack(xz, skip, s, o, m);
    var got := Collected(xz, a);
    if m.saved != [] { assert m.saved[0] in got; }
    if m.saved == [] { assert got == map[]; }
    assert m.added == [] <==> RmList(m.added) == [];
  }

  /** Contents come back only if every saved name was collected. */
  lemma SavedCollected(xz: XzCodec, skip: bool, s: Archive, o: Archive, m: Merged)
    requires AllIn(m.saved, o) && Stripped(s) == s
    requires forall n | n in m.saved :: n !in s || s[n].data != o[n].data
    requires SameContents(Restore(xz, WithBackup(xz, skip, s, o, m)), o)
    ensures forall n | n in m.saved :: n in Collected(xz, WithBackup(xz, skip, s, o, m))
  {
    hide WithBackup, FromPairs, Doomed, RestoredAll, ReadRmList, Stripped;
    StrippedBack(xz, skip, s, o, m);
    forall n | n in m.saved ensures n in Collected(xz, WithBackup(xz, skip, s, o, m)) {
      assert n in o;
    }
  }

  ghost predicate Compares(o: Archive, s: Archive, m: Merged) {
    && (forall n :: n in m.saved <==> n in o && Differs(o, s, n))
    && (forall n :: n in m.added <==> n in s && n !in o)
  }

  lemma ComparedCompares(o: Archive, s: Archive)
    ensures Compares(o, s, Compared(o, s)) && AllIn(Compared(o, s).saved, o)
  {
    hide Merge, InOrder, Sorted;
    MergeCompares(o, s, InOrder(o.Keys), InOrder(s.Keys));
  }

  lemma NothingDiffers(o: Archive, s: Archive, m: Merged)
    requires Compares(o, s, m)
    ensures m.saved == [] && m.added == [] <==> SameContents(s, o)
  {
    if m.saved != [] { assert m.saved[0] in m.saved; }
    if m.added != [] { assert m.added[0] in m.added; }
    if m.saved == [] && m.added == [] {
      forall n ensures n in o <==> n in s {
        assert n !in m.saved && n !in m.added;
      }
    }
  }

  lemma RecoverableRestores(xz: XzCodec, skip: bool, s: Archive, o: Archive, m: Merged)
    requires xz.Valid() && AllIn(m.saved, o) && Stripped(s) == s && TextNames(m.added) && Compares(o, s, m)
    requires Recoverable(xz, skip, o, m) && (m.saved == [] && m.added == [] ==> o == map[])
    ensures var r := Restore(xz, WithBackup(xz, skip, s, o, m));
            SameContents(r, o) && forall n | n in o :: r[n] == if Differs(o, s, n) then o[n] else s[n]
  {
    hide WithBackup, SavedApart, Stripped, Restore, Removable, Doomed, RmList;
    RestoreIs(xz, skip, s, o, m);
    DoomedAre(m.added);
    var r := Restore(xz, WithBackup(xz, skip, s, o, m));
    forall n ensures n in r <==> n in o { }
  }

  lemma RestoredIsRecoverable(xz: XzCodec, skip: bool, s: Archive, o: Archive, m: Merged)
    requires xz.Valid() && AllIn(m.saved, o) && Stripped(s) == s && TextNames(m.added) && Compares(o, s, m)
    requires SameContents(Restore(xz, WithBackup(xz, skip, s, o, m)), o)
    ensures Recoverable(xz, skip, o, m) && (m.saved == [] && m.added == [] ==> o == map[])
  {
    hide WithBackup, SavedApart, Stripped, Restore, Removable, Doomed, RmList;
    var r := Restore(xz, WithBackup(xz, skip, s, o, m));
    SavedCollected(xz, skip, s, o, m);
    CollectedOnly(xz, skip, s, o, m);
    RestoreIs(xz, skip, s, o, m);
    forall n | n in m.added ensures n in Doomed(RmList(m.added)) {
      assert n in s && n !in r.Keys;
    }
    DoomedOnly(m.added);
  }

  /** `restore` gives back the names and data of the original exactly when something differed (or the
      original is empty) and every recorded name leads back; entries then are the original's where data
      differed, the archive's own elsewhere. */
  lemma RestoreUndoesBackup(xz: XzCodec, skip: bool, a: Archive, origin: Archive)
    requires xz.Valid() && TextNames(Compared(Stripped(origin), Stripped(a)).added)
    ensures var o, s := Stripped(origin), Stripped(a);
            var m := Compared(o, s);
            var r := Restore(xz, Backup(xz, skip, a, origin));
            && (SameContents(r, o) <==> Recoverable(xz, skip, o, m) && (SameContents(s, o) ==> o == map[]))
            && (SameContents(r, o) ==> forall n | n in o :: r[n] == if Differs(o, s, n) then o[n] else s[n])
  {
    hide Compared, Compares, WithBackup, SavedApart, Stripped, Restore, Removable, Recoverable, SameContents, TextNames;
    var o, s := Stripped(origin), Stripped(a);
    var m := Compared(o, s);
    StrippedTwice(a);
    ComparedCompares(o, s);
    NothingDiffers(o, s, m);
    if Recoverable(xz, skip, o, m) && (SameContents(s, o) ==> o == map[]) {
      RecoverableRestores(xz, skip, s, o, m);
    }
    if SameContents(Restore(xz, Backup(xz, skip, a, origin)), o) {
      RestoredIsRecoverable(xz, skip, s, o, m);
      RecoverableRestores(xz, skip, s, o, m);
    }
  }

  // ----- where it fails -----

  /** Backing up an archive that equals the original records nothing, and `restore` then empties it. */
  lemma UnchangedIsEmptied(xz: XzCodec, skip: bool, a: Archive, origin: Archive)
    requires xz.Valid() && SameContents(Stripped(a), Stripped(origin))
    ensures Restore(xz, Backup(xz, skip, a, origin)) == map[]
  {
    hide Compares, WithBackup, Stripped, Restore, SameContents;
    var o, s := Stripped(origin), Stripped(a);
    StrippedTwice(a);
    ComparedCompares(o, s);
    NothingDiffers(o, s, Compared(o, s));
    RestoreIs(xz, skip, s, o, Compared(o, s));
  }

  /** One file, `a`, in the archive and in the original. */
  lemma OneFileLost(xz: XzCodec, skip: bool)
    requires xz.Valid()
    ensures var a := map[[97] := CpioEntry(S_IFREG, 0, 0, 0, 0, [1])];
            Restore(xz, Backup(xz, skip, a, a)) == map[] && !SameContents(map[], Stripped(a))
  {
    hide Restore, Backup;
    var n: Name := [97];
    var a := map[n := CpioEntry(S_IFREG, 0, 0, 0, 0, [1])];
    assert n in Stripped(a) by { assert n != BACKUP && !InBackup(n); }
    hide Stripped, InBackup;
    UnchangedIsEmptied(xz, skip, a, a);
  }

  /** Of two entries saved under one name, one is lost. */
  lemma ClashLoses(xz: XzCodec, skip: bool, origin: Archive, n: Name, k: Name)
    requires xz.Valid() && n in Stripped(origin) && k in Stripped(origin)
    requires Clash(xz, skip, n, Stripped(origin)[n], k, Stripped(origin)[k])
    ensures !SameContents(Restore(xz, Backup(xz, skip, map[], origin)), Stripped(origin))
  {
    var o := Stripped(origin);
    assert Stripped(map[]) == map[];
    hide Stripped, Compared, Restore, Backup, Clash, Fits, SameContents, Utf8, Removable;
    ComparedCompares(o, map[]);
    var m := Compared(o, map[]);
    assert TextNames(m.added) by {
      assert forall i | 0 <= i < |m.added| :: m.added[i] in m.added;
    }
    hide TextNames;
    assert !SavedApart(xz, skip, o, m.saved) by {
      assert n in m.saved && k in m.saved;
      var i :| 0 <= i < |m.saved| && m.saved[i] == n;
      var j :| 0 <= j < |m.saved| && m.saved[j] == k;
      assert Clash(xz, skip, m.saved[i], o[m.saved[i]], m.saved[j], o[m.saved[j]]);
    }
    hide SavedApart, Compares;
    RestoreUndoesBackup(xz, skip, map[], origin);
  }

  /** A file `a` that compresses and a directory `a.xz`. */
  lemma FileAndXzLost(xz: XzCodec)
    requires xz.Valid() && xz.compress([1]).Some?
    ensures var origin := map[[97] := CpioEntry(S_IFREG, 0, 0, 0, 0, [1]),
                              [97, 46, 120, 122] := CpioEntry(S_IFDIR, 0, 0, 0, 0, [])];
            !SameContents(Restore(xz, Backup(xz, false, map[], origin)), Stripped(origin))
  {
    hide SameContents, Restore, Backup;
    var file, dir := CpioEntry(S_IFREG, 0, 0, 0, 0, [1]), CpioEntry(S_IFDIR, 0, 0, 0, 0, []);
    var n, k: Name := [97], [97, 46, 120, 122];
    assert n + XZ == k && !InBackup(n) && !InBackup(k);
    ClashLoses(xz, false, map[n := file, k := dir], n, k);
  }

  lemma DoomedAre(added: seq<Name>)
    requires TextNames(added) && forall i | 0 <= i < |added| :: Removable(added[i])
    ensures forall n :: n in Doomed(RmList(added)) <==> n in added
  {
    RmListDooms(added);
  }

  lemma StrippedTwice(a: Archive)
    ensures Stripped(Stripped(a)) == Stripped(a)
  {
  }
}
