/** The archive object whose operations `backup` and `restore` work in place. */
module CpioArchive {
  import opened Common
  import opened NameOrder
  import opened CpioFormat
  import opened CpioBackup

  const DIRECTORY := CpioEntry(S_IFDIR, 0, 0, 0, 0, [])

  // ----- one more step of each list -----

  lemma OneMorePair(pairs: seq<(Name, CpioEntry)>, name: Name, e: CpioEntry)
    ensures FromPairs(pairs + [(name, e)]) == FromPairs(pairs)[name := e]
  {
    assert (pairs + [(name, e)])[..|pairs|] == pairs;
  }

  lemma {:induction false} OneMoreListed(names: seq<Name>, name: Name)
    ensures RmList(names + [name]) == RmList(names) + name + [0]
  {
    if names == [] {
      assert [name][1..] == [] && names + [name] == [name];
      assert name + [0] + [] == name + [0];
    } else {
      OneMoreListed(names[1..], name);
      assert (names + [name])[1..] == names[1..] + [name];
      Associative(names[0] + [0], RmList(names[1..]) + name, [0]);
      Associative(names[0] + [0], RmList(names[1..]), name);
    }
  }

  lemma OneMoreSaved(xz: XzCodec, skip: bool, o: Archive, names: seq<Name>, name: Name)
    requires AllIn(names, o) && name in o
    ensures AllIn(names + [name], o)
    ensures var saved := Saved(xz, skip, name, o[name]);
            FromPairs(SavedAll(xz, skip, o, names + [name]))
            == FromPairs(SavedAll(xz, skip, o, names))[saved.0 := saved.1]
  {
    hide Saved, FromPairs;
    var saved := Saved(xz, skip, name, o[name]);
    assert SavedAll(xz, skip, o, names + [name]) == SavedAll(xz, skip, o, names) + [saved];
    OneMorePair(SavedAll(xz, skip, o, names), saved.0, saved.1);
  }

  /** Names that `restore` collects, in the order of the given names. */
  function Payload(names: seq<Name>): (r: seq<Name>)
    ensures AllPayload(r)
    ensures forall n :: n in r <==> n in names && IsPayload(n)
  {
    if names == [] then []
    else
      var last := |names| - 1;
      assert names == names[..last] + [names[last]];
      if IsPayload(names[last]) then Payload(names[..last]) + [names[last]] else Payload(names[..last])
  }

  lemma {:induction false} PayloadSorted(names: seq<Name>)
    requires Sorted(names)
    ensures Sorted(Payload(names))
  {
    if names == [] {
    } else {
      hide IsPayload;
      var last := |names| - 1;
      PayloadSorted(names[..last]);
      forall i | 0 <= i < |Payload(names[..last])| ensures Less(Payload(names[..last])[i], names[last]) {
        assert Payload(names[..last])[i] in names[..last];
      }
    }
  }

  lemma NonEmptyHasMember(a: seq<Name>)
    ensures a == [] <==> forall n :: n !in a
  {
    if a != [] { assert a[0] in a; }
  }

  lemma {:induction false} SortedUnique(a: seq<Name>, b: seq<Name>)
    requires Sorted(a) && Sorted(b) && forall n :: n in a <==> n in b
    ensures a == b
  {
    NonEmptyHasMember(a);
    NonEmptyHasMember(b);
    if a == [] || b == [] {
    } else {
      assert a[0] in b && b[0] in a;
      if a[0] != b[0] {
        LessTransitive(a[0], b[0], a[0]);
        LessIrreflexive(a[0]);
        assert false;
      }
      SortedTail(a);
      SortedTail(b);
      forall n ensures n in a[1..] <==> n in b[1..] {
        assert n in a <==> n in b;
      }
      SortedUnique(a[1..], b[1..]);
    }
  }

  lemma PayloadInOrder(a: Archive)
    ensures Payload(InOrder(a.Keys)) == PayloadNames(a)
  {
    hide IsPayload, InOrder, Sorted;
    PayloadSorted(InOrder(a.Keys));
    SortedUnique(Payload(InOrder(a.Keys)), PayloadNames(a));
  }

  lemma OneMoreRestored(xz: XzCodec, a: Archive, names: seq<Name>, name: Name)
    requires AllIn(names, a) && AllPayload(names) && name in a && IsPayload(name)
    ensures AllIn(names + [name], a) && AllPayload(names + [name])
    ensures var restored := Restored(xz, name, a[name]);
            FromPairs(RestoredAll(xz, a, names + [name]))
            == FromPairs(RestoredAll(xz, a, names))[restored.0 := restored.1]
  {
    hide Restored, FromPairs, InBackup;
    var restored := Restored(xz, name, a[name]);
    assert RestoredAll(xz, a, names + [name]) == RestoredAll(xz, a, names) + [restored];
    OneMorePair(RestoredAll(xz, a, names), restored.0, restored.1);
  }

  // ----- the object -----

  class Cpio {
    var entries: Archive

    constructor (entries: Archive)
      ensures this.entries == entries
    {
      this.entries := entries;
    }

    /** `rm` */
    method Rm(path: Bytes, recursive: bool)
      modifies this
      ensures entries == Remove(old(entries), path, recursive)
    {
      var p := NormPath(path);
      entries := entries - {p};
      if recursive {
        entries := map name | name in entries && !(p + [SLASH] <= name) :: entries[name];
      }
    }

    /** `backup`, on the entries of the original archive. */
    method MakeBackup(xz: XzCodec, skip: bool, origin: Archive)
      modifies this
      ensures entries == Backup(xz, skip, old(entries), origin)
    {
      hide *;
      var other := new Cpio(origin);
      other.Rm(BACKUP, true);
      this.Rm(BACKUP, true);
      RemoveBackup(origin);
      RemoveBackup(old(entries));
      var o, s := other.entries, entries;
      var lhs := SortKeys(o.Keys);
      var rhs := SortKeys(s.Keys);
      ComparedIs(o, s);
      var backups, rmList := Walk(xz, skip, o, s, lhs, rhs);
      if rmList != [] {
        backups := backups[PREFIX + RMLIST := CpioEntry(S_IFREG, 0, 0, 0, 0, rmList)];
      }
      entries := entries + backups;
      BackupIs(xz, skip, old(entries), origin, backups, rmList);
    }

    /** `restore` */
    method UndoBackup(xz: XzCodec)
      modifies this
      ensures entries == Restore(xz, old(entries))
    {
      hide *;
      ghost var a := entries;
      var names := SortKeys(entries.Keys);
      var backups, rmList := Collect(xz, entries, names);
      entries := map name | name in entries && !InBackup(name) :: entries[name];
      Rm(BACKUP, false);
      StrippedInSteps(a);
      RestoreInSteps(xz, a, backups, rmList);
      if rmList == [] && backups == map[] {
        entries := map[];
        return;
      }
      RemoveListed(rmList);
      entries := entries + backups;
    }

    /** The loop over the removal list. */
    method RemoveListed(rmList: Bytes)
      modifies this
      ensures entries == old(entries) - Doomed(rmList)
    {
      hide Split, NormPath;
      var pieces := Split(rmList, 0);
      ghost var doomed: set<Name> := {};
      for i := 0 to |pieces|
        invariant entries == old(entries) - doomed
        invariant doomed == set piece | piece in pieces[..i] && piece != [] :: NormPath(piece)
      {
        if pieces[i] != [] {
          Rm(pieces[i], false);
          doomed := doomed + {NormPath(pieces[i])};
        }
        assert pieces[..i + 1] == pieces[..i] + [pieces[i]];
      }
      assert pieces[..|pieces|] == pieces;
    }
  }

  lemma ComparedIs(o: Archive, s: Archive)
    ensures AllIn(InOrder(o.Keys), o) && AllIn(InOrder(s.Keys), s)
    ensures Compared(o, s) == Merge(o, s, InOrder(o.Keys), InOrder(s.Keys))
  {
  }

  lemma StrippedInSteps(a: Archive)
    ensures Remove(map name | name in a && !InBackup(name) :: a[name], BACKUP, false) == Stripped(a)
  {
    hide NormPath;
    RemoveBackup(a);
  }

  lemma RestoreInSteps(xz: XzCodec, a: Archive, backups: Archive, rmList: Bytes)
    requires AllIn(InOrder(a.Keys), a) && backups == RestoredOf(xz, a, InOrder(a.Keys)) && rmList == ReadRmList(a)
    ensures Restore(xz, a) == if rmList == [] && backups == map[] then map[] else (Stripped(a) - Doomed(rmList)) + backups
  {
    PayloadInOrder(a);
  }

  lemma BackupIs(xz: XzCodec, skip: bool, a: Archive, origin: Archive, backups: Archive, rmList: Bytes)
    requires rmList == RmList(Compared(Stripped(origin), Stripped(a)).added)
    requires var o, s := Stripped(origin), Stripped(a);
             var saved := map[BACKUP := DIRECTORY] + FromPairs(SavedAll(xz, skip, o, Compared(o, s).saved));
             backups == if rmList == [] then saved
                        else saved[PREFIX + RMLIST := CpioEntry(S_IFREG, 0, 0, 0, 0, rmList)]
    ensures Stripped(a) + backups == Backup(xz, skip, a, origin)
  {
    hide Compared, FromPairs, SavedAll, Stripped, InBackup;
    var o, s := Stripped(origin), Stripped(a);
    var m := Compared(o, s);
    assert rmList == [] <==> m.added == [];
    hide RmList;
    var dir, pairs, list := map[BACKUP := DIRECTORY], FromPairs(SavedAll(xz, skip, o, m.saved)), RmListEntry(m.added);
    assert backups == (dir + pairs) + list;
    UnionAssociative(s, dir, pairs);
    UnionAssociative(s, dir + pairs, list);
  }

  lemma UnionAssociative<K, V>(a: map<K, V>, b: map<K, V>, c: map<K, V>)
    ensures a + (b + c) == (a + b) + c
  {
  }

  datatype Action = Save(name: Name) | Record(name: Name) | Noop

  /** One turn of the loop: what to do with the next names, and which iterators move on. */
  method Next(o: Archive, s: Archive, lhs: seq<Name>, rhs: seq<Name>, i: nat, j: nat)
    returns (action: Action, i': nat, j': nat)
    requires AllIn(lhs, o) && AllIn(rhs, s) && i <= |lhs| && j <= |rhs| && (i < |lhs| || j < |rhs|)
    ensures i <= i' <= |lhs| && j <= j' <= |rhs| && i + j < i' + j'
    ensures action.Save? ==> action.name in o
    ensures var rest, next := Merge(o, s, lhs[i..], rhs[j..]), Merge(o, s, lhs[i'..], rhs[j'..]);
            match action
            case Save(name) => rest == Merged([name] + next.saved, next.added)
            case Record(name) => rest == Merged(next.saved, [name] + next.added)
            case Noop => rest == next
  {
    hide Less;
    i', j' := i, j;
    assert i < |lhs| ==> lhs[i..][0] == lhs[i] && lhs[i..][1..] == lhs[i + 1..];
    assert j < |rhs| ==> rhs[j..][0] == rhs[j] && rhs[j..][1..] == rhs[j + 1..];
    if i < |lhs| && j < |rhs| {
      if Less(lhs[i], rhs[j]) {
        action, i' := Save(lhs[i]), i + 1;
      } else if Less(rhs[j], lhs[i]) {
        action, j' := Record(rhs[j]), j + 1;
      } else {
        action := if s[rhs[j]].data != o[lhs[i]].data then Save(lhs[i]) else Noop;
        i', j' := i + 1, j + 1;
      }
    } else if i < |lhs| {
      action, i' := Save(lhs[i]), i + 1;
    } else {
      action, j' := Record(rhs[j]), j + 1;
    }
  }

  /** The loop of `backup`: both archives walked side by side in name order. */
  method Walk(xz: XzCodec, skip: bool, o: Archive, s: Archive, lhs: seq<Name>, rhs: seq<Name>)
    returns (backups: Archive, rmList: Bytes)
    requires AllIn(lhs, o) && AllIn(rhs, s)
    ensures AllIn(Merge(o, s, lhs, rhs).saved, o)
    ensures backups == map[BACKUP := DIRECTORY] + FromPairs(SavedAll(xz, skip, o, Merge(o, s, lhs, rhs).saved))
    ensures rmList == RmList(Merge(o, s, lhs, rhs).added)
  {
    hide FromPairs, RmList, SavedAll, Less, Saved, Merge;
    backups, rmList := map[BACKUP := DIRECTORY], [];
    ghost var saved: seq<Name>, added: seq<Name> := [], [];
    var i, j := 0, 0;
    ghost var m := Merge(o, s, lhs, rhs);
    assert lhs[0..] == lhs && rhs[0..] == rhs;
    WalkStarts(xz, skip, o, s);
    while i < |lhs| || j < |rhs|
      invariant i <= |lhs| && j <= |rhs|
      invariant AllIn(saved, o) && m.saved == saved + Merge(o, s, lhs[i..], rhs[j..]).saved
      invariant m.added == added + Merge(o, s, lhs[i..], rhs[j..]).added
      invariant backups == map[BACKUP := DIRECTORY] + FromPairs(SavedAll(xz, skip, o, saved))
      invariant rmList == RmList(added)
      decreases |lhs| - i + |rhs| - j
    {
      ghost var rest := Merge(o, s, lhs[i..], rhs[j..]);
      var action, i', j' := Next(o, s, lhs, rhs, i, j);
      ghost var next := Merge(o, s, lhs[i'..], rhs[j'..]);
      match action {
        case Save(name) =>
          OneMoreSaved(xz, skip, o, saved, name);
          var pair := Saved(xz, skip, name, o[name]);
          backups := backups[pair.0 := pair.1];
          Associative(saved, [name], next.saved);
          saved := saved + [name];
        case Record(name) =>
          OneMoreListed(added, name);
          rmList := rmList + name + [0];
          Associative(added, [name], next.added);
          added := added + [name];
        case Noop =>
      }
      i, j := i', j';
    }
    WalkEnds(m.saved, saved, m.added, added);
  }

  lemma WalkStarts(xz: XzCodec, skip: bool, o: Archive, s: Archive)
    ensures RmList([]) == [] && Merge(o, s, [], []) == Merged([], [])
    ensures FromPairs(SavedAll(xz, skip, o, [])) == map[]
  {
  }

  lemma WalkEnds(a: seq<Name>, b: seq<Name>, c: seq<Name>, d: seq<Name>)
    requires a == b + [] && c == d + []
    ensures a == b && c == d
  {
  }

  /** The backups found among some names. */
  function RestoredOf(xz: XzCodec, a: Archive, names: seq<Name>): Archive
    requires AllIn(names, a)
  {
    PayloadIn(a, names);
    FromPairs(RestoredAll(xz, a, Payload(names)))
  }

  /** The removal list, if it is among some names. */
  function ListOf(a: Archive, names: seq<Name>): Bytes
    requires AllIn(names, a)
  {
    if PREFIX + RMLIST in names && Utf8(a[PREFIX + RMLIST].data) then a[PREFIX + RMLIST].data else []
  }

  lemma PayloadIn(a: Archive, names: seq<Name>)
    requires AllIn(names, a)
    ensures AllIn(Payload(names), a)
  {
    forall i | 0 <= i < |Payload(names)| ensures Payload(names)[i] in a {
      assert Payload(names)[i] in names;
    }
  }

  /** The closure `restore` runs on every entry below `.backup/`. */
  method Collect(xz: XzCodec, a: Archive, names: seq<Name>) returns (backups: Archive, rmList: Bytes)
    requires names == InOrder(a.Keys)
    ensures AllIn(names, a) && backups == RestoredOf(xz, a, names) && rmList == ReadRmList(a)
  {
    hide InOrder, Sorted, Restored, RestoredOf, ListOf, ReadRmList, Utf8, InBackup;
    backups, rmList := map[], [];
    NothingYet(xz, a, names[..0]);
    for i := 0 to |names|
      invariant backups == RestoredOf(xz, a, names[..i]) && rmList == ListOf(a, names[..i])
    {
      var name := names[i];
      assert names[..i + 1] == names[..i] + [name];
      PayloadStep(xz, a, names[..i], name);
      NotYet(names, i);
      ListStep(a, names[..i], name);
      if InBackup(name) {
        if name == PREFIX + RMLIST {
          if Utf8(a[name].data) {
            rmList := rmList + a[name].data;
          }
        } else if name != PREFIX + MAGISK {
          var restored := Restored(xz, name, a[name]);
          backups := backups[restored.0 := restored.1];
        }
      }
    }
    assert names[..|names|] == names;
    WholeList(a, names);
  }

  lemma NothingYet(xz: XzCodec, a: Archive, names: seq<Name>)
    requires names == []
    ensures RestoredOf(xz, a, names) == map[] && ListOf(a, names) == []
  {
  }

  lemma WholeList(a: Archive, names: seq<Name>)
    requires AllIn(names, a) && forall n :: n in names <==> n in a
    ensures ListOf(a, names) == ReadRmList(a)
  {
  }

  lemma PayloadStep(xz: XzCodec, a: Archive, names: seq<Name>, name: Name)
    requires AllIn(names, a) && name in a
    ensures AllIn(names + [name], a)
    ensures var payload := InBackup(name) && name != PREFIX + RMLIST && name != PREFIX + MAGISK;
            && (payload ==> var restored := Restored(xz, name, a[name]);
                  RestoredOf(xz, a, names + [name]) == RestoredOf(xz, a, names)[restored.0 := restored.1])
            && (!payload ==> RestoredOf(xz, a, names + [name]) == RestoredOf(xz, a, names))
  {
    hide FromPairs, Restored, RestoredAll, InBackup;
    PayloadIn(a, names);
    assert (names + [name])[..|names|] == names;
    if IsPayload(name) {
      OneMoreRestored(xz, a, Payload(names), name);
    }
  }

  lemma ListStep(a: Archive, names: seq<Name>, name: Name)
    requires AllIn(names + [name], a) && AllIn(names, a) && name in a && name !in names
    ensures InBackup(PREFIX + RMLIST)
    ensures if name == PREFIX + RMLIST && Utf8(a[name].data)
            then ListOf(a, names + [name]) == ListOf(a, names) + a[name].data
            else ListOf(a, names + [name]) == ListOf(a, names)
  {
    hide Utf8;
    if name == PREFIX + RMLIST {
      assert ListOf(a, names) == [];
    }
  }

  lemma NotYet(names: seq<Name>, i: nat)
    requires Sorted(names) && i < |names|
    ensures names[i] !in names[..i]
  {
    forall k | 0 <= k < i ensures names[k] != names[i] { SortedDistinct(names, k, i); }
  }
}
