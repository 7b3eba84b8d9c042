/** A mounted file system as a finite tree, and access to it by path. */
module FileTree {
  import opened Common

  type Name = string
  type Path = seq<Name>

  datatype LeafKind = Regular | Symlink | Special

  /** Where the bytes of a file come from: the device itself, or one module's copy. */
  datatype Source = FromSystem(id: nat) | FromModule(owner: Name, path: Path)

  datatype Fs =
    | Leaf(kind: LeafKind, source: Source)
    | Dir(entries: map<Name, Fs>)

  /** The entry a path names, or None; only directories have anything below them. */
  function GetAt(fs: Fs, path: Path): Option<Fs>
    decreases path
  {
    if path == [] then Some(fs)
    else if fs.Dir? && path[0] in fs.entries then GetAt(fs.entries[path[0]], path[1..])
    else None
  }

  function Child(target: Option<Fs>, name: Name): Option<Fs> {
    if target.Some? && target.value.Dir? && name in target.value.entries
    then Some(target.value.entries[name]) else None
  }

  /** The tree with the entry at an existing path replaced: what a bind mount over it shows. */
  function SetAt(fs: Fs, path: Path, entry: Fs): Fs
    requires GetAt(fs, path).Some?
    decreases path
  {
    if path == [] then entry
    else Dir(fs.entries[path[0] := SetAt(fs.entries[path[0]], path[1..], entry)])
  }

  lemma {:induction false} GetChild(fs: Fs, path: Path, name: Name)
    ensures GetAt(fs, path + [name]) == Child(GetAt(fs, path), name)
    decreases path
  {
    if path == [] {
      assert path + [name] == [name];
    } else {
      assert (path + [name])[1..] == path[1..] + [name];
      if fs.Dir? && path[0] in fs.entries {
        GetChild(fs.entries[path[0]], path[1..], name);
      }
    }
  }

  lemma {:induction false} GetSet(fs: Fs, path: Path, entry: Fs)
    requires GetAt(fs, path).Some?
    ensures GetAt(SetAt(fs, path, entry), path) == Some(entry)
    decreases path
  {
    if path == [] {
    } else {
      GetSet(fs.entries[path[0]], path[1..], entry);
    }
  }

  lemma {:induction false} SetGet(fs: Fs, path: Path)
    requires GetAt(fs, path).Some?
    ensures SetAt(fs, path, GetAt(fs, path).value) == fs
    decreases path
  {
    if path == [] {
    } else {
      SetGet(fs.entries[path[0]], path[1..]);
    }
  }

  lemma {:induction false} SetTwice(fs: Fs, path: Path, first: Fs, second: Fs)
    requires GetAt(fs, path).Some?
    ensures GetAt(SetAt(fs, path, first), path).Some?
    ensures SetAt(SetAt(fs, path, first), path, second) == SetAt(fs, path, second)
    decreases path
  {
    GetSet(fs, path, first);
    if path == [] {
    } else {
      SetTwice(fs.entries[path[0]], path[1..], first, second);
    }
  }

  /** A mount over one name of a directory is a mount over the directory with that name changed. */
  lemma {:induction false} SetInside(fs: Fs, path: Path, name: Name, entry: Fs)
    requires GetAt(fs, path).Some? && GetAt(fs, path).value.Dir?
    requires name in GetAt(fs, path).value.entries
    ensures GetAt(fs, path + [name]).Some?
    ensures SetAt(fs, path + [name], entry)
            == SetAt(fs, path, Dir(GetAt(fs, path).value.entries[name := entry]))
    decreases path
  {
    GetChild(fs, path, name);
    if path == [] {
      assert path + [name] == [name];
      assert [name][1..] == [];
    } else {
      assert (path + [name])[1..] == path[1..] + [name];
      SetInside(fs.entries[path[0]], path[1..], name, entry);
    }
  }

  /** The same, in a tree whose directory has been set before. */
  lemma SetInsideAgain(fs: Fs, path: Path, entries: map<Name, Fs>, name: Name, entry: Fs)
    requires GetAt(fs, path).Some?
    ensures GetAt(SetAt(fs, path, Dir(entries)), path + [name]) == if name in entries then Some(entries[name]) else None
    ensures name in entries ==>
              SetAt(SetAt(fs, path, Dir(entries)), path + [name], entry) == SetAt(fs, path, Dir(entries[name := entry]))
  {
    hide GetAt, SetAt;
    var set1 := SetAt(fs, path, Dir(entries));
    GetSet(fs, path, Dir(entries));
    GetChild(set1, path, name);
    if name in entries {
      SetInside(set1, path, name, entry);
      SetTwice(fs, path, Dir(entries), Dir(entries[name := entry]));
    }
  }
}
