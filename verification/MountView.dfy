/** Executing the prepared tree as mounts, loading all modules, and the resulting view by path. */
module MountView {
  import opened Common
  import opened FileTree
  import opened NodeTree
  import opened MagicMount

  // ----- what `prepare` leaves behind -----

  /** A child that cannot be bind mounted has a tmpfs parent, a tmpfs node keeps no `inter_node`
      child, and every directory below a replaced one is a replaced tmpfs node. */
  predicate Settled(node: Node, target: Option<Fs>)
    decreases node, 1
  {
    && (forall name | name in node.children ::
          && (CannotMount(node.children[name], Child(target, name)) ==> node.kind.Tmpfs?)
          && (node.kind.Tmpfs? ==> !node.children[name].kind.Inter?))
    && SettledBelow(node, target)
  }

  predicate SettledBelow(node: Node, target: Option<Fs>)
    decreases node, 0
  {
    forall name | name in node.children ::
      && (node.replace && IsDirKind(node.children[name].kind) ==>
            node.children[name].kind.Tmpfs? && node.children[name].replace)
      && Settled(node.children[name], Child(target, name))
  }

  lemma {:induction false} MirrorSettled(f: Fs)
    ensures Settled(Mirror(f), Some(f))
  {
    if f.Leaf? {
    } else {
      forall name | name in f.entries ensures Settled(Mirror(f).children[name], Child(Some(f), name)) {
        MirrorSettled(f.entries[name]);
      }
    }
  }

  lemma {:induction false} UpgradeSettles(node: Node, target: Option<Fs>)
    requires SettledBelow(node, target)
    ensures Settled(Upgrade(node, target), target)
    decreases node
  {
    var up := Upgrade(node, target);
    forall name | name in up.children
      ensures !up.children[name].kind.Inter?
      ensures node.replace && IsDirKind(up.children[name].kind) ==>
                up.children[name].kind.Tmpfs? && up.children[name].replace
      ensures Settled(up.children[name], Child(target, name))
    {
      UpgradedChildren(node, target, name);
      if name in node.children {
        if node.children[name].kind.Inter? {
          UpgradeSettles(node.children[name], Child(target, name));
        }
      } else {
        MirrorSettled(ListingOf(target)[name]);
      }
    }
  }

  /** Every node of a scanned tree is settled once prepared. */
  lemma {:induction false} PrepareSettles(node: Node, shadow: bool, target: Option<Fs>)
    requires PlainKind(node) && Plain(node)
    ensures Settled(PrepareChild(node, shadow, target), target)
    ensures shadow && node.kind.Inter? ==>
              PrepareChild(node, shadow, target).kind.Tmpfs? && PrepareChild(node, shadow, target).replace
    decreases node
  {
    if !node.kind.Inter? {
    } else {
      hide PrepareChild, PrepareDir, Upgrade, CannotMount, Settled, SettledBelow;
      var hidden := shadow || node.replace;
      var p := PrepareDir(node, node.exist || target.Some?, hidden, target).node;
      PrepareInter(node, shadow, target);
      PreparedChildren(node, node.exist || target.Some?, hidden, target);
      forall name | name in node.children ensures ChildSettles(p, hidden, target, name) {
        PrepareSettles(node.children[name], hidden, Child(target, name));
        PrepareKeepsKind(node.children[name], hidden, Child(target, name));
      }
      BelowSettles(p, target);
      if NeedsTmpfs(node, node.exist || target.Some?, hidden, target) {
        UpgradeSettles(p, target);
      } else {
        forall name | name in node.children ensures !CannotMount(p.children[name], Child(target, name)) {
          assert !Forces(node, name, target) && Keeps(node, name, target);
          PrepareKeepsType(node.children[name], hidden, Child(target, name));
          SameTypeSameMount(p.children[name], node.children[name], Child(target, name));
        }
        StaysSettled(p, target);
      }
    }
  }

  lemma SameTypeSameMount(a: Node, b: Node, target: Option<Fs>)
    requires a.ftype == b.ftype
    ensures CannotMount(a, target) <==> CannotMount(b, target)
  {
  }

  predicate ChildSettles(node: Node, hidden: bool, target: Option<Fs>, name: Name)
    requires name in node.children
  {
    && (hidden && IsDirKind(node.children[name].kind) ==> node.children[name].kind.Tmpfs? && node.children[name].replace)
    && Settled(node.children[name], Child(target, name))
  }

  lemma BelowSettles(node: Node, target: Option<Fs>)
    requires forall name | name in node.children :: ChildSettles(node, node.replace, target, name)
    ensures SettledBelow(node, target)
  {
    hide Settled;
    forall name | name in node.children
      ensures node.replace && IsDirKind(node.children[name].kind) ==>
                node.children[name].kind.Tmpfs? && node.children[name].replace
      ensures Settled(node.children[name], Child(target, name))
    {
      assert ChildSettles(node, node.replace, target, name);
    }
  }

  lemma StaysSettled(node: Node, target: Option<Fs>)
    requires SettledBelow(node, target) && !node.kind.Tmpfs?
    requires forall name | name in node.children :: !CannotMount(node.children[name], Child(target, name))
    ensures Settled(node, target)
  {
    hide SettledBelow, CannotMount;
  }

  lemma PrepareInter(node: Node, shadow: bool, target: Option<Fs>)
    requires node.kind.Inter?
    ensures var p := PrepareDir(node, node.exist || target.Some?, shadow || node.replace, target).node;
            && p.kind.Inter? && p.replace == (shadow || node.replace)
            && PrepareChild(node, shadow, target)
               == (if NeedsTmpfs(node, node.exist || target.Some?, shadow || node.replace, target)
                   then Upgrade(p, target) else p)
            && Upgrade(p, target).kind.Tmpfs? && Upgrade(p, target).replace == p.replace
  {
  }

  /** Below a replaced directory, what is a directory has become a replaced tmpfs. */
  lemma PrepareKeepsKind(node: Node, shadow: bool, target: Option<Fs>)
    requires PlainKind(node)
    ensures shadow && IsDirKind(PrepareChild(node, shadow, target).kind) ==> node.kind.Inter?
  {
  }

  lemma PrepareKeepsType(node: Node, shadow: bool, target: Option<Fs>)
    ensures PrepareChild(node, shadow, target).ftype == node.ftype
  {
  }

  lemma RootSettles(node: Node, target: Option<Fs>)
    requires node.kind.Root? && Plain(node) && !node.replace
    ensures Settled(PrepareDir(node, true, false, target).node, target)
  {
    var p := PrepareDir(node, true, false, target).node;
    forall name | name in p.children
      ensures !CannotMount(p.children[name], Child(target, name))
      ensures Settled(p.children[name], Child(target, name))
    {
      PrepareSettles(node.children[name], false, Child(target, name));
      PrepareKeepsType(node.children[name], false, Child(target, name));
    }
  }

  // ----- the mounts, in the order they are made -----

  /** What the mount namespace shows. Mount points are node paths; the source of a module file is
      the module's directory, then the prefix of the partition, then the node path. */
  class Namespace {
    var view: Fs

    constructor (device: Fs)
      ensures view == device
    {
      view := device;
    }

    /** The worker directory entry a child of a tmpfs node makes. Mirrored files are bound from
        their own path, so the view must still show the original there. */
    method BuildWorker(node: Node, prefix: Path, path: Path) returns (entry: Option<Fs>)
      ensures entry == WorkerEntry(node, prefix + path, GetAt(view, path))
      decreases node
    {
      match node.kind
      case Module(owner) =>
        entry := WorkerEntry(node, prefix + path, None);
      case Tmpfs =>
        if node.ftype.DtDir? {
          var made: map<Name, Option<Fs>> := map[];
          var todo := node.children.Keys;
          while todo != {}
            invariant todo <= node.children.Keys
            invariant made == WorkerNames(node, prefix + path, GetAt(view, path)) - todo
          {
            var name :| name in todo;
            var child := BuildWorker(node.children[name], prefix, path + [name]);
            assert prefix + (path + [name]) == (prefix + path) + [name];
            GetChild(view, path, name);
            made := made[name := child];
            todo := todo - {name};
          }
          assert made == WorkerNames(node, prefix + path, GetAt(view, path));
          entry := Some(Dir(Visible(made)));
        } else if node.ftype.DtReg? || node.ftype.DtLnk? {
          entry := GetAt(view, path);
        } else {
          entry := None;
        }
      case _ =>
        entry := None;
    }

    /** `mount()` of a node whose parent is not a tmpfs. A mount over a missing path fails. */
    method Mount(node: Node, prefix: Path, path: Path)
      modifies this
      ensures GetAt(old(view), path).None? ==> view == old(view)
      ensures GetAt(old(view), path).Some? ==>
                view == SetAt(old(view), path, Mounted(node, prefix + path, GetAt(old(view), path).value))
      decreases node, 1
    {
      var at := GetAt(view, path);
      if at.None? { return; }
      SetGet(view, path);
      match node.kind
      case Module(owner) =>
        if !node.ftype.DtWht? && at.value.Leaf? {
          view := SetAt(view, path, Leaf(KindOf(node.ftype), FromModule(owner, prefix + path)));
        }
      case Tmpfs =>
        if node.ftype.DtDir? && at.value.Dir? {
          var worker := BuildWorker(node, prefix, path);
          view := SetAt(view, path, worker.value);
        }
      case _ =>
        if at.value.Dir? { MountChildren(node, prefix, path); }
    }

    /** The loop of `dir_node::mount`, over the children in any order. */
    method MountChildren(node: Node, prefix: Path, path: Path)
      requires !node.kind.Tmpfs? && !node.kind.Module?
      requires GetAt(view, path).Some? && GetAt(view, path).value.Dir?
      modifies this
      ensures view == SetAt(old(view), path, Mounted(node, prefix + path, GetAt(old(view), path).value))
      decreases node, 0
    {
      hide Mounted, PartlyMounted, GetAt, SetAt;
      ghost var before, es := view, GetAt(view, path).value.entries;
      var todo := node.children.Keys;
      SetGet(view, path);
      MountedEnds(node, prefix + path, es);
      while todo != {}
        invariant todo <= node.children.Keys
        invariant view == SetAt(before, path, Dir(PartlyMounted(node, prefix + path, es, todo)))
      {
        var name :| name in todo;
        ghost var current := PartlyMounted(node, prefix + path, es, todo);
        ghost var mounted := if name in es then Mounted(node.children[name], (prefix + path) + [name], es[name]) else Dir(es);
        OneMoreMounted(node, prefix + path, es, todo, name);
        SetInsideAgain(before, path, current, name, mounted);
        assert prefix + (path + [name]) == (prefix + path) + [name];
        Mount(node.children[name], prefix, path + [name]);
        todo := todo - {name};
      }
    }
  }

  lemma OneMoreMounted(node: Node, at: Path, entries: map<Name, Fs>, todo: set<Name>, name: Name)
    requires name in todo && name in node.children
    ensures var before, after := PartlyMounted(node, at, entries, todo), PartlyMounted(node, at, entries, todo - {name});
            if name in entries
            then && name in before && before[name] == entries[name]
                 && after == before[name := Mounted(node.children[name], at + [name], entries[name])]
            else name !in before && after == before
  {
    hide Mounted;
  }

  lemma MountedEnds(node: Node, at: Path, entries: map<Name, Fs>)
    requires !node.kind.Tmpfs? && !node.kind.Module?
    ensures PartlyMounted(node, at, entries, node.children.Keys) == entries
    ensures Dir(PartlyMounted(node, at, entries, {})) == Mounted(node, at, Dir(entries))
  {
  }

  /** A directory's entries while the children in `todo` are still to be mounted. */
  function PartlyMounted(node: Node, at: Path, entries: map<Name, Fs>, todo: set<Name>): map<Name, Fs> {
    map name | name in entries ::
      if name in node.children && name !in todo then Mounted(node.children[name], at + [name], entries[name])
      else entries[name]
  }

  // ----- partitions and loading -----

  const PARTITIONS: set<Name> := {"vendor", "product", "system_ext"}

  /** The partitions with a directory of their own: their subtree leaves the system tree. */
  function Extracted(system: Node, device: map<Name, Fs>): set<Name> {
    set part | part in PARTITIONS && part in system.children && part in device && device[part].Dir?
  }

  /** `root_node(node)`: takes over the extracted node. */
  function PartitionRoot(node: Node): Node {
    Consume(Node(Root, DtDir, false, false, map[]), node).(exist := true)
  }

  function Roots(system: Node, device: map<Name, Fs>): map<Name, Node> {
    (map part | part in Extracted(system, device) :: PartitionRoot(system.children[part]))
    + map["system" := system.(children := system.children - Extracted(system, device))]
  }

  /** Module files of the other partitions lie below the module's `system` directory. */
  function PrefixOf(part: Name): Path {
    if part == "system" then [] else ["system"]
  }

  function LoadedEntry(roots: map<Name, Node>, part: Name, target: Fs): Fs {
    if part in roots && !CannotMount(roots[part], Some(target))
    then Mounted(PrepareDir(roots[part], true, roots[part].replace, Some(target)).node, PrefixOf(part) + [part], target)
    else target
  }

  function LoadedView(roots: map<Name, Node>, device: map<Name, Fs>): Fs {
    Dir(map part | part in device :: LoadedEntry(roots, part, device[part]))
  }

  /** The view while the partitions in `todo` are still to be mounted. */
  function PartlyLoaded(roots: map<Name, Node>, device: map<Name, Fs>, todo: set<Name>): map<Name, Fs> {
    map part | part in device :: if part in todo then device[part] else LoadedEntry(roots, part, device[part])
  }

  /** Scanning all modules, in list order. */
  method ScanModules(modules: seq<ModuleInfo>) returns (system: Node)
    requires forall m <- modules :: m.system.ModDir?
    ensures system == CollectAll(SystemRoot(), modules)
  {
    system := SystemRoot();
    for i := 0 to |modules|
      invariant system == CollectAll(SystemRoot(), modules[..i])
    {
      assert modules[i] in modules;
      assert modules[..i + 1][..i] == modules[..i];
      system := CollectModuleFiles(system, modules[i].name, modules[i].system);
    }
    assert modules[..|modules|] == modules;
  }

  /** Preparing and mounting one partition root, unless the tree root drops it. */
  method LoadPartition(ns: Namespace, roots: map<Name, Node>, part: Name)
    requires ns.view.Dir? && part in ns.view.entries
    modifies ns
    ensures ns.view == Dir(old(ns.view).entries[part := LoadedEntry(roots, part, old(ns.view).entries[part])])
  {
    var target := ns.view.entries[part];
    assert [part][1..] == [];
    assert GetAt(ns.view, [part]) == Some(target);
    if part in roots && !CannotMount(roots[part], Some(target)) {
      var ready := PrepareInPlace(roots[part], true, roots[part].replace, Some(target));
      ns.Mount(ready.node, PrefixOf(part), [part]);
    } else {
      assert ns.view.entries[part := target] == ns.view.entries;
    }
  }

  lemma OneMoreLoaded(roots: map<Name, Node>, device: map<Name, Fs>, todo: set<Name>, part: Name)
    requires part in todo && part in device
    ensures PartlyLoaded(roots, device, todo)[part] == device[part]
    ensures PartlyLoaded(roots, device, todo - {part})
            == PartlyLoaded(roots, device, todo)[part := LoadedEntry(roots, part, device[part])]
  {
  }

  /** All partitions, in any order. */
  method LoadPartitions(ns: Namespace, roots: map<Name, Node>, device: map<Name, Fs>)
    requires ns.view == Dir(device)
    modifies ns
    ensures ns.view == LoadedView(roots, device)
  {
    var todo := device.Keys;
    assert device == PartlyLoaded(roots, device, todo);
    while todo != {}
      invariant todo <= device.Keys
      invariant ns.view == Dir(PartlyLoaded(roots, device, todo))
    {
      var part :| part in todo;
      OneMoreLoaded(roots, device, todo, part);
      LoadPartition(ns, roots, part);
      todo := todo - {part};
    }
    assert PartlyLoaded(roots, device, {}) == LoadedView(roots, device).entries;
  }

  /** `load_modules`, from the scan of the modules to the last mount. */
  method LoadModules(modules: seq<ModuleInfo>, device: map<Name, Fs>) returns (ns: Namespace)
    requires forall m <- modules :: m.system.ModDir?
    requires var roots := Roots(CollectAll(SystemRoot(), modules), device);
             forall part | part in roots :: !roots[part].replace
    ensures fresh(ns)
    ensures ns.view == LoadedView(Roots(CollectAll(SystemRoot(), modules), device), device)
  {
    var system := ScanModules(modules);
    ns := new Namespace(Dir(device));
    LoadPartitions(ns, Roots(system, device), device);
  }

  // ----- the view, path by path -----

  function GetBelow(target: Option<Fs>, path: Path): Option<Fs> {
    if target.None? then None else GetAt(target.value, path)
  }

  /** Some node on the way to the path is marked `.replace`. */
  predicate ReplacedOn(node: Node, path: Path)
    decreases path
  {
    node.replace || (path != [] && path[0] in node.children && ReplacedOn(node.children[path[0]], path[1..]))
  }

  /** The intended view, read off path by path. */
  lemma {:induction false} OverlayAt(node: Node, shadow: bool, at: Path, target: Option<Fs>, path: Path)
    requires Plain(node) && (PlainKind(node) || node.kind.Root?)
    requires node.kind.Root? && path != [] && path[0] in node.children ==> Keeps(node, path[0], target)
    ensures var shown := GetBelow(Overlay(node, shadow, at, target), path);
            match NodeAt(node, path)
            case Some(n) =>
              if !n.kind.Module? then shown.Some? && shown.value.Dir?
              else if n.ftype.DtWht? then shown.None?
              else shown == Some(Leaf(KindOf(n.ftype), FromModule(n.kind.owner, at + path)))
            case None =>
              if shadow || ReplacedOn(node, path) || BlockedAt(node, path) then shown.None?
              else shown == GetBelow(target, path)
    decreases path
  {
    if path == [] {
      assert at + path == at;
    } else if !node.kind.Module? {
      var name, rest := path[0], path[1..];
      OverlayStep(node, shadow, at, target, path);
      if name in node.children {
        hide Overlay;
        OverlayAt(node.children[name], shadow || node.replace, at + [name], Child(target, name), rest);
        assert (at + [name]) + rest == at + path;
      }
    }
  }

  lemma OverlayStep(node: Node, shadow: bool, at: Path, target: Option<Fs>, path: Path)
    requires !node.kind.Module? && path != []
    ensures GetBelow(Overlay(node, shadow, at, target), path)
            == GetBelow(if path[0] in node.children && Keeps(node, path[0], target)
                        then Overlay(node.children[path[0]], shadow || node.replace, at + [path[0]], Child(target, path[0]))
                        else if shadow || node.replace then None else Child(target, path[0]), path[1..])
    ensures GetBelow(target, path) == GetBelow(Child(target, path[0]), path[1..])
  {
    var names := OverlayNames(node, shadow || node.replace, at, target);
    assert GetBelow(Overlay(node, shadow, at, target), path) == GetBelow(Get(names, path[0]), path[1..]);
  }

  lemma {:induction false} OnTheWay(node: Node, path: Path)
    ensures ReplacedOn(node, path) <==> exists j :: 0 <= j <= |path| && ReplaceAt(node, path[..j])
    decreases path
  {
    assert SummaryAt(node, path[..0]) == Some(Summary(node.kind, node.ftype, node.replace));
    if path == [] || path[0] !in node.children {
      forall j | 1 <= j <= |path| ensures SummaryAt(node, path[..j]).None? { }
    } else {
      var child := node.children[path[0]];
      OnTheWay(child, path[1..]);
      forall j | 1 <= j <= |path| ensures SummaryAt(node, path[..j]) == SummaryAt(child, path[1..][..j - 1]) {
        assert path[..j][1..] == path[1..][..j - 1];
      }
      if j :| 0 <= j <= |path[1..]| && ReplaceAt(child, path[1..][..j]) {
        assert ReplaceAt(node, path[..j + 1]);
      }
    }
  }

  lemma AtName(names: map<Name, Option<Fs>>, path: Path)
    requires path != []
    ensures GetAt(Dir(Visible(names)), path) == GetBelow(Get(names, path[0]), path[1..])
  {
  }

  /** Below a name that does not fail, a partition shows the intended view. */
  lemma HeadShowsOverlay(root: Node, at: Path, target: Option<Fs>, path: Path)
    requires root.kind.Root? && !root.replace && Plain(root) && path != []
    requires target.Some? && target.value.Dir? && !FailsSome(root, false, target, false, path[0])
    ensures GetAt(Mounted(PrepareDir(root, true, false, target).node, at, target.value), path)
            == GetBelow(Overlay(root, false, at, target), path)
  {
    assert Overlay(root, false, at, target) == Some(Dir(Visible(OverlayNames(root, false, at, target))));
    hide Mounted, PrepareDir, RootNames, OverlayNames, FailsSome, Overlay, Visible, Plain;
    RootView(root, at, target);
    RootName(root, at, target, path[0]);
    AtName(RootNames(root, at, target), path);
    AtName(OverlayNames(root, false, at, target), path);
  }

  /** A loaded partition, path by path, in terms of its node tree. */
  lemma PartitionView(roots: map<Name, Node>, device: map<Name, Fs>, part: Name, path: Path)
    requires part in roots && part in device && path != []
    requires var root := roots[part];
             && root.kind.Root? && root.ftype.DtDir? && root.exist && !root.replace && Plain(root)
             && device[part].Dir? && !FailsSome(root, false, Some(device[part]), false, path[0])
    ensures var shown := GetAt(LoadedView(roots, device), [part] + path);
            if path[0] in roots[part].children && !Keeps(roots[part], path[0], Some(device[part]))
            then shown == GetAt(Dir(device), [part] + path)
            else match NodeAt(roots[part], path)
              case Some(n) =>
                if !n.kind.Module? then shown.Some? && shown.value.Dir?
                else if n.ftype.DtWht? then shown.None?
                else shown == Some(Leaf(KindOf(n.ftype), FromModule(n.kind.owner, PrefixOf(part) + [part] + path)))
              case None =>
                if ReplacedOn(roots[part], path) || BlockedAt(roots[part], path) then shown.None?
                else shown == GetAt(Dir(device), [part] + path)
  {
    var root, target := roots[part], Some(device[part]);
    HeadShowsOverlay(root, PrefixOf(part) + [part], target, path);
    assert !CannotMount(root, target);
    assert ([part] + path)[1..] == path;
    assert GetAt(LoadedView(roots, device), [part] + path)
        == GetBelow(Overlay(root, false, PrefixOf(part) + [part], target), path) by { hide Overlay, FailsSome, Keeps, Plain; }
    hide Overlay, LoadedView, FailsSome, CannotMount;
    if path[0] in root.children && !Keeps(root, path[0], target) {
      OverlayStep(root, false, PrefixOf(part) + [part], target, path);
    } else {
      OverlayAt(root, false, PrefixOf(part) + [part], target, path);
    }
  }

  /** The path below a module's `system` directory that belongs to a path in a partition. */
  function InModule(part: Name, path: Path): Path {
    if part == "system" then path else [part] + path
  }

  lemma RootOf(system: Node, device: map<Name, Fs>, part: Name)
    requires part in Roots(system, device)
    ensures part != "system" ==>
              part in system.children && Roots(system, device)[part] == PartitionRoot(system.children[part])
    ensures part == "system" ==>
              Roots(system, device)[part] == system.(children := system.children - Extracted(system, device))
  {
  }

  lemma PartitionRootIs(node: Node)
    requires node.kind.Inter?
    ensures PartitionRoot(node).kind.Root? && PartitionRoot(node).children == node.children
  {
  }

  /** Below the top, a tree is what the child on the way is. */
  lemma SameBelow(a: Node, b: Node, path: Path)
    requires !a.kind.Module? && !b.kind.Module? && path != []
    requires Lookup(a.children, path[0]) == Lookup(b.children, path[0])
    ensures SummaryAt(a, path) == SummaryAt(b, path) && (BlockedAt(a, path) <==> BlockedAt(b, path))
  {
  }

  lemma OneLevelDown(node: Node, name: Name, path: Path)
    requires !node.kind.Module? && name in node.children
    ensures SummaryAt(node, [name] + path) == SummaryAt(node.children[name], path)
    ensures BlockedAt(node, [name] + path) <==> BlockedAt(node.children[name], path)
  {
    assert ([name] + path)[1..] == path;
  }

  /** The node tree of a partition is the scanned tree, seen from the partition's directory. */
  lemma PartitionTree(system: Node, device: map<Name, Fs>, part: Name, path: Path)
    requires system.kind.Root? && part in Roots(system, device) && path != []
    requires part == "system" ==> path[0] !in Extracted(system, device)
    requires part != "system" ==> system.children[part].kind.Inter?
    ensures SummaryAt(Roots(system, device)[part], path) == SummaryAt(system, InModule(part, path))
    ensures BlockedAt(Roots(system, device)[part], path) <==> BlockedAt(system, InModule(part, path))
  {
    hide Roots, PartitionRoot, Extracted, SummaryAt, BlockedAt;
    RootOf(system, device, part);
    var root := Roots(system, device)[part];
    if part == "system" {
      SameBelow(root, system, path);
    } else {
      var node := system.children[part];
      PartitionRootIs(node);
      SameBelow(root, node, path);
      OneLevelDown(system, part, path);
    }
  }

  /** Some module marks a directory on the way to the path with `.replace`. */
  ghost predicate ReplacedAbove(modules: seq<ModuleInfo>, path: Path) {
    exists j :: 0 < j < |path| && SomeReplaces(modules, path[..j])
  }

  /** What the theorem below asks: the partition is a directory, `.replace` is not directly in its root, and nothing fails
      under the head of the path. */
  ghost predicate Mountable(modules: seq<ModuleInfo>, device: map<Name, Fs>, part: Name, path: Path)
    requires forall m <- modules :: m.system.ModDir?
  {
    var system := CollectAll(SystemRoot(), modules);
    var roots := Roots(system, device);
    && path != [] && part in roots && part in device
    && (part == "system" ==> path[0] !in Extracted(system, device))
    && (part != "system" ==> system.children[part].kind.Inter?)
    && !roots[part].replace
    && device[part].Dir? && !FailsSome(roots[part], false, Some(device[part]), false, path[0])
  }

  /** The partition root drops the head of the path: it cannot be bind mounted, and a root cannot be rebuilt. */
  ghost predicate Dropped(modules: seq<ModuleInfo>, device: map<Name, Fs>, part: Name, path: Path)
    requires part in device && path != []
  {
    Unbindable(modules, InModule(part, path[..1]), Child(Some(device[part]), path[0]))
  }

  /** The type the tree has for a module's file: that of the directory it takes the place of, if there is one. */
  ghost function TypeOfFile(modules: seq<ModuleInfo>, p: Path, i: nat): FileType
    requires FirstFile(modules, p, i)
  {
    if SomeDir(modules[..i], p) then DtDir else EntryAt(modules[i].system, p).value.ftype
  }

  /** What the modules have at a path cannot be bind mounted over the target. */
  ghost predicate Unbindable(modules: seq<ModuleInfo>, p: Path, target: Option<Fs>) {
    || (exists i: nat :: FirstFile(modules, p, i) && CannotBind(TypeOfFile(modules, p, i), target))
    || (!SomeFile(modules, p) && SomeDir(modules, p) && CannotBind(DtDir, target))
  }

  lemma RootShape(modules: seq<ModuleInfo>, device: map<Name, Fs>, part: Name)
    requires forall m <- modules :: m.system.ModDir?
    requires var system := CollectAll(SystemRoot(), modules);
             part in Roots(system, device) && (part != "system" ==> system.children[part].kind.Inter?)
    ensures var root := Roots(CollectAll(SystemRoot(), modules), device)[part];
            root.kind.Root? && root.ftype.DtDir? && root.exist && Plain(root)
  {
    var system := CollectAll(SystemRoot(), modules);
    CollectAllAt(modules, ["system"]);
    CollectedRoot(modules);
    RootOf(system, device, part);
    hide CollectAll, Roots;
    if part != "system" {
      assert PlainKind(system.children[part]);
    }
  }

  lemma {:induction false} CollectedRoot(modules: seq<ModuleInfo>)
    requires forall m <- modules :: m.system.ModDir?
    ensures var system := CollectAll(SystemRoot(), modules);
            system.kind.Root? && system.ftype.DtDir? && system.exist
  {
    if modules == [] {
    } else {
      CollectedRoot(modules[..|modules| - 1]);
    }
  }

  /** The tree of a partition at one path, in terms of the modules. */
  lemma PartitionInModules(modules: seq<ModuleInfo>, device: map<Name, Fs>, part: Name, path: Path)
    requires forall m <- modules :: m.system.ModDir?
    requires Mountable(modules, device, part, path)
    ensures var system := CollectAll(SystemRoot(), modules);
            var root, p := Roots(system, device)[part], InModule(part, path);
            && p != []
            && SummaryAt(root, path) == SummaryAt(system, p)
            && (BlockedAt(root, path) <==> FileAbove(modules, p))
            && (FileAt(root, path) <==> SomeFile(modules, p) && !FileAbove(modules, p))
            && (!SomeFile(modules, p) && !FileAbove(modules, p) ==> (ReplaceAt(root, path) <==> SomeReplaces(modules, p)))
  {
    hide CollectAll, Roots, FailsSome, Extracted, Plain, SomeFile, FileAbove, SomeReplaces, SummaryAt, BlockedAt;
    var system, p := CollectAll(SystemRoot(), modules), InModule(part, path);
    CollectAllAt(modules, p);
    PartitionTree(system, device, part, path);
    TreeMatchesModules(modules, p);
  }

  /** A prefix of a path is as mountable as the path. */
  lemma PrefixMountable(modules: seq<ModuleInfo>, device: map<Name, Fs>, part: Name, path: Path, j: nat)
    requires forall m <- modules :: m.system.ModDir?
    requires Mountable(modules, device, part, path) && 0 < j <= |path|
    ensures Mountable(modules, device, part, path[..j])
  {
    hide CollectAll, Roots, FailsSome, Extracted;
  }

  /** The directory of a partition other than the system is no file, and not marked. */
  lemma RootInModules(modules: seq<ModuleInfo>, device: map<Name, Fs>, part: Name, path: Path)
    requires forall m <- modules :: m.system.ModDir?
    requires Mountable(modules, device, part, path) && part != "system"
    ensures !SomeReplaces(modules, [part]) && !SomeFile(modules, [part])
  {
    var system := CollectAll(SystemRoot(), modules);
    RootOf(system, device, part);
    TreeMatchesModules(modules, [part]);
    assert !FileAbove(modules, [part]) by {
      forall m | m in modules ensures !BlockedIn(m.system, [part]) { OneLevelFree(m.system, part); }
    }
    hide CollectAll, FailsSome, SomeFile, SomeReplaces, FileAbove;
    assert [part][1..] == [];
    assert NodeAt(system, [part]) == Some(system.children[part]);
  }

  /** A file on the way to a prefix is on the way to the path, and so is a file at the prefix. */
  lemma {:induction false} BlockedByPrefix(entry: Entry, path: Path, j: nat)
    requires j < |path|
    ensures BlockedIn(entry, path[..j]) ==> BlockedIn(entry, path)
    ensures EntryAt(entry, path[..j]).Some? && EntryAt(entry, path[..j]).value.ModFile? ==> BlockedIn(entry, path)
    decreases j
  {
    if j == 0 || entry.ModFile? || path[0] !in entry.entries {
    } else {
      assert path[..j][1..] == path[1..][..j - 1];
      BlockedByPrefix(entry.entries[path[0]], path[1..], j - 1);
    }
  }

  lemma NoFileOnTheWay(modules: seq<ModuleInfo>, path: Path, j: nat)
    requires !FileAbove(modules, path) && j < |path|
    ensures !FileAbove(modules, path[..j]) && !SomeFile(modules, path[..j])
  {
    hide BlockedIn, EntryAt;
    forall m | m in modules
      ensures !BlockedIn(m.system, path[..j])
      ensures !(EntryAt(m.system, path[..j]).Some? && EntryAt(m.system, path[..j]).value.ModFile?)
    {
      BlockedByPrefix(m.system, path, j);
    }
  }

  /** The tree has a mark at one ancestor exactly when some module has. */
  lemma MarkInModules(modules: seq<ModuleInfo>, device: map<Name, Fs>, part: Name, path: Path, j: nat)
    requires forall m <- modules :: m.system.ModDir?
    requires Mountable(modules, device, part, path) && 0 < j < |path|
    requires !FileAbove(modules, InModule(part, path))
    ensures var root := Roots(CollectAll(SystemRoot(), modules), device)[part];
            ReplaceAt(root, path[..j]) <==> SomeReplaces(modules, InModule(part, path[..j]))
  {
    hide CollectAll, Roots, FailsSome, Extracted, SomeFile, FileAbove, SomeReplaces, ReplaceAt, Mountable;
    var p, shift := InModule(part, path), if part == "system" then 0 else 1;
    PrefixMountable(modules, device, part, path, j);
    assert InModule(part, path[..j]) == p[..j + shift];
    PartitionInModules(modules, device, part, path[..j]);
    NoFileOnTheWay(modules, p, j + shift);
  }

  /** The marks on the way to a path without an entry, in the tree and in the modules. */
  lemma MarksAbove(modules: seq<ModuleInfo>, device: map<Name, Fs>, part: Name, path: Path)
    requires forall m <- modules :: m.system.ModDir?
    requires Mountable(modules, device, part, path)
    requires !FileAbove(modules, InModule(part, path))
    requires NodeAt(Roots(CollectAll(SystemRoot(), modules), device)[part], path).None?
    ensures var root := Roots(CollectAll(SystemRoot(), modules), device)[part];
            ReplacedOn(root, path) <==> ReplacedAbove(modules, InModule(part, path))
  {
    hide CollectAll, Roots, FailsSome, Extracted, SomeFile, FileAbove, SomeReplaces, ReplacedOn;
    var root := Roots(CollectAll(SystemRoot(), modules), device)[part];
    var p, shift := InModule(part, path), if part == "system" then 0 else 1;
    OnTheWay(root, path);
    assert path[..|path|] == path && SummaryAt(root, path[..0]) == Some(Summary(root.kind, root.ftype, root.replace));
    if ReplacedOn(root, path) {
      var j :| 0 <= j <= |path| && ReplaceAt(root, path[..j]);
      MarkInModules(modules, device, part, path, j);
      assert InModule(part, path[..j]) == p[..j + shift];
    }
    if part != "system" {
      RootInModules(modules, device, part, path);
      assert p[..1] == [part];
    }
    if ReplacedAbove(modules, p) {
      var k :| 0 < k < |p| && SomeReplaces(modules, p[..k]);
      var j := k - shift;
      MarkInModules(modules, device, part, path, j);
      assert InModule(part, path[..j]) == p[..j + shift];
      assert ReplaceAt(root, path[..j]);
    }
  }

  // ----- what a root drops -----

  lemma OneLevelFree(entry: Entry, a: Name)
    requires entry.ModDir?
    ensures !BlockedIn(entry, [a])
  {
    assert [a][1..] == [];
  }

  lemma TwoLevelsFree(entry: Entry, a: Name, b: Name)
    requires entry.ModDir? && !(EntryAt(entry, [a]).Some? && EntryAt(entry, [a]).value.ModFile?)
    ensures !BlockedIn(entry, [a, b])
  {
    assert [a][1..] == [] && [a, b][1..] == [b];
    if a in entry.entries {
      assert EntryAt(entry, [a]) == EntryAt(entry.entries[a], []);
      OneLevelFree(entry.entries[a], b);
    }
  }

  lemma HeadIsFree(modules: seq<ModuleInfo>, device: map<Name, Fs>, part: Name, path: Path)
    requires forall m <- modules :: m.system.ModDir?
    requires Mountable(modules, device, part, path)
    ensures !FileAbove(modules, InModule(part, path[..1]))
  {
    hide CollectAll, Roots, FailsSome, Extracted, BlockedIn, EntryAt, SomeReplaces;
    var p := InModule(part, path[..1]);
    assert path[..1] == [path[0]];
    if part != "system" { RootInModules(modules, device, part, path); }
    hide Mountable;
    forall m | m in modules ensures !BlockedIn(m.system, p) {
      if part == "system" {
        OneLevelFree(m.system, path[0]);
      } else {
        assert p == [part, path[0]];
        TwoLevelsFree(m.system, part, path[0]);
      }
    }
  }

  /** What the root drops, in terms of the modules. */
  lemma DropsInModules(modules: seq<ModuleInfo>, device: map<Name, Fs>, part: Name, path: Path)
    requires forall m <- modules :: m.system.ModDir?
    requires Mountable(modules, device, part, path)
    ensures var root := Roots(CollectAll(SystemRoot(), modules), device)[part];
            Dropped(modules, device, part, path)
            <==> path[0] in root.children && !Keeps(root, path[0], Some(device[part]))
  {
    hide CollectAll, Roots, FailsSome, CannotBind, SummaryAt, Extracted, SomeFile, SomeDir, NoEntry, FileAbove, EntryAt,
         SomeReplaces, Child;
    var root, p, target := Roots(CollectAll(SystemRoot(), modules), device)[part], InModule(part, path[..1]),
                           Child(Some(device[part]), path[0]);
    PrefixMountable(modules, device, part, path, 1);
    hide Mountable;
    HeadOfPath(modules, device, part, path);
    HeadIsFree(modules, device, part, path);
    PartitionInModules(modules, device, part, path[..1]);
    CollectedTree(modules, p);
    if SomeFile(modules, p) {
      FirstFileExists(modules, p);
    } else if !SomeDir(modules, p) {
      NothingThere(modules, p);
    }
    hide FirstFile;
  }

  lemma NothingThere(modules: seq<ModuleInfo>, p: Path)
    requires !SomeFile(modules, p) && !SomeDir(modules, p)
    ensures NoEntry(modules, p)
  {
    hide EntryAt;
  }

  lemma HeadOfPath(modules: seq<ModuleInfo>, device: map<Name, Fs>, part: Name, path: Path)
    requires forall m <- modules :: m.system.ModDir?
    requires Mountable(modules, device, part, path)
    ensures var root := Roots(CollectAll(SystemRoot(), modules), device)[part];
            var s := SummaryAt(root, path[..1]);
            && root.kind.Root? && (path[0] in root.children <==> s.Some?)
            && (s.Some? ==> root.children[path[0]].ftype == s.value.ftype)
  {
    RootShape(modules, device, part);
    hide CollectAll, Roots, FailsSome, Plain, Extracted;
    var root := Roots(CollectAll(SystemRoot(), modules), device)[part];
    assert path[..1][1..] == [];
    if path[0] in root.children {
      assert NodeAt(root, path[..1]) == NodeAt(root.children[path[0]], []);
    }
  }

  // ----- the final theorem -----

  /** The whole of `load_modules`, path by path: nothing below a module's file; else the first module's file where modules
      have one, nothing where that file is a whiteout, a directory where a module has one; elsewhere nothing below a
      `.replace` mark, and the original everywhere else. What a partition root drops, and everything below it, shows the
      original. */
  lemma LoadedModulesView(modules: seq<ModuleInfo>, device: map<Name, Fs>, part: Name, path: Path)
    requires forall m <- modules :: m.system.ModDir?
    requires Mountable(modules, device, part, path)
    ensures var shown := GetAt(LoadedView(Roots(CollectAll(SystemRoot(), modules), device), device), [part] + path);
            var original, p := GetAt(Dir(device), [part] + path), InModule(part, path);
            if Dropped(modules, device, part, path) then shown == original
            else if FileAbove(modules, p) then shown.None?
            else
              && (forall i: nat | FirstFile(modules, p, i) ::
                    var ftype := TypeOfFile(modules, p, i);
                    shown == if ftype.DtWht? then None
                             else Some(Leaf(KindOf(ftype), FromModule(modules[i].name, ["system"] + p))))
              && (!SomeFile(modules, p) && SomeDir(modules, p) ==> shown.Some? && shown.value.Dir?)
              && (NoEntry(modules, p) ==> shown == if ReplacedAbove(modules, p) then None else original)
  {
    hide CollectAll, FailsSome, Plain, Keeps, ReplacedOn, BlockedAt, ReplacedAbove, LoadedView, Dropped, Roots, Extracted,
         SomeFile, SomeDir, NoEntry, FileAbove, SomeReplaces, EntryAt;
    var system, p := CollectAll(SystemRoot(), modules), InModule(part, path);
    var root := Roots(system, device)[part];
    RootShape(modules, device, part);
    PartitionView(Roots(system, device), device, part, path);
    DropsInModules(modules, device, part, path);
    PartitionInModules(modules, device, part, path);
    CollectedTree(modules, p);
    assert PrefixOf(part) + [part] + path == ["system"] + p;
    hide FirstFile, Mountable;
    if NoEntry(modules, p) && !FileAbove(modules, p) {
      MarksAbove(modules, device, part, path);
    }
  }
}
