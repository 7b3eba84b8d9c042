/** The magic-mount node tree: ranked nodes, insertion by rank, and collection of module files. */
module NodeTree {
  import opened Common
  import opened FileTree

  datatype FileType = DtDir | DtReg | DtLnk | DtWht | DtOther

  datatype Kind =
    | Inter                 // a directory known only from modules
    | Tmpfs                 // a directory (or a file in one) rebuilt on the worker tmpfs
    | Module(owner: Name)   // a file supplied by a module
    | Root                  // a partition root
    | Custom                // an injected node, overrides all

  /** `exist` and `replace` are the bits 7 and 6 kept beside the file type. */
  datatype Node = Node(kind: Kind, ftype: FileType, exist: bool, replace: bool, children: map<Name, Node>)

  function RankOf(kind: Kind): nat {
    match kind
    case Inter => 1
    case Tmpfs => 2
    case Module(_) => 4
    case Root => 8
    case Custom => 16
  }

  predicate IsDirKind(kind: Kind) {
    kind.Inter? || kind.Tmpfs? || kind.Root?
  }

  function InterNode(): Node { Node(Inter, DtDir, false, false, map[]) }

  function ModuleNode(owner: Name, ftype: FileType): Node { Node(Module(owner), ftype, false, false, map[]) }

  /** `consume`: the new node takes over the file-type bits of the node it replaces, and a
      directory also takes over the children it has no name clash with. */
  function Consume(node: Node, other: Node): Node {
    node.(ftype := other.ftype, exist := other.exist, replace := other.replace,
          children := if IsDirKind(node.kind) && IsDirKind(other.kind)
                      then other.children + node.children else node.children)
  }

  /** `insert_at`: a node replaces an existing one only if it has a higher rank. */
  function InsertAt(existing: Option<Node>, node: Node): Node {
    if existing.None? then node
    else if RankOf(existing.value.kind) < RankOf(node.kind) then Consume(node, existing.value)
    else existing.value
  }

  function InsertAll(nodes: seq<Node>): Option<Node> {
    if nodes == [] then None
    else Some(InsertAt(InsertAll(nodes[..|nodes| - 1]), nodes[|nodes| - 1]))
  }

  /** Position w holds the first node of maximal rank. */
  predicate FirstOfMaximalRank(nodes: seq<Node>, w: nat) {
    && w < |nodes|
    && (forall i :: 0 <= i < |nodes| ==> RankOf(nodes[i].kind) <= RankOf(nodes[w].kind))
    && (forall i :: 0 <= i < w ==> RankOf(nodes[i].kind) < RankOf(nodes[w].kind))
  }

  /** Whatever is inserted at one name, the first node of maximal rank wins, but it ends up with
      the file-type bits of the very first node inserted there. */
  lemma {:induction false} FirstMaximalRankWins(nodes: seq<Node>, w: nat)
    requires FirstOfMaximalRank(nodes, w)
    ensures InsertAll(nodes).Some?
    ensures InsertAll(nodes).value.kind == nodes[w].kind
    ensures InsertAll(nodes).value.ftype == nodes[0].ftype
    ensures InsertAll(nodes).value.exist == nodes[0].exist
    ensures InsertAll(nodes).value.replace == nodes[0].replace
    ensures !IsDirKind(nodes[w].kind) ==> InsertAll(nodes).value.children == nodes[w].children
  {
    var last := |nodes| - 1;
    var init := nodes[..last];
    if last == 0 {
    } else {
      if w < last {
        FirstMaximalRankWins(init, w);
      } else {
        var v := FindWinner(init);
        FirstMaximalRankWins(init, v);
      }
    }
  }

  lemma {:induction false} FindWinner(nodes: seq<Node>) returns (w: nat)
    requires nodes != []
    ensures FirstOfMaximalRank(nodes, w)
  {
    w := 0;
    for i := 1 to |nodes|
      invariant FirstOfMaximalRank(nodes[..i], w)
    {
      if RankOf(nodes[w].kind) < RankOf(nodes[i].kind) { w := i; }
    }
    assert nodes[..|nodes|] == nodes;
  }

  /** The children table of one directory node, updated in place. */
  class DirTable {
    var children: map<Name, Node>

    constructor ()
      ensures children == map[]
    {
      children := map[];
    }

    method Insert(name: Name, node: Node) returns (accepted: bool)
      modifies this
      ensures accepted <==> name !in old(children) || RankOf(old(children)[name].kind) < RankOf(node.kind)
      ensures children == old(children)[name := InsertAt(Lookup(old(children), name), node)]
    {
      accepted := true;
      if name in children {
        if RankOf(children[name].kind) < RankOf(node.kind) {
          children := children[name := Consume(node, children[name])];
        } else {
          accepted := false;
          assert children[name := children[name]] == children;
        }
      } else {
        children := children[name := node];
      }
    }

    method Extract(name: Name) returns (node: Option<Node>)
      modifies this
      ensures node == Lookup(old(children), name)
      ensures children == old(children) - {name}
    {
      node := Lookup(children, name);
      children := children - {name};
    }

    /** Every node of one name's insertion sequence, in order, ends as `InsertAll` says. */
    method InsertSequence(name: Name, nodes: seq<Node>)
      requires name !in children
      modifies this
      ensures nodes == [] ==> children == old(children)
      ensures nodes != [] ==> children == old(children)[name := InsertAll(nodes).value]
    {
      ghost var before := children;
      for i := 0 to |nodes|
        invariant i == 0 ==> children == before
        invariant i > 0 ==> children == before[name := InsertAll(nodes[..i]).value]
      {
        assert nodes[..i + 1][..i] == nodes[..i];
        var accepted := Insert(name, nodes[i]);
      }
      assert nodes[..|nodes|] == nodes;
    }
  }

  function Lookup(children: map<Name, Node>, name: Name): Option<Node> {
    if name in children then Some(children[name]) else None
  }

  /** One module's directory. A device node 0:0 is reported as a whiteout. */
  datatype Entry =
    | ModFile(ftype: FileType)
    | ModDir(replace: bool, entries: map<Name, Entry>)

  /** `collect_module_files` on one directory node. */
  function Collect(node: Node, owner: Name, dir: Entry): Node
    requires dir.ModDir?
    decreases dir, 1
  {
    node.(replace := node.replace || dir.replace,
          children := node.children +
            map name | name in dir.entries ::
              CollectEntry(Lookup(node.children, name), owner, dir.entries[name]))
  }

  function CollectEntry(existing: Option<Node>, owner: Name, entry: Entry): Node
    decreases entry, 2
  {
    match entry
    case ModFile(ftype) => InsertAt(existing, ModuleNode(owner, ftype))
    case ModDir(_, _) =>
      if existing.None? then Collect(InterNode(), owner, entry)
      else if existing.value.kind.Inter? then Collect(existing.value, owner, entry)
      else existing.value
  }

  /** The children while the entries in `todo` are still to be scanned. */
  function PartlyCollected(node: Node, owner: Name, dir: Entry, todo: set<Name>): map<Name, Node>
    requires dir.ModDir?
  {
    node.children +
    map name | name in dir.entries && name !in todo ::
      CollectEntry(Lookup(node.children, name), owner, dir.entries[name])
  }

  lemma OneMoreCollected(node: Node, owner: Name, dir: Entry, todo: set<Name>, name: Name)
    requires dir.ModDir? && name in dir.entries && name in todo
    ensures Lookup(PartlyCollected(node, owner, dir, todo), name) == Lookup(node.children, name)
    ensures PartlyCollected(node, owner, dir, todo - {name})
            == PartlyCollected(node, owner, dir, todo)
               [name := CollectEntry(Lookup(node.children, name), owner, dir.entries[name])]
  {
  }

  lemma CollectedEnds(node: Node, owner: Name, dir: Entry)
    requires dir.ModDir?
    ensures PartlyCollected(node, owner, dir, dir.entries.Keys) == node.children
    ensures Collect(node, owner, dir).children == PartlyCollected(node, owner, dir, {})
  {
    hide CollectEntry;
    assert PartlyCollected(node, owner, dir, {}) == Collect(node, owner, dir).children;
  }

  /** The directory scan itself: entries come in whatever order the kernel lists them. */
  method CollectModuleFiles(node: Node, owner: Name, dir: Entry) returns (result: Node)
    requires dir.ModDir?
    ensures result == Collect(node, owner, dir)
    decreases dir, 1
  {
    hide CollectEntry, PartlyCollected;
    CollectedEnds(node, owner, dir);
    var children, todo := node.children, dir.entries.Keys;
    while todo != {}
      invariant todo <= dir.entries.Keys
      invariant children == PartlyCollected(node, owner, dir, todo)
    {
      var name :| name in todo;
      OneMoreCollected(node, owner, dir, todo, name);
      var child := CollectModuleEntry(Lookup(children, name), owner, dir.entries[name]);
      children := children[name := child];
      todo := todo - {name};
    }
    result := node.(replace := node.replace || dir.replace, children := children);
  }

  method CollectModuleEntry(existing: Option<Node>, owner: Name, entry: Entry) returns (child: Node)
    ensures child == CollectEntry(existing, owner, entry)
    decreases entry, 2
  {
    match entry
    case ModFile(ftype) =>
      child := InsertAt(existing, ModuleNode(owner, ftype));
    case ModDir(_, _) =>
      if existing.None? {
        child := CollectModuleFiles(InterNode(), owner, entry);
      } else if existing.value.kind.Inter? {
        child := CollectModuleFiles(existing.value, owner, entry);
      } else {
        child := existing.value;
      }
  }

  datatype ModuleInfo = ModuleInfo(name: Name, system: Entry)

  /** All modules in list order, each scanned into the same tree. */
  function CollectAll(node: Node, modules: seq<ModuleInfo>): Node
    requires forall m <- modules :: m.system.ModDir?
  {
    if modules == [] then node
    else Collect(CollectAll(node, modules[..|modules| - 1]), modules[|modules| - 1].name, modules[|modules| - 1].system)
  }

  function NodeAt(node: Node, path: Path): Option<Node>
    decreases path
  {
    if path == [] then Some(node)
    else if path[0] in node.children then NodeAt(node.children[path[0]], path[1..])
    else None
  }

  function EntryAt(entry: Entry, path: Path): Option<Entry>
    decreases path
  {
    if path == [] then Some(entry)
    else if entry.ModDir? && path[0] in entry.entries then EntryAt(entry.entries[path[0]], path[1..])
    else None
  }

  predicate PlainKind(node: Node) {
    if node.kind.Module? then node.children == map[] else node.kind.Inter? && node.ftype.DtDir?
  }

  /** The tree while modules are being scanned: module directories and module files only. */
  predicate Plain(node: Node) {
    forall name | name in node.children ::
      var child := node.children[name];
      && PlainKind(child)
      && Plain(child)
  }

  /** What a tree says about one path, leaving out what is below it. */
  datatype Summary = Summary(kind: Kind, ftype: FileType, replace: bool)

  function SummaryAt(node: Node, path: Path): Option<Summary> {
    match NodeAt(node, path)
    case None => None
    case Some(n) => Some(Summary(n.kind, n.ftype, n.replace))
  }

  /** How one more module's entry changes the summary of a path: a file takes the place of a directory, with the type
      and the mark of that directory, and stays. */
  function MergeEntry(before: Option<Summary>, owner: Name, entry: Option<Entry>): Option<Summary> {
    match entry
    case None => before
    case Some(ModFile(ftype)) =>
      if before.None? then Some(Summary(Module(owner), ftype, false))
      else if before.value.kind.Inter? then Some(before.value.(kind := Module(owner)))
      else before
    case Some(ModDir(replace, _)) =>
      if before.None? then Some(Summary(Inter, DtDir, replace))
      else if before.value.kind.Module? then before
      else Some(before.value.(replace := before.value.replace || replace))
  }

  /** A file of the tree is met before the path ends. */
  predicate BlockedAt(node: Node, path: Path)
    decreases path
  {
    path != [] && (node.kind.Module? || (path[0] in node.children && BlockedAt(node.children[path[0]], path[1..])))
  }

  /** A file of the module is met before the path ends. */
  predicate BlockedIn(entry: Entry, path: Path)
    decreases path
  {
    path != [] && (entry.ModFile? || (path[0] in entry.entries && BlockedIn(entry.entries[path[0]], path[1..])))
  }

  /** Nothing lies below a file. */
  lemma {:induction false} BlockedIsNone(node: Node, path: Path)
    requires Plain(node) && (node.kind.Module? ==> node.children == map[])
    ensures BlockedAt(node, path) ==> NodeAt(node, path).None?
    decreases path
  {
    if path == [] || node.kind.Module? || path[0] !in node.children {
    } else {
      BlockedIsNone(node.children[path[0]], path[1..]);
    }
  }

  lemma {:induction false} CollectKeepsPlain(node: Node, owner: Name, dir: Entry)
    requires Plain(node) && dir.ModDir?
    ensures Plain(Collect(node, owner, dir))
    decreases dir
  {
    forall name | name in dir.entries
      ensures var child := CollectEntry(Lookup(node.children, name), owner, dir.entries[name]);
              && PlainKind(child)
              && Plain(child)
    {
      var entry := dir.entries[name];
      if entry.ModDir? {
        CollectKeepsPlain(if name in node.children then node.children[name] else InterNode(), owner, entry);
      }
    }
  }

  lemma CollectChild(node: Node, owner: Name, dir: Entry, name: Name)
    requires dir.ModDir?
    ensures Collect(node, owner, dir).kind == node.kind
    ensures Lookup(Collect(node, owner, dir).children, name)
            == if name in dir.entries then Some(CollectEntry(Lookup(node.children, name), owner, dir.entries[name]))
               else Lookup(node.children, name)
  {
    hide CollectEntry;
  }

  /** A file, once there, is a module's node without children. */
  lemma InsertedFile(existing: Option<Node>, owner: Name, ftype: FileType)
    requires existing.Some? ==> PlainKind(existing.value)
    ensures var r := InsertAt(existing, ModuleNode(owner, ftype));
            r.kind.Module? && r.children == map[]
  {
  }

  /** One scan, seen at every path. */
  lemma {:induction false} CollectAt(node: Node, owner: Name, dir: Entry, path: Path)
    requires Plain(node) && !node.kind.Module? && dir.ModDir?
    ensures BlockedAt(Collect(node, owner, dir), path) <==> BlockedAt(node, path) || BlockedIn(dir, path)
    ensures SummaryAt(Collect(node, owner, dir), path)
            == if BlockedAt(node, path) || BlockedIn(dir, path) then None
               else MergeEntry(SummaryAt(node, path), owner, EntryAt(dir, path))
    decreases |path|, 0
  {
    BlockedIsNone(node, path);
    if path == [] {
    } else {
      hide Collect, CollectEntry, MergeEntry;
      var name, rest := path[0], path[1..];
      CollectChild(node, owner, dir, name);
      if name in dir.entries {
        CollectEntryAt(node, owner, dir, name, rest);
      }
    }
  }

  lemma {:induction false} CollectEntryAt(node: Node, owner: Name, dir: Entry, name: Name, rest: Path)
    requires Plain(node) && dir.ModDir? && name in dir.entries
    ensures var existing, entry := Lookup(node.children, name), dir.entries[name];
            var blocked := existing.Some? && BlockedAt(existing.value, rest);
            var before := if existing.None? then None else SummaryAt(existing.value, rest);
            && (BlockedAt(CollectEntry(existing, owner, entry), rest) <==> blocked || BlockedIn(entry, rest))
            && SummaryAt(CollectEntry(existing, owner, entry), rest)
               == if blocked || BlockedIn(entry, rest) then None else MergeEntry(before, owner, EntryAt(entry, rest))
    decreases |rest|, 1
  {
    var existing, entry := Lookup(node.children, name), dir.entries[name];
    if entry.ModFile? {
      InsertedFile(existing, owner, entry.ftype);
    } else if existing.None? {
      CollectAt(InterNode(), owner, entry, rest);
    } else if existing.value.kind.Inter? {
      CollectAt(existing.value, owner, entry, rest);
    }
  }

  // ----- all modules -----

  ghost predicate SomeReplaces(modules: seq<ModuleInfo>, path: Path) {
    exists m <- modules :: EntryAt(m.system, path).Some?
      && EntryAt(m.system, path).value.ModDir? && EntryAt(m.system, path).value.replace
  }

  ghost predicate SomeFile(modules: seq<ModuleInfo>, path: Path) {
    exists m <- modules :: EntryAt(m.system, path).Some? && EntryAt(m.system, path).value.ModFile?
  }

  ghost predicate SomeDir(modules: seq<ModuleInfo>, path: Path) {
    exists m <- modules :: EntryAt(m.system, path).Some? && EntryAt(m.system, path).value.ModDir?
  }

  ghost predicate NoEntry(modules: seq<ModuleInfo>, path: Path) {
    forall m <- modules :: EntryAt(m.system, path).None?
  }

  /** Some module has a file where the path has a directory. */
  ghost predicate FileAbove(modules: seq<ModuleInfo>, path: Path) {
    exists m <- modules :: BlockedIn(m.system, path)
  }

  /** Module i is the first to have a file at the path. */
  ghost predicate FirstFile(modules: seq<ModuleInfo>, path: Path, i: nat) {
    && i < |modules| && EntryAt(modules[i].system, path).Some? && EntryAt(modules[i].system, path).value.ModFile?
    && !SomeFile(modules[..i], path)
  }

  function MergeAll(before: Option<Summary>, modules: seq<ModuleInfo>, path: Path): Option<Summary> {
    if modules == [] then before
    else MergeEntry(MergeAll(before, modules[..|modules| - 1], path),
                    modules[|modules| - 1].name, EntryAt(modules[|modules| - 1].system, path))
  }

  lemma OneMoreModule(modules: seq<ModuleInfo>, path: Path)
    requires modules != []
    ensures var init, m := modules[..|modules| - 1], modules[|modules| - 1];
            var entry := EntryAt(m.system, path);
            && (SomeFile(modules, path) <==> SomeFile(init, path) || (entry.Some? && entry.value.ModFile?))
            && (SomeDir(modules, path) <==> SomeDir(init, path) || (entry.Some? && entry.value.ModDir?))
            && (SomeReplaces(modules, path)
                <==> SomeReplaces(init, path) || (entry.Some? && entry.value.ModDir? && entry.value.replace))
            && (FileAbove(modules, path) <==> FileAbove(init, path) || BlockedIn(m.system, path))
  {
    hide EntryAt, BlockedIn;
    var init, m := modules[..|modules| - 1], modules[|modules| - 1];
    assert modules == init + [m];
    assert forall x :: x in modules <==> x in init || x == m;
  }

  /** Where no module has a file, directories are merged. */
  lemma {:induction false} MergedDirs(modules: seq<ModuleInfo>, path: Path)
    requires !SomeFile(modules, path)
    ensures MergeAll(None, modules, path)
            == if SomeDir(modules, path) then Some(Summary(Inter, DtDir, SomeReplaces(modules, path))) else None
  {
    hide EntryAt;
    if modules == [] {
    } else {
      OneMoreModule(modules, path);
      hide SomeFile, SomeDir, SomeReplaces;
      MergedDirs(modules[..|modules| - 1], path);
    }
  }

  /** The first file stays. If modules before it have a directory there, it has the type and the mark of that directory. */
  lemma {:induction false} MergedFile(modules: seq<ModuleInfo>, path: Path, i: nat)
    requires FirstFile(modules, path, i)
    ensures MergeAll(None, modules, path)
            == Some(Summary(Module(modules[i].name),
                            if SomeDir(modules[..i], path) then DtDir else EntryAt(modules[i].system, path).value.ftype,
                            SomeReplaces(modules[..i], path)))
  {
    hide EntryAt;
    var last := |modules| - 1;
    var init := modules[..last];
    if i < last {
      assert init[..i] == modules[..i];
      MergedFile(init, path, i);
    } else {
      MergedDirs(init, path);
    }
    hide SomeFile, SomeDir, SomeReplaces;
  }

  lemma {:induction false} FirstFileExists(modules: seq<ModuleInfo>, path: Path)
    requires SomeFile(modules, path)
    ensures exists i: nat :: FirstFile(modules, path, i)
  {
    var last := |modules| - 1;
    var init := modules[..last];
    OneMoreModule(modules, path);
    if SomeFile(init, path) {
      FirstFileExists(init, path);
      var i: nat :| FirstFile(init, path, i);
      assert init[..i] == modules[..i];
      assert FirstFile(modules, path, i);
    } else {
      assert FirstFile(modules, path, last);
    }
  }

  function SystemRoot(): Node { Node(Root, DtDir, true, false, map[]) }

  lemma {:induction false} CollectAllAt(modules: seq<ModuleInfo>, path: Path)
    requires (forall m <- modules :: m.system.ModDir?) && path != []
    ensures Plain(CollectAll(SystemRoot(), modules))
    ensures CollectAll(SystemRoot(), modules).kind.Root?
    ensures BlockedAt(CollectAll(SystemRoot(), modules), path) <==> FileAbove(modules, path)
    ensures SummaryAt(CollectAll(SystemRoot(), modules), path)
            == if FileAbove(modules, path) then None else MergeAll(None, modules, path)
  {
    hide BlockedIn, EntryAt, MergeEntry;
    if modules == [] {
    } else {
      var last := |modules| - 1;
      var init, m := modules[..last], modules[last];
      assert m in modules;
      CollectAllAt(init, path);
      var tree := CollectAll(SystemRoot(), init);
      OneMoreModule(modules, path);
      CollectKeepsPlain(tree, m.name, m.system);
      CollectAt(tree, m.name, m.system, path);
    }
  }

  /** The scanned tree at every path: nothing below a module's file; else the first module with a file there supplies it,
      a directory is there when some module has one and carries `.replace` when some module marks it so, and nothing
      else is in the tree. */
  lemma CollectedTree(modules: seq<ModuleInfo>, path: Path)
    requires (forall m <- modules :: m.system.ModDir?) && path != []
    ensures var s := SummaryAt(CollectAll(SystemRoot(), modules), path);
            && (FileAbove(modules, path) ==> s.None?)
            && (!FileAbove(modules, path) ==>
                  && (forall i: nat | FirstFile(modules, path, i) ::
                        s == Some(Summary(Module(modules[i].name),
                                          if SomeDir(modules[..i], path) then DtDir
                                          else EntryAt(modules[i].system, path).value.ftype,
                                          SomeReplaces(modules[..i], path))))
                  && (!SomeFile(modules, path) && SomeDir(modules, path) ==>
                        s == Some(Summary(Inter, DtDir, SomeReplaces(modules, path))))
                  && (NoEntry(modules, path) ==> s.None?))
  {
    hide CollectAll, SummaryAt, MergeAll, EntryAt, BlockedIn;
    CollectAllAt(modules, path);
    forall i: nat | FirstFile(modules, path, i)
      ensures MergeAll(None, modules, path)
              == Some(Summary(Module(modules[i].name),
                              if SomeDir(modules[..i], path) then DtDir else EntryAt(modules[i].system, path).value.ftype,
                              SomeReplaces(modules[..i], path)))
    {
      MergedFile(modules, path, i);
    }
    if !SomeFile(modules, path) {
      MergedDirs(modules, path);
    }
  }

  predicate ReplaceAt(node: Node, path: Path) {
    SummaryAt(node, path).Some? && SummaryAt(node, path).value.replace
  }

  predicate FileAt(node: Node, path: Path) {
    SummaryAt(node, path).Some? && SummaryAt(node, path).value.kind.Module?
  }

  /** Files of the tree are files of modules, and so are marks where no module has a file. */
  lemma TreeMatchesModules(modules: seq<ModuleInfo>, path: Path)
    requires (forall m <- modules :: m.system.ModDir?) && path != []
    ensures FileAt(CollectAll(SystemRoot(), modules), path) <==> SomeFile(modules, path) && !FileAbove(modules, path)
    ensures !SomeFile(modules, path) && !FileAbove(modules, path) ==>
              (ReplaceAt(CollectAll(SystemRoot(), modules), path) <==> SomeReplaces(modules, path))
  {
    hide CollectAll, SummaryAt, MergeAll, EntryAt, BlockedIn;
    CollectAllAt(modules, path);
    if SomeFile(modules, path) {
      FirstFileExists(modules, path);
      var i: nat :| FirstFile(modules, path, i);
      MergedFile(modules, path, i);
    } else {
      MergedDirs(modules, path);
    }
  }
}
