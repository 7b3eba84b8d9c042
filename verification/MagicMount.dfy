/** Rewriting the node tree against the real file system, and what mounting it then shows. */
module MagicMount {
  import opened Common
  import opened FileTree
  import opened NodeTree

  function TypeOf(kind: LeafKind): FileType {
    match kind
    case Regular => DtReg
    case Symlink => DtLnk
    case Special => DtOther
  }

  function KindOf(ftype: FileType): LeafKind {
    match ftype
    case DtReg => Regular
    case DtLnk => Symlink
    case _ => Special
  }

  function ListingOf(target: Option<Fs>): map<Name, Fs> {
    if target.Some? && target.value.Dir? then target.value.entries else map[]
  }

  /** A bind mount cannot serve this node: its target is missing, or a symlink or a whiteout is involved. */
  predicate CannotMount(node: Node, target: Option<Fs>) { CannotBind(node.ftype, target) }

  predicate CannotBind(ftype: FileType, target: Option<Fs>) {
    match target
    case None => !ftype.DtWht?
    case Some(f) => ftype.DtLnk? || (f.Leaf? && f.kind.Symlink?) || ftype.DtWht?
  }

  /** The dummy node the `tmpfs_node` constructor makes for a directory entry. */
  function Dummy(f: Fs): Node {
    Node(Inter, if f.Dir? then DtDir else TypeOf(f.kind), false, false, map[])
  }

  /** `tmpfs_node(node)`: unless replaced, list the real directory for the names not yet there,
      then turn every child that is still an `inter_node` into a tmpfs node too. */
  function Upgrade(node: Node, target: Option<Fs>): Node
    decreases node
  {
    var listed := !node.replace && target.Some? && target.value.Dir?;
    Node(Tmpfs, node.ftype, node.exist || listed, node.replace,
         (map name | name in node.children ::
            if node.children[name].kind.Inter? then Upgrade(node.children[name], Child(target, name))
            else node.children[name])
         + (map name | name in ListingOf(target) && !node.replace && name !in node.children ::
              Mirror(ListingOf(target)[name])))
  }

  /** A real entry as a tmpfs node: directories are mirrored all the way down. */
  function Mirror(f: Fs): Node {
    match f
    case Leaf(kind, _) => Node(Tmpfs, TypeOf(kind), false, false, map[])
    case Dir(entries) => Node(Tmpfs, DtDir, true, false, map name | name in entries :: Mirror(entries[name]))
  }

  /** `Mirror` is what the constructor makes of a dummy node. */
  lemma {:induction false} MirrorIsUpgradedDummy(f: Fs)
    ensures Mirror(f) == Upgrade(Dummy(f), Some(f))
  {
    if f.Dir? {
      assert Upgrade(Dummy(f), Some(f)).children == Mirror(f).children;
    }
  }

  /** `upgrade<tmpfs_node>`: only an `inter_node` has a lower rank; any other node is left as it is. */
  function UpgradeToTmpfs(node: Node, target: Option<Fs>): Node {
    if RankOf(node.kind) < RankOf(Tmpfs) then Upgrade(node, target) else node
  }

  datatype Prepared = Prepared(node: Node, upgrade: bool)

  /** The children `prepare` keeps: a partition root cannot become a tmpfs, so it drops the
      children that would need it to. */
  predicate Keeps(node: Node, name: Name, target: Option<Fs>)
    requires name in node.children
  {
    RankOf(node.kind) > RankOf(Tmpfs) ==> !CannotMount(node.children[name], Child(target, name))
  }

  /** `dir_node::prepare` on a node with the given exist and replace bits. */
  function PrepareDir(node: Node, exist: bool, replace: bool, target: Option<Fs>): Prepared
    decreases node, 0
  {
    Prepared(
      Node(node.kind, node.ftype, exist, replace,
           map name | name in node.children && Keeps(node, name, target) ::
             PrepareChild(node.children[name], replace, Child(target, name))),
      NeedsTmpfs(node, exist, replace, target))
  }

  /** A child that stays but needs its directory to be a tmpfs. */
  predicate Forces(node: Node, name: Name, target: Option<Fs>)
    requires name in node.children
  {
    Keeps(node, name, target) && CannotMount(node.children[name], Child(target, name))
  }

  predicate NeedsTmpfs(node: Node, exist: bool, replace: bool, target: Option<Fs>) {
    replace || !exist || exists name | name in node.children :: Forces(node, name, target)
  }

  /** One round of the loop in `prepare`. */
  function PrepareChild(child: Node, shadow: bool, target: Option<Fs>): Node
    decreases child, 1
  {
    var exist := child.exist || target.Some?;
    if !IsDirKind(child.kind) then child.(exist := exist)
    else
      var p := PrepareDir(child, exist, shadow || child.replace, target);
      if p.upgrade then UpgradeToTmpfs(p.node, target) else p.node
  }

  // ----- the loops themselves -----

  /** The children while the loop has still to visit the names in `todo`. */
  function PartlyPrepared(node: Node, replace: bool, target: Option<Fs>, todo: set<Name>): map<Name, Node> {
    map name | name in node.children && (name in todo || Keeps(node, name, target)) ::
      if name in todo then node.children[name] else PrepareChild(node.children[name], replace, Child(target, name))
  }

  /** Some child already visited needs the directory to be a tmpfs. */
  predicate SomeForces(node: Node, target: Option<Fs>, todo: set<Name>) {
    exists name | name in node.children && name !in todo :: Forces(node, name, target)
  }

  lemma OneMorePrepared(node: Node, replace: bool, target: Option<Fs>, todo: set<Name>, name: Name)
    requires name in node.children && name in todo
    ensures var before, after := PartlyPrepared(node, replace, target, todo),
                                 PartlyPrepared(node, replace, target, todo - {name});
            && name in before && before[name] == node.children[name]
            && after == if Keeps(node, name, target)
                        then before[name := PrepareChild(node.children[name], replace, Child(target, name))]
                        else before - {name}
    ensures SomeForces(node, target, todo - {name}) <==> SomeForces(node, target, todo) || Forces(node, name, target)
  {
    hide PrepareChild, Keeps, Forces, Child;
  }

  lemma PreparedEnds(node: Node, exist: bool, replace: bool, target: Option<Fs>)
    ensures PartlyPrepared(node, replace, target, node.children.Keys) == node.children
    ensures !SomeForces(node, target, node.children.Keys)
    ensures PrepareDir(node, exist, replace, target)
            == Prepared(Node(node.kind, node.ftype, exist, replace, PartlyPrepared(node, replace, target, {})),
                        replace || !exist || SomeForces(node, target, {}))
  {
    assert PartlyPrepared(node, replace, target, {}) == PrepareDir(node, exist, replace, target).node.children;
  }

  /** `prepare` as it runs: children are erased and upgraded in place while the loop walks over them. */
  method PrepareInPlace(node: Node, exist: bool, replace: bool, target: Option<Fs>) returns (result: Prepared)
    ensures result == PrepareDir(node, exist, replace, target)
    decreases node, 0
  {
    hide PrepareChild, PartlyPrepared, PrepareDir, SomeForces;
    PreparedEnds(node, exist, replace, target);
    var children, todo := node.children, node.children.Keys;
    var upgrade := replace || !exist;
    while todo != {}
      invariant todo <= node.children.Keys
      invariant children == PartlyPrepared(node, replace, target, todo)
      invariant upgrade <==> replace || !exist || SomeForces(node, target, todo)
    {
      var name :| name in todo;
      OneMorePrepared(node, replace, target, todo, name);
      var child := children[name];
      var cannot := CannotMount(child, Child(target, name));
      if cannot && RankOf(node.kind) > RankOf(Tmpfs) {
        children := children - {name};
      } else {
        if cannot { upgrade := true; }
        var ready := PrepareOne(child, replace, Child(target, name));
        children := children[name := ready];
      }
      todo := todo - {name};
    }
    result := Prepared(Node(node.kind, node.ftype, exist, replace, children), upgrade);
  }

  method PrepareOne(child: Node, shadow: bool, target: Option<Fs>) returns (result: Node)
    ensures result == PrepareChild(child, shadow, target)
    decreases child, 1
  {
    var exist := child.exist || target.Some?;
    result := child.(exist := exist);
    if IsDirKind(child.kind) {
      var p := PrepareInPlace(child, exist, shadow || child.replace, target);
      result := p.node;
      if p.upgrade && RankOf(p.node.kind) < RankOf(Tmpfs) {
        result := BuildTmpfs(p.node, target);
      }
    }
  }

  /** The names found in the real directory, as dummy nodes beside the children already there. */
  function Listed(children: map<Name, Node>, listing: map<Name, Fs>): map<Name, Node> {
    (map name | name in listing :: Dummy(listing[name])) + children
  }

  function UpgradedAll(children: map<Name, Node>, target: Option<Fs>): map<Name, Node> {
    map name | name in children :: UpgradeToTmpfs(children[name], Child(target, name))
  }

  /** The two passes of the constructor give the upgraded node. */
  lemma ListThenUpgrade(node: Node, target: Option<Fs>)
    ensures Upgrade(node, target).children
            == UpgradedAll(Listed(node.children, if node.replace then map[] else ListingOf(target)), target)
  {
    hide Upgrade, Mirror, ListingOf;
    var listing := if node.replace then map[] else ListingOf(target);
    var a, b := Upgrade(node, target).children, UpgradedAll(Listed(node.children, listing), target);
    forall name
      ensures name in a <==> name in b
      ensures name in a ==> a[name] == b[name]
    {
      UpgradedChildren(node, target, name);
      if name in listing {
        MirrorIsUpgradedDummy(listing[name]);
        assert Child(target, name) == Some(listing[name]) by { ListingIsChild(target, name); }
      }
    }
  }

  lemma ListingIsChild(target: Option<Fs>, name: Name)
    requires name in ListingOf(target)
    ensures Child(target, name) == Some(ListingOf(target)[name])
  {
  }

  lemma OneMoreListed(children: map<Name, Node>, listing: map<Name, Fs>, todo: set<Name>, name: Name)
    requires name in listing && name in todo
    ensures var before, after := Listed(children, listing - todo), Listed(children, listing - (todo - {name}));
            && Lookup(before, name) == Lookup(children, name)
            && after == before[name := InsertAt(Lookup(before, name), Dummy(listing[name]))]
  {
    hide Listed, InsertAt, Dummy;
    DummyNeverReplaces(Lookup(children, name), listing[name]);
    ListedWith(children, listing - todo, name, listing[name]);
    assert listing - (todo - {name}) == (listing - todo)[name := listing[name]];
  }

  lemma ListedWith(children: map<Name, Node>, listing: map<Name, Fs>, name: Name, f: Fs)
    requires name !in listing
    ensures Lookup(Listed(children, listing), name) == Lookup(children, name)
    ensures Listed(children, listing[name := f])
            == Listed(children, listing)[name := if name in children then children[name] else Dummy(f)]
  {
    hide Dummy;
  }

  lemma DummyNeverReplaces(existing: Option<Node>, f: Fs)
    ensures InsertAt(existing, Dummy(f)) == if existing.None? then Dummy(f) else existing.value
  {
  }

  /** The first pass: every name of the listing is offered as a dummy `inter_node`. */
  method ListDirectory(children: map<Name, Node>, listing: map<Name, Fs>) returns (result: map<Name, Node>)
    ensures result == Listed(children, listing)
  {
    result := children;
    var todo := listing.Keys;
    assert listing - todo == map[] && Listed(children, map[]) == children;
    hide Listed;
    while todo != {}
      invariant todo <= listing.Keys
      invariant result == Listed(children, listing - todo)
    {
      var name :| name in todo;
      OneMoreListed(children, listing, todo, name);
      result := result[name := InsertAt(Lookup(result, name), Dummy(listing[name]))];
      todo := todo - {name};
    }
    assert listing - todo == listing;
  }

  /** Children of which those in `todo` are still to be upgraded. */
  function PartlyUpgraded(children: map<Name, Node>, target: Option<Fs>, todo: set<Name>): map<Name, Node> {
    map name | name in children ::
      if name in todo then children[name] else UpgradeToTmpfs(children[name], Child(target, name))
  }

  lemma OneMoreUpgraded(children: map<Name, Node>, target: Option<Fs>, todo: set<Name>, name: Name)
    requires name in children && name in todo
    ensures name in PartlyUpgraded(children, target, todo)
    ensures PartlyUpgraded(children, target, todo)[name] == children[name]
    ensures PartlyUpgraded(children, target, todo - {name})
            == PartlyUpgraded(children, target, todo)[name := UpgradeToTmpfs(children[name], Child(target, name))]
  {
  }

  function Content(target: Option<Fs>): Fs {
    if target.Some? then target.value else Dir(map[])
  }

  /** Every step down goes to a smaller real directory, or to a child in a place that has none. */
  lemma ListedChild(node: Node, target: Option<Fs>, name: Name)
    requires name in Listed(node.children, if node.replace then map[] else ListingOf(target))
    ensures var child := Listed(node.children, if node.replace then map[] else ListingOf(target))[name];
            (target.Some?, Content(target), node decreases to Child(target, name).Some?, Content(Child(target, name)), child)
  {
  }

  /** The constructor of `tmpfs_node` as it runs: a pass that lists the real directory, then a pass
      that upgrades in place. */
  method BuildTmpfs(node: Node, target: Option<Fs>) returns (result: Node)
    ensures result == Upgrade(node, target)
    decreases target.Some?, Content(target), node, 2
  {
    var exist := node.exist || (!node.replace && target.Some? && target.value.Dir?);
    var children := ListDirectory(node.children, if node.replace then map[] else ListingOf(target));
    children := UpgradeChildren(node, target, children);
    ListThenUpgrade(node, target);
    result := Node(Tmpfs, node.ftype, exist, node.replace, children);
  }

  /** The second pass: every child that is still an `inter_node` becomes a tmpfs node. */
  method UpgradeChildren(ghost node: Node, target: Option<Fs>, start: map<Name, Node>)
    returns (children: map<Name, Node>)
    requires start == Listed(node.children, if node.replace then map[] else ListingOf(target))
    ensures children == UpgradedAll(start, target)
    decreases target.Some?, Content(target), node, 1
  {
    hide UpgradeToTmpfs, Upgrade, Listed;
    children := start;
    var todo := start.Keys;
    assert PartlyUpgraded(start, target, todo) == start;
    while todo != {}
      invariant todo <= start.Keys
      invariant children == PartlyUpgraded(start, target, todo)
    {
      var name :| name in todo;
      OneMoreUpgraded(start, target, todo, name);
      var child := UpgradeListed(node, target, name, start[name]);
      children := children[name := child];
      todo := todo - {name};
    }
    assert PartlyUpgraded(start, target, {}) == UpgradedAll(start, target);
  }

  method UpgradeListed(ghost node: Node, target: Option<Fs>, name: Name, child: Node) returns (result: Node)
    requires name in Listed(node.children, if node.replace then map[] else ListingOf(target))
    requires child == Listed(node.children, if node.replace then map[] else ListingOf(target))[name]
    ensures result == UpgradeToTmpfs(child, Child(target, name))
    decreases target.Some?, Content(target), node, 0
  {
    result := child;
    if child.kind.Inter? {
      ListedChild(node, target, name);
      result := BuildTmpfs(child, Child(target, name));
    }
  }

  // ----- what mounting a prepared tree shows -----

  /** The names something is shown under. */
  function Visible(entries: map<Name, Option<Fs>>): map<Name, Fs> {
    map name | name in entries && entries[name].Some? :: entries[name].value
  }

  function Get(entries: map<Name, Option<Fs>>, name: Name): Option<Fs> {
    if name in entries then entries[name] else None
  }

  lemma VisibleEqual(a: map<Name, Option<Fs>>, b: map<Name, Option<Fs>>)
    ensures Visible(a) == Visible(b) <==> forall name :: Get(a, name) == Get(b, name)
  {
    forall name ensures Get(a, name) == if name in Visible(a) then Some(Visible(a)[name]) else None { }
    forall name ensures Get(b, name) == if name in Visible(b) then Some(Visible(b)[name]) else None { }
    if forall name :: Get(a, name) == Get(b, name) {
      forall name
        ensures name in Visible(a) <==> name in Visible(b)
        ensures name in Visible(a) ==> Visible(a)[name] == Visible(b)[name]
      {
        assert Get(a, name) == Get(b, name);
      }
    }
  }

  /** What a child of a tmpfs node leaves in its parent's worker directory. Only directories,
      regular files and symlinks are created there. */
  function WorkerEntry(node: Node, at: Path, target: Option<Fs>): Option<Fs>
    decreases node, 1
  {
    match node.kind
    case Module(owner) =>
      (match node.ftype
       case DtReg => Some(Leaf(Regular, FromModule(owner, at)))
       case DtLnk => Some(Leaf(Symlink, FromModule(owner, at)))
       case DtDir => Some(Dir(map[]))
       case _ => None)
    case Tmpfs =>
      (match node.ftype
       case DtDir => Some(Dir(Visible(WorkerNames(node, at, target))))
       case DtOther => None
       case DtWht => None
       case _ => target)
    case _ => None
  }

  function WorkerNames(node: Node, at: Path, target: Option<Fs>): map<Name, Option<Fs>>
    decreases node, 0
  {
    map name | name in node.children :: WorkerEntry(node.children[name], at + [name], Child(target, name))
  }

  /** What an existing entry looks like once a node outside any tmpfs has been mounted over it. */
  function Mounted(node: Node, at: Path, target: Fs): Fs
    decreases node
  {
    match node.kind
    case Module(owner) =>
      if node.ftype.DtWht? || target.Dir? then target
      else Leaf(KindOf(node.ftype), FromModule(owner, at))
    case Tmpfs =>
      if node.ftype.DtDir? && target.Dir? then WorkerEntry(node, at, Some(target)).value else target
    case _ =>
      if target.Dir? then
        Dir(map name | name in target.entries ::
              if name in node.children then Mounted(node.children[name], at + [name], target.entries[name])
              else target.entries[name])
      else target
  }

  // ----- the meaning of the module tree -----

  /** The intended view: a module's file where there is one, nothing under a whiteout or in a
      replaced directory, the original otherwise. What a partition root drops stays original. */
  function Overlay(node: Node, shadow: bool, at: Path, target: Option<Fs>): Option<Fs>
    decreases node, 1
  {
    match node.kind
    case Module(owner) =>
      if node.ftype.DtWht? then None else Some(Leaf(KindOf(node.ftype), FromModule(owner, at)))
    case _ => Some(Dir(Visible(OverlayNames(node, shadow || node.replace, at, target))))
  }

  function OverlayNames(node: Node, hidden: bool, at: Path, target: Option<Fs>): map<Name, Option<Fs>>
    decreases node, 0
  {
    map name | name in node.children.Keys + ListingOf(target).Keys ::
      if name in node.children && Keeps(node, name, target)
      then Overlay(node.children[name], hidden, at + [name], Child(target, name))
      else if hidden then None else Child(target, name)
  }

  predicate HasSpecial(f: Fs) {
    match f
    case Leaf(kind, _) => kind.Special?
    case Dir(entries) => exists name | name in entries :: HasSpecial(entries[name])
  }

  /** Mounting cannot give the intended view. In a directory rebuilt on tmpfs, a device node, fifo or socket, of a module
      or of the system, cannot be recreated, nor can a module's file that has taken the type of a directory. Elsewhere, a
      file cannot be mounted over a directory, nor a directory over a file. */
  predicate Fails(node: Node, shadow: bool, target: Option<Fs>, inTmpfs: bool)
    decreases node, 1
  {
    if !IsDirKind(node.kind) then
      if inTmpfs then node.ftype.DtOther? || node.ftype.DtDir? else target.Some? && target.value.Dir?
    else
      var hidden := shadow || node.replace;
      var rebuilt := inTmpfs || NeedsTmpfs(node, node.exist || target.Some?, hidden, target);
      || (!inTmpfs && target.Some? && target.value.Leaf?)
      || exists name | name in node.children.Keys + ListingOf(target).Keys ::
           FailsName(node, hidden, target, rebuilt, name)
  }

  predicate FailsName(node: Node, hidden: bool, target: Option<Fs>, rebuilt: bool, name: Name)
    requires name in node.children.Keys + ListingOf(target).Keys
    decreases node, 0
  {
    if name in node.children then
      Keeps(node, name, target) && Fails(node.children[name], hidden, Child(target, name), rebuilt)
    else rebuilt && !hidden && HasSpecial(ListingOf(target)[name])
  }

  predicate FailsSome(node: Node, hidden: bool, target: Option<Fs>, rebuilt: bool, name: Name) {
    name in node.children.Keys + ListingOf(target).Keys && FailsName(node, hidden, target, rebuilt, name)
  }

  lemma FailsByName(node: Node, shadow: bool, target: Option<Fs>, inTmpfs: bool)
    requires IsDirKind(node.kind) && (!inTmpfs && target.Some? ==> target.value.Dir?)
    ensures var hidden := shadow || node.replace;
            var rebuilt := inTmpfs || NeedsTmpfs(node, node.exist || target.Some?, hidden, target);
            Fails(node, shadow, target, inTmpfs)
            <==> exists name :: FailsSome(node, hidden, target, rebuilt, name)
  {
    var hidden := shadow || node.replace;
    var rebuilt := inTmpfs || NeedsTmpfs(node, node.exist || target.Some?, hidden, target);
    if name :| FailsSome(node, hidden, target, rebuilt, name) {
      assert FailsName(node, hidden, target, rebuilt, name);
    }
    if Fails(node, shadow, target, inTmpfs) {
      var name :| name in node.children.Keys + ListingOf(target).Keys && FailsName(node, hidden, target, rebuilt, name);
      assert FailsSome(node, hidden, target, rebuilt, name);
    }
  }

  lemma EqualUnlessFailed(a: map<Name, Option<Fs>>, b: map<Name, Option<Fs>>,
                        node: Node, hidden: bool, target: Option<Fs>, rebuilt: bool)
    requires forall name :: Get(a, name) == Get(b, name) <==> !FailsSome(node, hidden, target, rebuilt, name)
    ensures Visible(a) == Visible(b) <==> !exists name :: FailsSome(node, hidden, target, rebuilt, name)
  {
    VisibleEqual(a, b);
  }

  // ----- preparing and mounting gives the intended view -----

  lemma {:induction false} MirrorShowsOriginal(f: Fs, at: Path)
    ensures WorkerEntry(Mirror(f), at, Some(f)) == Some(f) <==> !HasSpecial(f)
  {
    if f.Leaf? {
    } else {
      var shown := WorkerNames(Mirror(f), at, Some(f));
      var wanted := map name | name in f.entries :: Some(f.entries[name]);
      forall name | name in f.entries
        ensures Get(shown, name) == Get(wanted, name) <==> !HasSpecial(f.entries[name])
      {
        MirrorShowsOriginal(f.entries[name], at + [name]);
        assert shown[name] == WorkerEntry(Mirror(f.entries[name]), at + [name], Some(f.entries[name]));
      }
      VisibleEqual(shown, wanted);
      assert Visible(wanted) == f.entries;
      assert WorkerEntry(Mirror(f), at, Some(f)) == Some(Dir(Visible(shown)));
    }
  }

  /** A scanned directory after `prepare`: all its children are still there, each prepared. */
  lemma PreparedChildren(node: Node, exist: bool, hidden: bool, target: Option<Fs>)
    requires node.kind.Inter?
    ensures var p := PrepareDir(node, exist, hidden, target).node;
            && p.children.Keys == node.children.Keys
            && forall name | name in node.children ::
                 p.children[name] == PrepareChild(node.children[name], hidden, Child(target, name))
  {
  }

  /** The children of an upgraded node. */
  lemma UpgradedChildren(node: Node, target: Option<Fs>, name: Name)
    ensures var children := Upgrade(node, target).children;
            if name in node.children then
              name in children && children[name] == UpgradeToTmpfs(node.children[name], Child(target, name))
            else if name in ListingOf(target) && !node.replace then
              name in children && children[name] == Mirror(ListingOf(target)[name])
            else name !in children
  {
    hide Mirror, Child, ListingOf;
  }

  /** A prepared directory, seen from inside a tmpfs, is the same whether it was upgraded on its
      own account or only because of its parent. */
  lemma UpgradedEitherWay(node: Node, shadow: bool, target: Option<Fs>)
    requires node.kind.Inter?
    ensures UpgradeToTmpfs(PrepareChild(node, shadow, target), target)
            == Upgrade(PrepareDir(node, node.exist || target.Some?, shadow || node.replace, target).node, target)
  {
  }

  /** In a tmpfs parent the prepared node shows the intended view unless that fails. */
  ghost predicate RightInWorker(node: Node, shadow: bool, at: Path, target: Option<Fs>) {
    WorkerEntry(UpgradeToTmpfs(PrepareChild(node, shadow, target), target), at, target)
    == Overlay(node, shadow, at, target)
    <==> !Fails(node, shadow, target, true)
  }

  /** Mounted over an existing entry, likewise. */
  ghost predicate RightInPlace(node: Node, shadow: bool, at: Path, target: Option<Fs>) {
    target.Some? && !CannotMount(node, target) ==>
      (Some(Mounted(PrepareChild(node, shadow, target), at, target.value)) == Overlay(node, shadow, at, target)
       <==> !Fails(node, shadow, target, false))
  }

  /** Main theorem, for a node of the scanned tree: in a tmpfs parent, and mounted over an existing
      entry, the prepared node shows exactly the intended view if and only if nothing in it fails. */
  lemma {:induction false} PreparedShowsOverlay(node: Node, shadow: bool, at: Path, target: Option<Fs>)
    requires PlainKind(node) && Plain(node)
    ensures RightInWorker(node, shadow, at, target)
    ensures RightInPlace(node, shadow, at, target)
    decreases node
  {
    if !node.kind.Inter? {
      FileShows(node, shadow, at, target);
    } else {
      hide RightInWorker, RightInPlace, RebuiltRight, InPlaceRight, NeedsTmpfs, Visible, WorkerNames, OverlayNames, Rebuilt,
           FailsSome;
      var hidden := shadow || node.replace;
      forall name ensures RebuiltRight(node, hidden, at, target, name) {
        if name in node.children {
          PreparedShowsOverlay(node.children[name], hidden, at + [name], Child(target, name));
        }
        RebuiltName(node, hidden, at, target, name);
      }
      RebuiltNames(node, hidden, at, target);
      RebuiltDirectory(node, shadow, hidden, at, target);
      if target.None? || target.value.Leaf? {
        NotOverFile(node, shadow, at, target);
      } else if NeedsTmpfs(node, true, hidden, target) {
        RebuiltInPlace(node, shadow, at, target);
      } else {
        NothingForces(node, hidden, target);
        forall name ensures InPlaceRight(node, at, target, name) {
          if name in node.children {
            PreparedShowsOverlay(node.children[name], hidden, at + [name], Child(target, name));
          }
          InPlaceName(node, at, target, name);
        }
        MountedDirectory(node, shadow, at, target);
      }
    }
  }

  /** A module's file. */
  lemma FileShows(node: Node, shadow: bool, at: Path, target: Option<Fs>)
    requires node.kind.Module?
    ensures RightInWorker(node, shadow, at, target) && RightInPlace(node, shadow, at, target)
  {
  }

  /** A directory without a target cannot be mounted, and one over a file is not shown. */
  lemma NotOverFile(node: Node, shadow: bool, at: Path, target: Option<Fs>)
    requires node.kind.Inter? && (target.None? || target.value.Leaf?)
    ensures RightInPlace(node, shadow, at, target)
  {
  }

  lemma NothingForces(node: Node, hidden: bool, target: Option<Fs>)
    requires !NeedsTmpfs(node, true, hidden, target)
    ensures !hidden && forall name | name in node.children :: !Forces(node, name, target)
  {
  }

  /** The directory node a scanned directory becomes when it has to be rebuilt. */
  function Rebuilt(node: Node, hidden: bool, target: Option<Fs>): Node {
    Upgrade(PrepareDir(node, node.exist || target.Some?, hidden, target).node, target)
  }

  /** The child a rebuilt directory has under each name. */
  lemma RebuiltChild(node: Node, hidden: bool, target: Option<Fs>, name: Name)
    requires node.kind.Inter?
    ensures var children := Rebuilt(node, hidden, target).children;
            if name in node.children then
              name in children
              && children[name]
                 == UpgradeToTmpfs(PrepareChild(node.children[name], hidden, Child(target, name)), Child(target, name))
            else if name in ListingOf(target) && !hidden then
              name in children && children[name] == Mirror(ListingOf(target)[name])
            else name !in children
  {
    PreparedChildren(node, node.exist || target.Some?, hidden, target);
    UpgradedChildren(PrepareDir(node, node.exist || target.Some?, hidden, target).node, target, name);
  }

  /** One name of a rebuilt directory is as intended unless it fails. */
  ghost predicate RebuiltRight(node: Node, hidden: bool, at: Path, target: Option<Fs>, name: Name) {
    Get(WorkerNames(Rebuilt(node, hidden, target), at, target), name)
    == Get(OverlayNames(node, hidden, at, target), name)
    <==> !FailsSome(node, hidden, target, true, name)
  }

  lemma RebuiltName(node: Node, hidden: bool, at: Path, target: Option<Fs>, name: Name)
    requires node.kind.Inter?
    requires name in node.children ==>
               RightInWorker(node.children[name], hidden, at + [name], Child(target, name))
    ensures RebuiltRight(node, hidden, at, target, name)
  {
    RebuiltChild(node, hidden, target, name);
    var rebuilt := Rebuilt(node, hidden, target);
    var shown := Get(WorkerNames(rebuilt, at, target), name);
    var wanted := Get(OverlayNames(node, hidden, at, target), name);
    if name in node.children {
      assert Keeps(node, name, target);
      assert shown == WorkerEntry(rebuilt.children[name], at + [name], Child(target, name));
      assert wanted == Overlay(node.children[name], hidden, at + [name], Child(target, name));
    } else if name !in ListingOf(target) || hidden {
      assert shown == wanted == None;
    } else {
      assert shown == WorkerEntry(Mirror(ListingOf(target)[name]), at + [name], Child(target, name));
      MirrorShowsOriginal(ListingOf(target)[name], at + [name]);
      assert wanted == Some(ListingOf(target)[name]);
    }
  }

  lemma RebuiltView(node: Node, shadow: bool, hidden: bool, at: Path, target: Option<Fs>)
    requires node.kind.Inter? && node.ftype.DtDir? && hidden == (shadow || node.replace)
    ensures WorkerEntry(UpgradeToTmpfs(PrepareChild(node, shadow, target), target), at, target)
            == Some(Dir(Visible(WorkerNames(Rebuilt(node, hidden, target), at, target))))
  {
    UpgradedEitherWay(node, shadow, target);
  }

  lemma RebuiltNames(node: Node, hidden: bool, at: Path, target: Option<Fs>)
    requires forall name :: RebuiltRight(node, hidden, at, target, name)
    ensures Visible(WorkerNames(Rebuilt(node, hidden, target), at, target))
            == Visible(OverlayNames(node, hidden, at, target))
            <==> !exists name :: FailsSome(node, hidden, target, true, name)
  {
    var shown, wanted := WorkerNames(Rebuilt(node, hidden, target), at, target), OverlayNames(node, hidden, at, target);
    forall name ensures Get(shown, name) == Get(wanted, name) <==> !FailsSome(node, hidden, target, true, name) {
      assert RebuiltRight(node, hidden, at, target, name);
    }
    EqualUnlessFailed(shown, wanted, node, hidden, target, true);
  }

  /** A directory rebuilt on tmpfs, given that its names are right. */
  lemma RebuiltDirectory(node: Node, shadow: bool, hidden: bool, at: Path, target: Option<Fs>)
    requires node.kind.Inter? && node.ftype.DtDir? && hidden == (shadow || node.replace)
    requires Visible(WorkerNames(Rebuilt(node, hidden, target), at, target))
             == Visible(OverlayNames(node, hidden, at, target))
             <==> !exists name :: FailsSome(node, hidden, target, true, name)
    ensures RightInWorker(node, shadow, at, target)
  {
    hide Upgrade, PrepareDir, PrepareChild, WorkerNames, OverlayNames, Visible, FailsSome;
    var shown, wanted := Visible(WorkerNames(Rebuilt(node, hidden, target), at, target)),
                         Visible(OverlayNames(node, hidden, at, target));
    assert WorkerEntry(UpgradeToTmpfs(PrepareChild(node, shadow, target), target), at, target) == Some(Dir(shown)) by {
      RebuiltView(node, shadow, hidden, at, target);
    }
    assert Overlay(node, shadow, at, target) == Some(Dir(wanted));
    assert Fails(node, shadow, target, true) <==> exists name :: FailsSome(node, hidden, target, true, name) by {
      FailsByName(node, shadow, target, true);
    }
  }

  /** A rebuilt directory looks the same bound over its target as it does in a worker directory. */
  lemma RebuiltInPlace(node: Node, shadow: bool, at: Path, target: Option<Fs>)
    requires node.kind.Inter? && node.ftype.DtDir? && target.Some? && target.value.Dir?
    requires NeedsTmpfs(node, true, shadow || node.replace, target)
    requires RightInWorker(node, shadow, at, target)
    ensures RightInPlace(node, shadow, at, target)
  {
    var ready := PrepareChild(node, shadow, target);
    assert PrepareDir(node, node.exist || target.Some?, shadow || node.replace, target).upgrade;
    assert ready.kind.Tmpfs? && ready.ftype.DtDir?;
    assert Some(Mounted(ready, at, target.value)) == WorkerEntry(ready, at, target);
  }

  /** One name of a directory left in place is as intended unless it fails. */
  ghost predicate InPlaceRight(node: Node, at: Path, target: Option<Fs>, name: Name) {
    Get(InPlaceNames(node, at, target), name) == Get(OverlayNames(node, false, at, target), name)
    <==> !FailsSome(node, false, target, false, name)
  }

  ghost function InPlaceNames(node: Node, at: Path, target: Option<Fs>): map<Name, Option<Fs>> {
    map name | name in ListingOf(target) ::
      Some(if name in node.children
           then Mounted(PrepareChild(node.children[name], false, Child(target, name)), at + [name], ListingOf(target)[name])
           else ListingOf(target)[name])
  }

  lemma InPlaceName(node: Node, at: Path, target: Option<Fs>, name: Name)
    requires node.kind.Inter?
    requires name in node.children ==>
               && !Forces(node, name, target) && PlainKind(node.children[name])
               && RightInPlace(node.children[name], false, at + [name], Child(target, name))
    ensures InPlaceRight(node, at, target, name)
  {
    if name in node.children {
      assert Keeps(node, name, target);
      assert Get(OverlayNames(node, false, at, target), name)
          == Overlay(node.children[name], false, at + [name], Child(target, name));
      assert !CannotMount(node.children[name], Child(target, name));
      if name in ListingOf(target) {
        assert Child(target, name) == Some(ListingOf(target)[name]);
      } else {
        assert node.children[name].kind.Module? && node.children[name].ftype.DtWht?;
        assert !Fails(node.children[name], false, Child(target, name), false);
      }
    } else {
      assert Get(OverlayNames(node, false, at, target), name) == Child(target, name);
    }
  }

  /** A directory left in place, given that each of its names is right. */
  lemma MountedDirectory(node: Node, shadow: bool, at: Path, target: Option<Fs>)
    requires node.kind.Inter? && target.Some? && target.value.Dir?
    requires !NeedsTmpfs(node, true, shadow || node.replace, target)
    requires forall name :: InPlaceRight(node, at, target, name)
    ensures RightInPlace(node, shadow, at, target)
  {
    hide FailsSome, Mounted, PrepareChild, InPlaceNames, OverlayNames;
    InPlaceView(node, shadow, at, target);
    var shown, wanted := InPlaceNames(node, at, target), OverlayNames(node, false, at, target);
    forall name ensures Get(shown, name) == Get(wanted, name) <==> !FailsSome(node, false, target, false, name) {
      assert InPlaceRight(node, at, target, name);
    }
    EqualUnlessFailed(shown, wanted, node, false, target, false);
    FailsByName(node, shadow, target, false);
    assert Overlay(node, shadow, at, target) == Some(Dir(Visible(wanted)));
  }

  lemma InPlaceView(node: Node, shadow: bool, at: Path, target: Option<Fs>)
    requires node.kind.Inter? && target.Some? && target.value.Dir?
    requires !NeedsTmpfs(node, true, shadow || node.replace, target)
    ensures Mounted(PrepareChild(node, shadow, target), at, target.value) == Dir(Visible(InPlaceNames(node, at, target)))
  {
    var ready := PrepareDir(node, node.exist || target.Some?, shadow || node.replace, target).node;
    assert PrepareChild(node, shadow, target) == ready;
    PreparedChildren(node, node.exist || target.Some?, shadow || node.replace, target);
    hide PrepareChild, PrepareDir;
    assert Mounted(ready, at, target.value).entries == Visible(InPlaceNames(node, at, target));
  }

  /** Partition roots. They are never rebuilt; `.replace` directly in one is outside what `prepare` supports. */
  lemma RootShowsOverlay(node: Node, at: Path, target: Option<Fs>)
    requires node.kind.Root? && node.exist && !node.replace
    requires Plain(node) && target.Some?
    ensures Some(Mounted(PrepareDir(node, true, false, target).node, at, target.value))
            == Overlay(node, false, at, target)
            <==> !Fails(node, false, target, false)
  {
    if target.value.Dir? {
      RootNamesRight(node, at, target);
      RootView(node, at, target);
      FailsByName(node, false, target, false);
      assert Overlay(node, false, at, target) == Some(Dir(Visible(OverlayNames(node, false, at, target))));
    }
  }

  lemma RootView(node: Node, at: Path, target: Option<Fs>)
    requires node.kind.Root? && target.Some? && target.value.Dir?
    ensures Mounted(PrepareDir(node, true, false, target).node, at, target.value)
            == Dir(Visible(RootNames(node, at, target)))
  {
    var ready := PrepareDir(node, true, false, target).node;
    assert Mounted(ready, at, target.value).entries == Visible(RootNames(node, at, target));
  }

  lemma RootNamesRight(node: Node, at: Path, target: Option<Fs>)
    requires node.kind.Root? && Plain(node)
    ensures Visible(RootNames(node, at, target)) == Visible(OverlayNames(node, false, at, target))
            <==> !exists name :: FailsSome(node, false, target, false, name)
  {
    var shown, wanted := RootNames(node, at, target), OverlayNames(node, false, at, target);
    forall name
      ensures Get(shown, name) == Get(wanted, name) <==> !FailsSome(node, false, target, false, name)
    {
      RootName(node, at, target, name);
    }
    EqualUnlessFailed(shown, wanted, node, false, target, false);
  }

  ghost function RootNames(node: Node, at: Path, target: Option<Fs>): map<Name, Option<Fs>> {
    map name | name in ListingOf(target) ::
      Some(if name in node.children && Keeps(node, name, target)
           then Mounted(PrepareChild(node.children[name], false, Child(target, name)), at + [name], ListingOf(target)[name])
           else ListingOf(target)[name])
  }

  lemma RootName(node: Node, at: Path, target: Option<Fs>, name: Name)
    requires node.kind.Root? && Plain(node)
    ensures Get(RootNames(node, at, target), name) == Get(OverlayNames(node, false, at, target), name)
            <==> !FailsSome(node, false, target, false, name)
  {
    hide Mounted, Overlay, PrepareChild, Fails, CannotBind;
    if name in node.children && Keeps(node, name, target) {
      var child, t := node.children[name], Child(target, name);
      assert PlainKind(child) && Plain(child);
      hide Plain;
      PreparedShowsOverlay(child, false, at + [name], t);
      assert Get(OverlayNames(node, false, at, target), name) == Overlay(child, false, at + [name], t);
      if t.None? { KeptWhiteout(node, target, name, at + [name]); }
    } else {
      assert Get(OverlayNames(node, false, at, target), name) == Child(target, name);
    }
  }

  /** Of the children without a target, a root keeps only whiteouts. */
  lemma KeptWhiteout(node: Node, target: Option<Fs>, name: Name, at: Path)
    requires node.kind.Root? && name in node.children && Keeps(node, name, target) && Child(target, name).None?
    requires PlainKind(node.children[name])
    ensures var child := node.children[name];
            Overlay(child, false, at, None).None? && !Fails(child, false, None, false)
  {
    assert node.children[name].ftype.DtWht?;
  }

  /** One child that fails keeps a partition from showing the intended view. */
  lemma ChildFails(node: Node, at: Path, target: Option<Fs>, name: Name)
    requires node.kind.Root? && node.exist && !node.replace && Plain(node) && target.Some? && target.value.Dir?
    requires name in node.children && Keeps(node, name, target)
    requires Fails(node.children[name], false, Child(target, name), NeedsTmpfs(node, true, false, target))
    ensures Some(Mounted(PrepareDir(node, true, false, target).node, at, target.value)) != Overlay(node, false, at, target)
  {
    hide Mounted, Overlay, PrepareDir, Fails, Keeps, Plain;
    FailsByName(node, false, target, false);
    assert FailsSome(node, false, target, NeedsTmpfs(node, true, false, target), name);
    RootShowsOverlay(node, at, target);
  }

  /** A concrete loss: a module adds a file to a directory that holds a socket, and the view is not the intended one. */
  lemma SpecialFileIsLost() returns (node: Node, target: Option<Fs>)
    ensures node.kind.Root? && node.exist && !node.replace && Plain(node) && target.Some?
    ensures Some(Mounted(PrepareDir(node, true, false, target).node, [], target.value)) != Overlay(node, false, [], target)
  {
    hide Mounted, Overlay, PrepareDir;
    var dir := Node(Inter, DtDir, false, false, map["file" := ModuleNode("module", DtReg)]);
    node := Node(Root, DtDir, true, false, map["dir" := dir]);
    var below := Some(Dir(map["socket" := Leaf(Special, FromSystem(0))]));
    target := Some(Dir(map["dir" := below.value]));
    DirectoryFails(dir, below);
    assert Child(target, "dir") == below && !NeedsTmpfs(node, true, false, target);
    hide Fails, NeedsTmpfs;
    ChildFails(node, [], target, "dir");
  }

  /** A module's file where the device has a directory, and a module's directory where it has a file, are not shown. */
  lemma ClashIsNotShown(file: bool) returns (node: Node, target: Option<Fs>)
    ensures node.kind.Root? && node.exist && !node.replace && Plain(node) && target.Some?
    ensures Some(Mounted(PrepareDir(node, true, false, target).node, [], target.value)) != Overlay(node, false, [], target)
  {
    hide Mounted, Overlay, PrepareDir;
    var child := if file then ModuleNode("module", DtReg) else InterNode();
    var below := if file then Dir(map[]) else Leaf(Regular, FromSystem(0));
    node := Node(Root, DtDir, true, false, map["name" := child]);
    target := Some(Dir(map["name" := below]));
    assert Child(target, "name") == Some(below) && !NeedsTmpfs(node, true, false, target);
    assert Fails(child, false, Some(below), false);
    hide Fails, NeedsTmpfs;
    ChildFails(node, [], target, "name");
  }

  lemma DirectoryFails(dir: Node, below: Option<Fs>)
    requires dir == Node(Inter, DtDir, false, false, map["file" := ModuleNode("module", DtReg)])
    requires below == Some(Dir(map["socket" := Leaf(Special, FromSystem(0))]))
    ensures Fails(dir, false, below, false) && !CannotMount(dir, below)
  {
    assert Forces(dir, "file", below);
    assert FailsName(dir, false, below, true, "socket");
  }
}
