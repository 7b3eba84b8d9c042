/** Ioctl permissions: a driver set and per-driver function sets, held by several nodes of one key. */
module XpermRules {
  import opened Common
  import opened AvTable

  datatype Xperm = Xperm(low: nat, high: nat, reset: bool)

  /** Ioctl numbers have 16 bits: a driver byte above a function byte. */
  const COMMANDS := 0x10000

  function DriverOf(x: nat): (d: nat)
    requires x < COMMANDS
    ensures d < 256
  {
    x / 256
  }

  function FunctionOf(x: nat): (f: nat)
    ensures f < 256
  {
    x % 256
  }

  predicate IsXperm(p: Xperm) { p.low < COMMANDS && p.high < COMMANDS }

  /** The commands a range stands for: whole drivers as soon as its ends differ in driver. */
  predicate InRange(p: Xperm, x: nat)
    requires IsXperm(p) && x < COMMANDS
  {
    if DriverOf(p.low) != DriverOf(p.high) then DriverOf(p.low) <= DriverOf(x) <= DriverOf(p.high)
    else DriverOf(x) == DriverOf(p.low) && FunctionOf(p.low) <= FunctionOf(x) <= FunctionOf(p.high)
  }

  const BYTES: set<nat> := set b: nat | b < 256

  // ----- the nodes of one key -----

  /** 256 for the driver node, else the driver of a function node. */
  function Index(x: Xperms): (i: nat)
    ensures i <= 256
  {
    if x.level == Driver then 256 else x.driver
  }

  predicate Permits(p: Xperms, x: nat)
    requires x < COMMANDS
  {
    if p.level == Driver then DriverOf(x) in p.perms else DriverOf(x) == p.driver && FunctionOf(x) in p.perms
  }

  /** A command covered by some node of the key. */
  ghost predicate Covered(nodes: set<Node>, key: Key, x: nat)
    requires x < COMMANDS
    reads nodes`xperms
  {
    exists n :: n in nodes && n.key == key && Permits(n.xperms, x)
  }

  /** The commands covered by the nodes of the key. */
  ghost function Coverage(nodes: set<Node>, key: Key): set<nat>
    reads nodes`xperms
  {
    set x: nat | x < COMMANDS && Covered(nodes, key, x)
  }

  /** The commands of a range. */
  ghost function Range(p: Xperm): set<nat>
    requires IsXperm(p)
  {
    set x: nat | x < COMMANDS && InRange(p, x)
  }

  ghost const ALL: set<nat> := set x: nat | x < COMMANDS

  /** At most one driver node, and at most one function node per driver. */
  ghost predicate Tidy(nodes: set<Node>, key: Key)
    reads nodes`xperms
  {
    forall m, n | m in nodes && n in nodes && m.key == key && n.key == key && Index(m.xperms) == Index(n.xperms) :: m == n
  }

  /** The list of found nodes holds every node of the key at its index. */
  ghost predicate Listed(list: seq<Node?>, nodes: set<Node>, key: Key)
    reads nodes`xperms
  {
    && |list| == 257
    && (forall n | n in nodes && n.key == key :: list[Index(n.xperms)] == n)
    && (forall i | 0 <= i < 257 :: Holds(list, nodes, key, i))
  }

  ghost predicate Holds(list: seq<Node?>, nodes: set<Node>, key: Key, i: nat)
    requires i < |list|
    reads nodes`xperms
  {
    var n := list[i];
    n != null ==> n in nodes && n.key == key && Index(n.xperms) == i
  }

  /** The permissions of the first listed nodes by index, none where there is no node. */
  ghost function FirstPerms(list: seq<Node?>, nodes: set<Node>, key: Key, k: nat): (r: seq<set<nat>>)
    requires Listed(list, nodes, key) && k <= 257
    reads nodes`xperms
    ensures |r| == k && forall i | 0 <= i < k :: r[i] == PermsAt(list, nodes, key, i)
  {
    if k == 0 then [] else FirstPerms(list, nodes, key, k - 1) + [PermsAt(list, nodes, key, k - 1)]
  }

  ghost function Snapshot(list: seq<Node?>, nodes: set<Node>, key: Key): (r: seq<set<nat>>)
    requires Listed(list, nodes, key)
    reads nodes`xperms
    ensures |r| == 257
    ensures forall i | 0 <= i < 257 :: r[i] == PermsAt(list, nodes, key, i)
  {
    FirstPerms(list, nodes, key, 257)
  }

  ghost function PermsAt(list: seq<Node?>, nodes: set<Node>, key: Key, i: nat): set<nat>
    requires Listed(list, nodes, key) && i < 257
    reads nodes`xperms
  {
    assert Holds(list, nodes, key, i);
    if list[i] == null then {} else list[i].xperms.perms
  }

  /** Coverage read off the list. */
  predicate Covers(perms: seq<set<nat>>, x: nat)
    requires |perms| == 257 && x < COMMANDS
  {
    DriverOf(x) in perms[256] || FunctionOf(x) in perms[DriverOf(x)]
  }

  ghost function CoveredBy(perms: seq<set<nat>>): set<nat>
    requires |perms| == 257
  {
    set x: nat | x < COMMANDS && Covers(perms, x)
  }

  lemma ListedIs(list: seq<Node?>, nodes: set<Node>, key: Key)
    requires Listed(list, nodes, key)
    ensures Tidy(nodes, key) && Coverage(nodes, key) == CoveredBy(Snapshot(list, nodes, key))
  {
    var perms := Snapshot(list, nodes, key);
    forall x: nat | x < COMMANDS ensures Covered(nodes, key, x) <==> Covers(perms, x) {
      assert Holds(list, nodes, key, 256) && Holds(list, nodes, key, DriverOf(x));
      assert perms[256] == PermsAt(list, nodes, key, 256) && perms[DriverOf(x)] == PermsAt(list, nodes, key, DriverOf(x));
      if Covers(perms, x) {
        if DriverOf(x) in perms[256] {
          assert Permits(list[256].xperms, x);
        } else {
          assert Permits(list[DriverOf(x)].xperms, x);
        }
      }
      if Covered(nodes, key, x) {
        var n :| n in nodes && n.key == key && Permits(n.xperms, x);
        assert list[Index(n.xperms)] == n;
      }
    }
  }

  // ----- the loops -----

  /** Setting the bits of a range. */
  method SetBits(perms: set<nat>, low: nat, high: nat) returns (r: set<nat>)
    ensures forall b :: b in r <==> b in perms || low <= b <= high
  {
    r := perms;
    var i := low;
    while i <= high
      invariant low <= i && (low <= high ==> i <= high + 1)
      invariant forall b :: b in r <==> b in perms || (low <= b < i && b <= high)
      decreases high + 1 - i
    {
      r, i := r + {i}, i + 1;
    }
  }

  method ClearBits(perms: set<nat>, low: nat, high: nat) returns (r: set<nat>)
    ensures forall b :: b in r <==> b in perms && !(low <= b <= high)
  {
    r := perms;
    var i := low;
    while i <= high
      invariant low <= i && (low <= high ==> i <= high + 1)
      invariant forall b :: b in r <==> b in perms && !(low <= b < i && b <= high)
      decreases high + 1 - i
    {
      r, i := r - {i}, i + 1;
    }
  }

  /** The nodes of the key that are not in the list: another node with their index is. */
  ghost function Unlisted(list: seq<Node?>, nodes: set<Node>, key: Key): set<Node>
    requires |list| == 257
    reads nodes`xperms
  {
    set n | n in nodes && n.key == key && list[Index(n.xperms)] != n
  }

  /** The search for all nodes of the key: of several with one index the last is listed. */
  method FindNodes(table: Table, key: Key) returns (list: seq<Node?>)
    requires table.Valid()
    ensures |list| == 257 && Listed(list, table.nodes - Unlisted(list, table.nodes, key), key)
    ensures Unlisted(list, table.nodes, key) == {} <==> Tidy(table.nodes, key)
  {
    var c := table.htable[table.hash(key)];
    assert InSlot(table.hash, table.nodes, c, table.hash(key));
    list := seq(257, _ => null);
    var at := table.SearchFrom(key, 0);
    while at < |c|
      invariant at <= |c| && |list| == 257 && (at < |c| ==> c[at].key == key && c[at] in table.nodes)
      invariant forall i | 0 <= i < 257 :: Holds(list, table.nodes, key, i)
      invariant forall j | 0 <= j < at && c[j].key == key :: list[Index(c[j].xperms)] != null
      decreases |c| - at
    {
      ghost var before := list;
      list := list[Index(c[at].xperms) := c[at]];
      forall i | 0 <= i < 257 ensures Holds(list, table.nodes, key, i) {
        assert Holds(before, table.nodes, key, i);
      }
      at := table.SearchFrom(key, at + 1);
    }
    forall n | n in table.nodes && n.key == key ensures list[Index(n.xperms)] != null {
      assert n in c;
    }
    FoundIsListed(list, table.nodes, key);
  }

  lemma FoundIsListed(list: seq<Node?>, nodes: set<Node>, key: Key)
    requires |list| == 257 && forall i | 0 <= i < 257 :: Holds(list, nodes, key, i)
    requires forall n | n in nodes && n.key == key :: list[Index(n.xperms)] != null
    ensures Listed(list, nodes - Unlisted(list, nodes, key), key)
    ensures Unlisted(list, nodes, key) == {} <==> Tidy(nodes, key)
  {
    var extra := Unlisted(list, nodes, key);
    forall i | 0 <= i < 257 ensures Holds(list, nodes - extra, key, i) {
      assert Holds(list, nodes, key, i);
    }
    if n :| n in extra {
      var m := list[Index(n.xperms)];
      assert Holds(list, nodes, key, Index(n.xperms));
      assert m != n && Index(m.xperms) == Index(n.xperms);
    }
    if extra == {} {
      forall m, n | m in nodes && n in nodes && m.key == key && n.key == key && Index(m.xperms) == Index(n.xperms)
        ensures m == n
      {
        assert m !in extra && n !in extra;
      }
    }
  }

  /** `reset`: the listed function nodes go. */
  method RemoveFunctions(table: Table, key: Key, list: seq<Node?>, ghost extra: set<Node>) returns (left: seq<Node?>)
    requires table.Valid() && extra <= table.nodes && Listed(list, table.nodes - extra, key)
    modifies table
    ensures table.Valid() && extra <= table.nodes && Listed(left, table.nodes - extra, key)
    ensures |left| == 257
    ensures forall i | 0 <= i < 256 :: left[i] == null && Snapshot(left, table.nodes - extra, key)[i] == {}
    ensures table.nodes <= old(table.nodes) && forall n | n in old(table.nodes) && n.key != key :: n in table.nodes
  {
    hide Table.Valid;
    left := list;
    for i := 0 to 256
      invariant table.Valid() && extra <= table.nodes && Listed(left, table.nodes - extra, key)
      invariant forall j | 0 <= j < i :: left[j] == null
      invariant table.nodes <= old(table.nodes) && forall n | n in old(table.nodes) && n.key != key :: n in table.nodes
    {
      if left[i] != null {
        assert Holds(left, table.nodes - extra, key, i);
        ListedLess(left, table.nodes - extra, key, i);
        assert (table.nodes - {left[i]}) - extra == (table.nodes - extra) - {left[i]};
        var found := table.Remove(left[i]);
        left := left[i := null];
      }
    }
  }

  lemma ListedLess(list: seq<Node?>, nodes: set<Node>, key: Key, i: nat)
    requires Listed(list, nodes, key) && i < 257 && list[i] != null
    ensures Listed(list[i := null], nodes - {list[i]}, key)
  {
    var next, left := list[i := null], nodes - {list[i]};
    forall j | 0 <= j < 257 ensures Holds(next, left, key, j) {
      assert Holds(list, nodes, key, j) && Holds(list, nodes, key, i);
    }
  }

  lemma ListedMore(list: seq<Node?>, nodes: set<Node>, key: Key, node: Node)
    requires Listed(list, nodes, key) && node !in nodes && node.key == key && list[Index(node.xperms)] == null
    ensures Listed(list[Index(node.xperms) := node], nodes + {node}, key)
  {
    var next, more := list[Index(node.xperms) := node], nodes + {node};
    forall j | 0 <= j < 257 ensures Holds(next, more, key, j) {
      assert Holds(list, nodes, key, j);
    }
  }

  /** The node at an index, made with the given permissions if it is missing. */
  method NodeAt(table: Table, key: Key, list: seq<Node?>, level: Level, driver: Byte, perms: set<nat>,
                ghost extra: set<Node>)
    returns (node: Node, list': seq<Node?>)
    requires table.Valid() && extra <= table.nodes && Listed(list, table.nodes - extra, key)
    modifies table
    ensures table.Valid() && extra <= table.nodes && Listed(list', table.nodes - extra, key)
    ensures node in table.nodes - extra && node.key == key && (node in old(table.nodes) || fresh(node))
    ensures Index(node.xperms) == Index(Xperms(level, driver, {}))
    ensures var i, before := Index(node.xperms), old(Snapshot(list, table.nodes - extra, key));
            && |list| == |list'| == 257 && list' == list[i := node] && (list[i] == null ==> before[i] == {})
            && Snapshot(list', table.nodes - extra, key) == (if list[i] == null then before[i := perms] else before)
            && node.xperms.perms == Snapshot(list', table.nodes - extra, key)[i]
    ensures old(table.nodes) <= table.nodes <= old(table.nodes) + {node}
  {
    hide Table.Valid;
    var i := Index(Xperms(level, driver, {}));
    assert Holds(list, table.nodes - extra, key, i);
    ghost var before := table.nodes - extra;
    if list[i] != null {
      node, list' := list[i], list;
    } else {
      node := table.Insert(key);
      node.xperms := Xperms(level, driver, perms);
      assert table.nodes - extra == before + {node};
      ListedMore(list, before, key, node);
      list' := list[i := node];
      ghost var snap, snap' := old(Snapshot(list, table.nodes - extra, key)), Snapshot(list', table.nodes - extra, key);
      forall j | 0 <= j < 257 ensures snap'[j] == if j == i then perms else snap[j] {
        assert old(Holds(list, table.nodes - extra, key, j)) && Holds(list', table.nodes - extra, key, j);
        assert snap[j] == old(PermsAt(list, table.nodes - extra, key, j));
        assert snap'[j] == PermsAt(list', table.nodes - extra, key, j);
      }
    }
  }

  lemma ListedApart(list: seq<Node?>, nodes: set<Node>, key: Key, i: nat)
    requires Listed(list, nodes, key) && i < 257 && list[i] != null
    ensures forall j | 0 <= j < 257 && j != i :: list[j] != list[i]
  {
    forall j | 0 <= j < 257 && j != i ensures list[j] != list[i] {
      assert Holds(list, nodes, key, i) && Holds(list, nodes, key, j);
    }
  }

  /** Writing the permissions of a listed node. */
  method SetPerms(node: Node, perms: set<nat>, ghost list: seq<Node?>, ghost nodes: set<Node>, ghost key: Key)
    requires Listed(list, nodes, key) && node in nodes && |list| == 257 && list[Index(node.xperms)] == node
    modifies node`xperms
    ensures Listed(list, nodes, key) && Index(node.xperms) == old(Index(node.xperms))
    ensures Snapshot(list, nodes, key) == old(Snapshot(list, nodes, key))[Index(node.xperms) := perms]
  {
    ListedApart(list, nodes, key, Index(node.xperms));
    node.xperms := node.xperms.(perms := perms);
    forall i | 0 <= i < 257 ensures Holds(list, nodes, key, i) {
      assert old(Holds(list, nodes, key, i));
    }
    ghost var snap, snap' := old(Snapshot(list, nodes, key)), Snapshot(list, nodes, key);
    forall j | 0 <= j < 257 ensures snap'[j] == if j == Index(node.xperms) then perms else snap[j] {
      assert snap[j] == old(PermsAt(list, nodes, key, j)) && snap'[j] == PermsAt(list, nodes, key, j);
    }
  }

  /** Entries of other keys stay as they are. */
  twostate predicate OnlyKey(table: Table, was: set<Node>, key: Key)
    reads table, was`xperms
  {
    && (forall n | n in was && n.key != key :: n in table.nodes && n.xperms == old(n.xperms))
    && (forall n | n in table.nodes && n !in was :: n.key == key)
  }

  /** The commands one `Xperm` covers by itself; without reset, those covered before stay. */
  predicate Adds(p: Xperm, x: nat)
    requires IsXperm(p) && x < COMMANDS
  {
    InRange(p, x) != p.reset
  }

  lemma SetCovers(perms: seq<set<nat>>, p: Xperm, bits: set<nat>, perms': seq<set<nat>>)
    requires |perms| == 257 && IsXperm(p)
    requires var differ := DriverOf(p.low) != DriverOf(p.high);
             var i := if differ then 256 else DriverOf(p.low);
             var low := if differ then DriverOf(p.low) else FunctionOf(p.low);
             var high := if differ then DriverOf(p.high) else FunctionOf(p.high);
             (forall b :: b in bits <==> b in perms[i] || low <= b <= high) && perms' == perms[i := bits]
    ensures CoveredBy(perms') == CoveredBy(perms) + Range(p)
  {
    hide DriverOf, FunctionOf;
  }

  lemma DriversCovered(perms: seq<set<nat>>, p: Xperm)
    requires |perms| == 257 && IsXperm(p) && DriverOf(p.low) != DriverOf(p.high)
    requires forall i | 0 <= i < 256 :: perms[i] == {}
    requires forall b :: b in perms[256] <==> b in BYTES && !(DriverOf(p.low) <= b <= DriverOf(p.high))
    ensures CoveredBy(perms) == ALL - Range(p)
  {
    hide DriverOf, FunctionOf;
  }

  lemma FunctionsCovered(perms: seq<set<nat>>, p: Xperm)
    requires |perms| == 257 && IsXperm(p) && DriverOf(p.low) == DriverOf(p.high)
    requires forall i | 0 <= i < 256 && i != DriverOf(p.low) :: perms[i] == {}
    requires forall b :: b in perms[DriverOf(p.low)] <==> b in BYTES && !(FunctionOf(p.low) <= b <= FunctionOf(p.high))
    requires perms[256] == BYTES - {DriverOf(p.low)}
    ensures CoveredBy(perms) == ALL - Range(p)
  {
    hide DriverOf, FunctionOf;
  }

  /** `add_xperm_rule` on a single key. Without a complement the range is added. A complement replaces everything but what
      unlisted nodes cover, and there are such nodes exactly if some index had two. */
  method AddXperm(table: Table, key: Key, p: Xperm) returns (ghost extra: set<Node>)
    requires table.Valid() && IsXperm(p)
    modifies table, table.nodes`xperms
    ensures table.Valid() && OnlyKey(table, old(table.nodes), key)
    ensures fresh(table.nodes - old(table.nodes))
    ensures extra <= old(table.nodes) && (extra == {} <==> old(Tidy(table.nodes, key)))
    ensures extra == {} ==> Tidy(table.nodes, key)
    ensures !p.reset ==> Coverage(table.nodes, key) == old(Coverage(table.nodes, key)) + Range(p)
    ensures p.reset ==> Coverage(table.nodes, key) == old(Coverage(extra, key)) + (ALL - Range(p))
  {
    hide Table.Valid, Listed, Tidy, Coverage, Range, Snapshot, CoveredBy;
    var list := FindNodes(table, key);
    extra := Unlisted(list, table.nodes, key);
    ghost var hidden := Coverage(extra, key);
    CoveredParts(table.nodes, extra, key);
    ListedIs(list, table.nodes - extra, key);
    Replace(table, key, p, list, extra, hidden, Coverage(table.nodes - extra, key));
  }

  /** Both cases, on the nodes found. */
  method Replace(table: Table, key: Key, p: Xperm, list: seq<Node?>, ghost extra: set<Node>,
                 ghost hidden: set<nat>, ghost listed: set<nat>)
    requires table.Valid() && extra <= table.nodes && Listed(list, table.nodes - extra, key) && IsXperm(p)
    requires hidden == Coverage(extra, key) && listed == CoveredBy(Snapshot(list, table.nodes - extra, key))
    modifies table, (table.nodes - extra)`xperms
    ensures table.Valid() && fresh(table.nodes - old(table.nodes)) && OnlyKey(table, old(table.nodes), key)
    ensures extra == {} ==> Tidy(table.nodes, key)
    ensures Coverage(table.nodes, key) == hidden + if p.reset then ALL - Range(p) else listed + Range(p)
  {
    hide Table.Valid, Listed, Tidy, Coverage, Range, Snapshot, CoveredBy;
    var list';
    if p.reset {
      list' := Complement(table, key, p, list, extra);
    } else {
      list' := Extend(table, key, p, list, extra);
    }
    assert Coverage(extra, key) == hidden;
    ListedIs(list', table.nodes - extra, key);
    CoveredParts(table.nodes, extra, key);
  }

  lemma CoveredParts(nodes: set<Node>, extra: set<Node>, key: Key)
    requires extra <= nodes
    ensures Coverage(nodes, key) == Coverage(nodes - extra, key) + Coverage(extra, key)
    ensures extra == {} ==> Coverage(extra, key) == {} && nodes - extra == nodes
  {
    hide Permits;
    forall x: nat | x < COMMANDS && Covered(nodes, key, x) ensures Covered(nodes - extra, key, x) || Covered(extra, key, x) {
      var n :| n in nodes && n.key == key && Permits(n.xperms, x);
      assert n in extra || n in nodes - extra;
    }
  }

  method Extend(table: Table, key: Key, p: Xperm, list: seq<Node?>, ghost extra: set<Node>) returns (list': seq<Node?>)
    requires table.Valid() && extra <= table.nodes && Listed(list, table.nodes - extra, key) && IsXperm(p)
    modifies table, (table.nodes - extra)`xperms
    ensures table.Valid() && extra <= table.nodes && Listed(list', table.nodes - extra, key)
    ensures fresh(table.nodes - old(table.nodes)) && OnlyKey(table, old(table.nodes), key)
    ensures CoveredBy(Snapshot(list', table.nodes - extra, key))
            == CoveredBy(old(Snapshot(list, table.nodes - extra, key))) + Range(p)
  {
    hide Table.Valid, Listed, Snapshot, CoveredBy, Range, DriverOf, FunctionOf;
    var differ := DriverOf(p.low) != DriverOf(p.high);
    var driver: Byte := if differ then 0 else DriverOf(p.low);
    var node;
    node, list' := NodeAt(table, key, list, if differ then Driver else Function, driver, {}, extra);
    ghost var perms := Snapshot(list', table.nodes - extra, key);
    assert perms == old(Snapshot(list, table.nodes - extra, key));
    var bits;
    if differ {
      bits := SetBits(node.xperms.perms, DriverOf(p.low), DriverOf(p.high));
    } else {
      bits := SetBits(node.xperms.perms, FunctionOf(p.low), FunctionOf(p.high));
    }
    SetPerms(node, bits, list', table.nodes - extra, key);
    SetCovers(perms, p, bits, Snapshot(list', table.nodes - extra, key));
  }

  method Complement(table: Table, key: Key, p: Xperm, list: seq<Node?>, ghost extra: set<Node>) returns (list': seq<Node?>)
    requires table.Valid() && extra <= table.nodes && Listed(list, table.nodes - extra, key) && IsXperm(p)
    modifies table, (table.nodes - extra)`xperms
    ensures table.Valid() && extra <= table.nodes && Listed(list', table.nodes - extra, key)
    ensures fresh(table.nodes - old(table.nodes)) && OnlyKey(table, old(table.nodes), key)
    ensures CoveredBy(Snapshot(list', table.nodes - extra, key)) == ALL - Range(p)
  {
    hide Table.Valid, Listed, Snapshot, CoveredBy, Range, DriverOf, FunctionOf;
    list' := RemoveFunctions(table, key, list, extra);
    if DriverOf(p.low) != DriverOf(p.high) {
      var bits := ClearBits(BYTES, DriverOf(p.low), DriverOf(p.high));
      list' := PutNode(table, key, list', Driver, 0, bits, extra);
      DriversCovered(Snapshot(list', table.nodes - extra, key), p);
    } else {
      list' := ComplementFunctions(table, key, p, list', extra);
    }
  }

  /** A complement within one driver: every other driver, and the other functions of this one. */
  method ComplementFunctions(table: Table, key: Key, p: Xperm, list: seq<Node?>, ghost extra: set<Node>)
    returns (list': seq<Node?>)
    requires table.Valid() && extra <= table.nodes && Listed(list, table.nodes - extra, key)
    requires IsXperm(p) && DriverOf(p.low) == DriverOf(p.high)
    requires forall i | 0 <= i < 256 :: Snapshot(list, table.nodes - extra, key)[i] == {}
    modifies table, (table.nodes - extra)`xperms
    ensures table.Valid() && extra <= table.nodes && Listed(list', table.nodes - extra, key)
    ensures old(table.nodes) <= table.nodes && fresh(table.nodes - old(table.nodes))
    ensures OnlyKey(table, old(table.nodes), key)
    ensures CoveredBy(Snapshot(list', table.nodes - extra, key)) == ALL - Range(p)
  {
    hide Table.Valid, Listed, Snapshot, CoveredBy, Range, DriverOf, FunctionOf;
    var driver: Byte := DriverOf(p.low);
    var bits := ClearBits(BYTES, FunctionOf(p.low), FunctionOf(p.high));
    list' := PutNode(table, key, list, Driver, 0, BYTES - {driver}, extra);
    list' := PutNode(table, key, list', Function, driver, bits, extra);
    FunctionsCovered(Snapshot(list', table.nodes - extra, key), p);
  }

  /** Finding or making a node and giving it all its permissions. */
  method PutNode(table: Table, key: Key, list: seq<Node?>, level: Level, driver: Byte, bits: set<nat>, ghost extra: set<Node>)
    returns (list': seq<Node?>)
    requires table.Valid() && extra <= table.nodes && Listed(list, table.nodes - extra, key)
    modifies table, (table.nodes - extra)`xperms
    ensures table.Valid() && extra <= table.nodes && Listed(list', table.nodes - extra, key)
    ensures Snapshot(list', table.nodes - extra, key)
            == old(Snapshot(list, table.nodes - extra, key))[Index(Xperms(level, driver, {})) := bits]
    ensures old(table.nodes) <= table.nodes && fresh(table.nodes - old(table.nodes))
    ensures OnlyKey(table, old(table.nodes), key)
  {
    hide Table.Valid, Listed, Snapshot;
    var node;
    node, list' := NodeAt(table, key, list, level, driver, {}, extra);
    SetPerms(node, bits, list', table.nodes - extra, key);
  }

  // ----- lists of ranges -----

  function RunXperms(before: bool, ps: seq<Xperm>, x: nat): bool
    requires x < COMMANDS && forall i | 0 <= i < |ps| :: IsXperm(ps[i])
  {
    if ps == [] then before
    else
      var last := ps[|ps| - 1];
      Adds(last, x) || (!last.reset && RunXperms(before, ps[..|ps| - 1], x))
  }

  /** The commands covered after a list of ranges. */
  ghost function Run(before: set<nat>, ps: seq<Xperm>): set<nat>
    requires forall i | 0 <= i < |ps| :: IsXperm(ps[i])
  {
    set x: nat | x < COMMANDS && RunXperms(x in before, ps, x)
  }

  lemma RunStep(before: set<nat>, ps: seq<Xperm>, p: Xperm)
    requires (forall i | 0 <= i < |ps| :: IsXperm(ps[i])) && IsXperm(p)
    ensures Run(before, ps + [p]) == if p.reset then ALL - Range(p) else Run(before, ps) + Range(p)
  {
    assert (ps + [p])[..|ps|] == ps;
    hide InRange;
  }

  lemma RunNone(before: set<nat>)
    requires before <= ALL
    ensures Run(before, []) == before
  {
  }

  predicate SomeReset(ps: seq<Xperm>) { exists i :: 0 <= i < |ps| && ps[i].reset }

  /** One statement: its ranges applied one after the other. Only a complement minds two nodes with one index. */
  method AddXperms(table: Table, key: Key, ps: seq<Xperm>)
    requires table.Valid() && forall i | 0 <= i < |ps| :: IsXperm(ps[i])
    modifies table, table.nodes`xperms
    ensures table.Valid() && (old(Tidy(table.nodes, key)) ==> Tidy(table.nodes, key))
    ensures old(Tidy(table.nodes, key)) || !SomeReset(ps) ==>
              Coverage(table.nodes, key) == Run(old(Coverage(table.nodes, key)), ps)
  {
    assert Coverage(table.nodes, key) <= ALL;
    hide Table.Valid, Tidy, Coverage, Range, Run, OnlyKey;
    ghost var tidy, before := Tidy(table.nodes, key), Coverage(table.nodes, key);
    RunNone(before);
    assert ps[..0] == [];
    for i := 0 to |ps|
      invariant table.Valid() && fresh(table.nodes - old(table.nodes))
      invariant tidy ==> Tidy(table.nodes, key)
      invariant tidy || !SomeReset(ps) ==> Coverage(table.nodes, key) == Run(before, ps[..i])
    {
      assert ps[..i + 1] == ps[..i] + [ps[i]];
      RunStep(before, ps[..i], ps[i]);
      assert ps[i].reset ==> SomeReset(ps);
      NoCoverage(key);
      ghost var extra := AddXperm(table, key, ps[i]);
    }
    assert ps[..|ps|] == ps;
  }

  lemma NoCoverage(key: Key)
    ensures Coverage({}, key) == {}
  {
  }

  /** Without complement, ranges add up. */
  lemma {:induction false} RangesAddUp(before: bool, ps: seq<Xperm>, x: nat)
    requires x < COMMANDS && forall i | 0 <= i < |ps| :: IsXperm(ps[i]) && !ps[i].reset
    ensures RunXperms(before, ps, x) <==> before || exists i :: 0 <= i < |ps| && InRange(ps[i], x)
  {
    hide InRange;
    if ps == [] {
    } else {
      var last := |ps| - 1;
      var init := ps[..last];
      RangesAddUp(before, init, x);
      if i :| 0 <= i < |init| && InRange(init[i], x) {
        assert InRange(ps[i], x);
      }
      if i :| 0 <= i < |ps| && InRange(ps[i], x) {
        assert i < last ==> InRange(init[i], x);
      }
    }
  }

  /** A complement forgets what came before it. */
  lemma LastComplementWins(before: bool, ps: seq<Xperm>, x: nat)
    requires x < COMMANDS && |ps| > 0 && forall i | 0 <= i < |ps| :: IsXperm(ps[i])
    requires ps[|ps| - 1].reset
    ensures RunXperms(before, ps, x) <==> !InRange(ps[|ps| - 1], x)
  {
  }

  /** `~{ a b }` covers all but the listed commands exactly if the last range contains the others. */
  lemma ComplementOfList(before: bool, ps: seq<Xperm>)
    requires |ps| > 0 && forall i | 0 <= i < |ps| :: IsXperm(ps[i]) && ps[i].reset
    ensures (forall x: nat | x < COMMANDS :: RunXperms(before, ps, x) <==> !InSome(ps, x))
            <==> (forall x: nat | x < COMMANDS && InSome(ps, x) :: InRange(ps[|ps| - 1], x))
  {
    hide InRange, RunXperms;
    forall x: nat | x < COMMANDS
      ensures RunXperms(before, ps, x) <==> !InRange(ps[|ps| - 1], x)
      ensures InRange(ps[|ps| - 1], x) ==> InSome(ps, x)
    {
      LastComplementWins(before, ps, x);
    }
  }

  predicate InSome(ps: seq<Xperm>, x: nat)
    requires x < COMMANDS && forall i | 0 <= i < |ps| :: IsXperm(ps[i])
  {
    exists i :: 0 <= i < |ps| && InRange(ps[i], x)
  }

  /** A concrete list for which it does not: the first command stays covered. */
  lemma ComplementListFails(before: bool)
    ensures var ps := [Xperm(0x8910, 0x8910, true), Xperm(0x892A, 0x892A, true)];
            RunXperms(before, ps, 0x8910) && InSome(ps, 0x8910)
  {
    var ps := [Xperm(0x8910, 0x8910, true), Xperm(0x892A, 0x892A, true)];
    assert InRange(ps[0], 0x8910);
    LastComplementWins(before, ps, 0x8910);
  }

  /** A range covers all its numbers, and only them exactly if it stays in one driver or spans whole ones. */
  lemma RangeIsExact(p: Xperm)
    requires IsXperm(p) && p.low <= p.high
    ensures forall x: nat | p.low <= x <= p.high :: InRange(p, x)
    ensures (forall x: nat | x < COMMANDS :: InRange(p, x) <==> p.low <= x <= p.high)
            <==> DriverOf(p.low) == DriverOf(p.high) || (FunctionOf(p.low) == 0 && FunctionOf(p.high) == 255)
  {
    var first, last := DriverOf(p.low) * 256, DriverOf(p.high) * 256 + 255;
    if DriverOf(p.low) != DriverOf(p.high) {
      assert InRange(p, first) && InRange(p, last);
    }
  }
}
