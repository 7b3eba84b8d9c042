/** The access vector table: a hash table of chained nodes, edited in place. */
module AvTable {
  import opened Common

  datatype Kind = Allowed | AuditAllow | AuditDeny | XpermsAllowed | XpermsAuditAllow | XpermsDontAudit

  predicate IsAv(kind: Kind) { kind == Allowed || kind == AuditAllow || kind == AuditDeny }

  predicate IsDontaudit(kind: Kind) { kind == AuditDeny || kind == XpermsDontAudit }

  datatype Key = Key(src: nat, tgt: nat, cls: nat, kind: Kind)

  /** A 32-bit mask as the set of its bits. */
  type Mask = set<nat>

  const FULL: Mask := set b: nat | b < 32

  /** The value an absent entry stands for; audit-deny masks are stored inverted. */
  function DefaultMask(kind: Kind): Mask {
    if kind == AuditDeny then FULL else {}
  }

  datatype Level = Driver | Function

  /** An ioctl permission struct: 256 bits, of drivers or of the functions of one driver. */
  datatype Xperms = Xperms(level: Level, driver: Byte, perms: set<nat>)

  /** A node; its address tells nodes with equal keys apart. */
  class Node {
    const key: Key
    var data: Mask
    var xperms: Xperms

    constructor (key: Key, data: Mask)
      ensures this.key == key && this.data == data
    {
      this.key, this.data := key, data;
      this.xperms := Xperms(Driver, 0, {});
    }
  }

  /** A chain: distinct nodes of one hash value. */
  ghost predicate InSlot(hash: Key -> nat, nodes: set<Node>, c: seq<Node>, s: nat) {
    && (forall i | 0 <= i < |c| :: c[i] in nodes && hash(c[i].key) == s)
    && (forall i, j | 0 <= i < j < |c| :: c[i] != c[j])
  }

  lemma NotInSlot(hash: Key -> nat, nodes: set<Node>, c: seq<Node>, s: nat, node: Node)
    requires InSlot(hash, nodes, c, s) && (node !in nodes || hash(node.key) != s)
    ensures node !in c && InSlot(hash, nodes + {node}, c, s) && InSlot(hash, nodes - {node}, c, s)
  {
  }

  lemma Inserted(hash: Key -> nat, nodes: set<Node>, c: seq<Node>, at: nat, node: Node, slot: nat,
                 d: seq<Node>)
    requires at <= |c| && node !in nodes && hash(node.key) == slot && InSlot(hash, nodes, c, slot)
    requires d == c[..at] + [node] + c[at..]
    ensures InSlot(hash, nodes + {node}, d, slot)
    ensures node in d && forall n | n in c :: n in d
  {
    forall n | n in c ensures n in d {
      var i :| 0 <= i < |c| && c[i] == n;
      assert d[if i < at then i else i + 1] == n;
    }
    assert d[at] == node;
    assert forall i | 0 <= i < |d| :: d[i] == if i < at then c[i] else if i == at then node else c[i - 1];
  }

  lemma Unlinked(hash: Key -> nat, nodes: set<Node>, c: seq<Node>, at: nat, node: Node, slot: nat,
                 d: seq<Node>)
    requires at < |c| && c[at] == node && InSlot(hash, nodes, c, slot)
    requires d == c[..at] + c[at + 1..]
    ensures InSlot(hash, nodes - {node}, d, slot)
    ensures forall n | n in c && n != node :: n in d
  {
    forall n | n in c && n != node ensures n in d {
      var i :| 0 <= i < |c| && c[i] == n;
      assert d[if i < at then i else i - 1] == n;
    }
    assert forall i | 0 <= i < |d| :: d[i] == if i < at then c[i] else c[i + 1];
  }

  /** Every node is in the chain of its hash, and in no other. */
  ghost predicate Chained(hash: Key -> nat, htable: seq<seq<Node>>, nodes: set<Node>) {
    && (forall k :: hash(k) < |htable|)
    && (forall s | 0 <= s < |htable| :: InSlot(hash, nodes, htable[s], s))
    && (forall n | n in nodes :: n in htable[hash(n.key)])
  }

  lemma ChainedMore(hash: Key -> nat, htable: seq<seq<Node>>, nodes: set<Node>, at: nat, node: Node, d: seq<Node>)
    requires Chained(hash, htable, nodes) && node !in nodes && at <= |htable[hash(node.key)]|
    requires d == htable[hash(node.key)][..at] + [node] + htable[hash(node.key)][at..]
    ensures Chained(hash, htable[hash(node.key) := d], nodes + {node})
  {
    hide InSlot;
    var slot := hash(node.key);
    Inserted(hash, nodes, htable[slot], at, node, slot, d);
    forall s | 0 <= s < |htable| && s != slot ensures InSlot(hash, nodes + {node}, htable[s], s) {
      NotInSlot(hash, nodes, htable[s], s, node);
    }
  }

  lemma ChainedLess(hash: Key -> nat, htable: seq<seq<Node>>, nodes: set<Node>, at: nat, node: Node, d: seq<Node>)
    requires Chained(hash, htable, nodes) && at < |htable[hash(node.key)]| && htable[hash(node.key)][at] == node
    requires d == htable[hash(node.key)][..at] + htable[hash(node.key)][at + 1..]
    ensures node in nodes && Chained(hash, htable[hash(node.key) := d], nodes - {node})
  {
    hide InSlot;
    var slot := hash(node.key);
    Located(hash, nodes, htable[slot], at, slot);
    Unlinked(hash, nodes, htable[slot], at, node, slot, d);
    forall s | 0 <= s < |htable| && s != slot ensures InSlot(hash, nodes - {node}, htable[s], s) {
      NotInSlot(hash, nodes, htable[s], s, node);
    }
  }

  lemma Located(hash: Key -> nat, nodes: set<Node>, c: seq<Node>, at: nat, slot: nat)
    requires InSlot(hash, nodes, c, slot) && at < |c|
    ensures c[at] in nodes
  {
  }

  /** The nodes left when some have been looked at. */
  ghost function Kept(start: set<Node>, seen: set<Node>): set<Node> {
    set n | n in start && !(n in seen && IsDontaudit(n.key.kind))
  }

  class Table {
    const hash: Key -> nat
    var htable: seq<seq<Node>>
    var nel: nat

    ghost var nodes: set<Node>

    constructor (hash: Key -> nat, nslot: nat)
      requires forall k :: hash(k) < nslot
      ensures Valid() && nodes == {}
    {
      this.hash := hash;
      this.htable := seq(nslot, _ => []);
      this.nel, this.nodes := 0, {};
    }

    /** Every node is once in the chain of its hash, and `nel` counts them. */
    ghost predicate Valid()
      reads this
    {
      Chained(hash, htable, nodes) && nel == |nodes|
    }

    /** `avtab_search_node`, and `avtab_search_node_next` when started behind a node. */
    method SearchFrom(key: Key, from: nat) returns (at: nat)
      requires Valid() && from <= |htable[hash(key)]|
      ensures from <= at <= |htable[hash(key)]|
      ensures forall i | from <= i < at :: htable[hash(key)][i].key != key
      ensures at < |htable[hash(key)]| ==> htable[hash(key)][at].key == key && htable[hash(key)][at] in nodes
    {
      var c := htable[hash(key)];
      assert InSlot(hash, nodes, c, hash(key));
      at := from;
      while at < |c| && c[at].key != key
        invariant from <= at <= |c|
        invariant forall i | from <= i < at :: c[i].key != key
      {
        at := at + 1;
      }
    }

    method Search(key: Key) returns (node: Node?)
      requires Valid()
      ensures node != null ==> node.key == key && node in nodes
      ensures node == null ==> forall n | n in nodes :: n.key != key
    {
      var c := htable[hash(key)];
      var at := SearchFrom(key, 0);
      node := if at < |c| then c[at] else null;
      if node == null {
        forall n | n in nodes ensures n.key != key {
          assert n.key == key ==> n in c;
        }
      }
    }

    /** `insert_avtab_node`: a new node somewhere in its chain, not checked for uniqueness. */
    method Insert(key: Key) returns (node: Node)
      requires Valid()
      modifies this
      ensures Valid() && fresh(node) && node.key == key && nodes == old(nodes) + {node}
      ensures node.data == DefaultMask(key.kind)
    {
      hide DefaultMask, InSlot;
      var slot := hash(key);
      var c := htable[slot];
      var at :| 0 <= at <= |c|;
      hide Chained;
      node := new Node(key, DefaultMask(key.kind));
      var d := c[..at] + [node] + c[at..];
      ChainedMore(hash, htable, nodes, at, node, d);
      nodes, nel := nodes + {node}, nel + 1;
      htable := htable[slot := d];
    }

    /** `avtab_remove_node` */
    method Remove(node: Node) returns (found: bool)
      requires Valid()
      modifies this
      ensures Valid() && found == (node in old(nodes)) && nodes == old(nodes) - {node}
    {
      hide InSlot;
      var slot := hash(node.key);
      var c := htable[slot];
      var at := 0;
      while at < |c| && c[at] != node
        invariant at <= |c| && node !in c[..at]
      {
        assert c[..at + 1] == c[..at] + [c[at]];
        at := at + 1;
      }
      if at == |c| {
        assert c[..at] == c;
        return false;
      }
      var d := c[..at] + c[at + 1..];
      ChainedLess(hash, htable, nodes, at, node, d);
      hide Chained;
      nodes, nel := nodes - {node}, nel - 1;
      htable := htable[slot := d];
      found := true;
    }

    /** `strip_dontaudit`: every node of the two don't-audit kinds leaves its chain. */
    method StripDontaudit()
      requires Valid()
      modifies this
      ensures Valid() && nodes == set n | n in old(nodes) && !IsDontaudit(n.key.kind)
    {
      var slots := htable;
      ghost var seen: set<Node> := {};
      for s := 0 to |slots|
        invariant Valid() && nodes == Kept(old(nodes), seen)
        invariant forall n | n in old(nodes) && hash(n.key) < s :: n in seen
      {
        assert forall n | n in old(nodes) && hash(n.key) == s :: n in slots[s];
        seen := StripChain(slots[s], old(nodes), seen);
      }
    }

    /** One chain of the loop, read before it is edited. */
    method StripChain(c: seq<Node>, ghost start: set<Node>, ghost before: set<Node>) returns (ghost seen: set<Node>)
      requires Valid() && nodes == Kept(start, before)
      modifies this
      ensures Valid() && nodes == Kept(start, seen) && before <= seen && forall n | n in c :: n in seen
    {
      hide Valid;
      seen := before;
      for i := 0 to |c|
        invariant Valid() && nodes == Kept(start, seen) && before <= seen && forall j | 0 <= j < i :: c[j] in seen
      {
        if IsDontaudit(c[i].key.kind) {
          var found := Remove(c[i]);
        }
        seen := seen + {c[i]};
      }
    }
  }
}
