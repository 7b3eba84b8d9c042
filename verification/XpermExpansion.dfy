/** Ioctl rules with wildcards: one edit of the coverage per addressed key. */
module XpermExpansion {
  import opened Common
  import opened AvTable
  import opened AvRules
  import opened XpermRules

  /** A rule on ioctl permissions; a missing argument stands for all attributes, or all classes. */
  datatype XpermRule = XpermRule(src: Option<nat>, tgt: Option<nat>, cls: Option<nat>, kind: Kind, xperm: Xperm)

  function XpermKeys(types: seq<TypeDatum>, classes: seq<nat>, rule: XpermRule): seq<Key> {
    KeysOf(TypesFor(types, rule.src, false), TypesFor(types, rule.tgt, false), ClassesFor(classes, rule.cls), rule.kind)
  }

  // ----- a table at one moment -----

  /** The permissions of every node. */
  type Image = map<Node, Xperms>

  ghost function ImageOf(nodes: set<Node>): Image
    reads nodes`xperms
  {
    map n | n in nodes :: n.xperms
  }

  ghost predicate CoveredIn(image: Image, key: Key, x: nat)
    requires x < COMMANDS
  {
    exists n :: n in image && n.key == key && Permits(image[n], x)
  }

  ghost function CoverageIn(image: Image, key: Key): set<nat> {
    set x: nat | x < COMMANDS && CoveredIn(image, key, x)
  }

  ghost predicate TidyIn(image: Image, key: Key) {
    forall m, n | m in image && n in image && m.key == key && n.key == key && Index(image[m]) == Index(image[n]) :: m == n
  }

  /** Only nodes of one key differ. */
  ghost predicate OnlyKeyIn(before: Image, after: Image, key: Key) {
    && (forall n | n in before && n.key != key :: n in after && after[n] == before[n])
    && (forall n | n in after && n !in before :: n.key == key)
  }

  lemma ImageAgrees(nodes: set<Node>, key: Key)
    ensures Tidy(nodes, key) <==> TidyIn(ImageOf(nodes), key)
    ensures Coverage(nodes, key) == CoverageIn(ImageOf(nodes), key)
  {
    hide Permits;
    var image := ImageOf(nodes);
    forall x: nat | x < COMMANDS ensures Covered(nodes, key, x) <==> CoveredIn(image, key, x) {
      if Covered(nodes, key, x) {
        var n :| n in nodes && n.key == key && Permits(n.xperms, x);
        assert n in image && Permits(image[n], x);
      }
      if CoveredIn(image, key, x) {
        var n :| n in image && n.key == key && Permits(image[n], x);
        assert Permits(n.xperms, x);
      }
    }
  }

  lemma OthersKept(before: Image, after: Image, key: Key, other: Key)
    requires OnlyKeyIn(before, after, key) && other != key
    ensures CoverageIn(after, other) == CoverageIn(before, other)
    ensures TidyIn(before, other) ==> TidyIn(after, other)
  {
    hide Permits;
    forall x: nat | x < COMMANDS ensures CoveredIn(after, other, x) <==> CoveredIn(before, other, x) {
      if CoveredIn(after, other, x) {
        var n :| n in after && n.key == other && Permits(after[n], x);
        assert n in before && Permits(before[n], x);
      }
      if CoveredIn(before, other, x) {
        var n :| n in before && n.key == other && Permits(before[n], x);
        assert n in after && Permits(after[n], x);
      }
    }
  }

  // ----- the rule -----

  /** What a key covers once the range has been applied to some keys. */
  ghost function Wanted(before: Image, keys: seq<Key>, p: Xperm, key: Key): set<nat>
    requires IsXperm(p)
  {
    if key !in keys then CoverageIn(before, key)
    else if p.reset then ALL - Range(p)
    else CoverageIn(before, key) + Range(p)
  }

  /** A complement needs every key to have at most one node per index. */
  ghost predicate Settable(image: Image, p: Xperm) { p.reset ==> forall key :: TidyIn(image, key) }

  ghost predicate CoverageIs(before: Image, after: Image, keys: seq<Key>, p: Xperm)
    requires IsXperm(p)
  {
    Settable(after, p) && forall key :: CoverageIn(after, key) == Wanted(before, keys, p, key)
  }

  lemma KeyEdited(start: Image, before: Image, after: Image, key: Key, p: Xperm, keys: seq<Key>)
    requires IsXperm(p) && CoverageIs(start, before, keys, p) && OnlyKeyIn(before, after, key)
    requires p.reset ==> TidyIn(after, key)
    requires CoverageIn(after, key) == if p.reset then ALL - Range(p) else CoverageIn(before, key) + Range(p)
    ensures CoverageIs(start, after, keys + [key], p)
  {
    hide CoverageIn, TidyIn, OnlyKeyIn, Range;
    forall other ensures p.reset ==> TidyIn(after, other) {
      if other != key { OthersKept(before, after, key, other); }
    }
    forall other ensures CoverageIn(after, other) == Wanted(start, keys + [key], p, other) {
      assert CoverageIn(before, other) == Wanted(start, keys, p, other);
      if other != key { OthersKept(before, after, key, other); }
    }
  }

  method AddToKey(table: Table, key: Key, p: Xperm, ghost start: Image, ghost keys: seq<Key>)
    requires IsXperm(p) && table.Valid()
    modifies table, table.nodes`xperms
    ensures table.Valid() && fresh(table.nodes - old(table.nodes))
    ensures old(CoverageIs(start, ImageOf(table.nodes), keys, p)) ==> CoverageIs(start, ImageOf(table.nodes), keys + [key], p)
  {
    hide Table.Valid, Coverage, Tidy, CoverageIn, TidyIn, Range, Wanted;
    ghost var before := ImageOf(table.nodes);
    ImageAgrees(table.nodes, key);
    NoCoverage(key);
    ghost var extra := AddXperm(table, key, p);
    ghost var after := ImageOf(table.nodes);
    ImageAgrees(table.nodes, key);
    if CoverageIs(start, before, keys, p) {
      KeyEdited(start, before, after, key, p, keys);
    }
  }

  /** `add_xperm_rule`: every addressed key is edited, every other key keeps its coverage. */
  method AddXpermRule(table: Table, types: seq<TypeDatum>, classes: seq<nat>, rule: XpermRule)
    requires IsXperm(rule.xperm) && table.Valid()
    modifies table, table.nodes`xperms
    ensures table.Valid()
    ensures old(Settable(ImageOf(table.nodes), rule.xperm)) ==>
              CoverageIs(old(ImageOf(table.nodes)), ImageOf(table.nodes), XpermKeys(types, classes, rule), rule.xperm)
  {
    hide Table.Valid, CoverageIs, XpermKeys, ImageOf, Settable;
    var keys := XpermKeys(types, classes, rule);
    ghost var start := ImageOf(table.nodes);
    NoKeys(start, rule.xperm, keys[..0]);
    for i := 0 to |keys|
      invariant table.Valid() && fresh(table.nodes - old(table.nodes))
      invariant Settable(start, rule.xperm) ==> CoverageIs(start, ImageOf(table.nodes), keys[..i], rule.xperm)
    {
      assert keys[..i + 1] == keys[..i] + [keys[i]];
      AddToKey(table, keys[i], rule.xperm, start, keys[..i]);
    }
    assert keys[..|keys|] == keys;
  }

  lemma NoKeys(image: Image, p: Xperm, keys: seq<Key>)
    requires IsXperm(p) && keys == []
    ensures Settable(image, p) ==> CoverageIs(image, image, keys, p)
  {
  }

  /** The keys a rule addresses: with a missing argument, those of the attributes. */
  lemma XpermKeysHas(types: seq<TypeDatum>, classes: seq<nat>, rule: XpermRule, key: Key)
    ensures key in XpermKeys(types, classes, rule)
            <==> ArgHas(types, rule.src, key.src) && ArgHas(types, rule.tgt, key.tgt)
                 && key.cls in ClassesFor(classes, rule.cls) && key.kind == rule.kind
  {
    hide KeysOf, TypesFor, ArgHas;
    KeysOfHas(TypesFor(types, rule.src, false), TypesFor(types, rule.tgt, false), ClassesFor(classes, rule.cls), rule.kind, key);
    ArgCovers(types, rule.src, key.src);
    ArgCovers(types, rule.tgt, key.tgt);
  }
}
