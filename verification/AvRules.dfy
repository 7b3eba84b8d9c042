/** Access vector rules: how `add_rule` edits the table, and what a rule with wildcards reaches. */
module AvRules {
  import opened Common
  import opened AvTable

  /** The table as the rules see it: a mask per key. */
  type View = map<Key, Mask>

  function ValueOf(view: View, key: Key): Mask {
    if key in view then view[key] else DefaultMask(key.kind)
  }

  /** Setting (or, inverted, clearing) one bit, or all of them. */
  function Edit(mask: Mask, perm: Option<nat>, invert: bool): Mask {
    match perm
    case None => if invert then {} else FULL
    case Some(bit) => if invert then mask - {bit} else mask + {bit}
  }

  /** A key without an entry stands for the default mask, so default entries are not kept. */
  function Put(view: View, key: Key, mask: Mask): View {
    if mask == DefaultMask(key.kind) then view - {key} else view[key := mask]
  }

  function ApplyRule(view: View, key: Key, perm: Option<nat>, invert: bool): View {
    Put(view, key, Edit(ValueOf(view, key), perm, invert))
  }

  function ApplyAll(view: View, keys: seq<Key>, perm: Option<nat>, invert: bool): View {
    if keys == [] then view
    else ApplyRule(ApplyAll(view, keys[..|keys| - 1], perm, invert), keys[|keys| - 1], perm, invert)
  }

  /** A batch edits exactly the keys it addresses, each once, whatever their order and repetition. */
  lemma {:induction false} ApplyAllAt(view: View, keys: seq<Key>, perm: Option<nat>, invert: bool, key: Key)
    ensures var result := ApplyAll(view, keys, perm, invert);
            if key in keys then
              && ValueOf(result, key) == Edit(ValueOf(view, key), perm, invert)
              && (key in result <==> ValueOf(result, key) != DefaultMask(key.kind))
            else
              ValueOf(result, key) == ValueOf(view, key) && (key in result <==> key in view)
  {
    hide DefaultMask;
    if keys == [] {
    } else {
      var last := |keys| - 1;
      ApplyAllAt(view, keys[..last], perm, invert, key);
      assert keys == keys[..last] + [keys[last]];
    }
  }

  lemma {:induction false} ApplyAllSplit(view: View, a: seq<Key>, b: seq<Key>, perm: Option<nat>, invert: bool)
    ensures ApplyAll(view, a + b, perm, invert) == ApplyAll(ApplyAll(view, a, perm, invert), b, perm, invert)
    decreases |b|
  {
    hide ApplyRule;
    if b == [] {
      assert a + b == a;
    } else {
      var last := |b| - 1;
      ApplyAllSplit(view, a, b[..last], perm, invert);
      assert (a + b)[..|a + b| - 1] == a + b[..last];
    }
  }

  // ----- wildcards -----

  datatype TypeDatum = TypeDatum(value: nat, isAttr: bool)

  /** Rules that take something away go through all types, others through the attributes only. */
  predicate Strips(kind: Kind, invert: bool) { (kind == AuditDeny) == !invert }

  function AllValues(types: seq<TypeDatum>, all: bool): seq<nat> {
    if types == [] then []
    else
      var rest := AllValues(types[..|types| - 1], all);
      var last := types[|types| - 1];
      if all || last.isAttr then rest + [last.value] else rest
  }

  /** The types an argument stands for. */
  function TypesFor(types: seq<TypeDatum>, arg: Option<nat>, all: bool): seq<nat> {
    match arg
    case Some(value) => [value]
    case None => AllValues(types, all)
  }

  function ClassesFor(classes: seq<nat>, arg: Option<nat>): seq<nat> {
    match arg
    case Some(value) => [value]
    case None => classes
  }

  function KeysOfClasses(s: nat, t: nat, classes: seq<nat>, kind: Kind): (r: seq<Key>)
    ensures |r| == |classes| && forall i | 0 <= i < |r| :: r[i] == Key(s, t, classes[i], kind)
  {
    seq(|classes|, i requires 0 <= i < |classes| => Key(s, t, classes[i], kind))
  }

  function KeysOfTargets(s: nat, targets: seq<nat>, classes: seq<nat>, kind: Kind): seq<Key> {
    if targets == [] then []
    else KeysOfTargets(s, targets[..|targets| - 1], classes, kind)
         + KeysOfClasses(s, targets[|targets| - 1], classes, kind)
  }

  /** All combinations, source by source, then target by target, then class by class. */
  function KeysOf(sources: seq<nat>, targets: seq<nat>, classes: seq<nat>, kind: Kind): seq<Key> {
    if sources == [] then []
    else KeysOf(sources[..|sources| - 1], targets, classes, kind)
         + KeysOfTargets(sources[|sources| - 1], targets, classes, kind)
  }

  lemma {:induction false} KeysOfTargetsHas(s: nat, targets: seq<nat>, classes: seq<nat>, kind: Kind, key: Key)
    ensures key in KeysOfTargets(s, targets, classes, kind)
            <==> key.src == s && key.tgt in targets && key.cls in classes && key.kind == kind
  {
    if targets == [] {
    } else {
      var last := |targets| - 1;
      KeysOfTargetsHas(s, targets[..last], classes, kind, key);
      assert targets == targets[..last] + [targets[last]];
      var keys := KeysOfClasses(s, targets[last], classes, kind);
      if key.src == s && key.tgt == targets[last] && key.cls in classes && key.kind == kind {
        var i :| 0 <= i < |classes| && classes[i] == key.cls;
        assert keys[i] == key;
      }
    }
  }

  lemma {:induction false} KeysOfHas(sources: seq<nat>, targets: seq<nat>, classes: seq<nat>, kind: Kind, key: Key)
    ensures key in KeysOf(sources, targets, classes, kind)
            <==> key.src in sources && key.tgt in targets && key.cls in classes && key.kind == kind
  {
    if sources == [] {
    } else {
      var last := |sources| - 1;
      KeysOfHas(sources[..last], targets, classes, kind, key);
      assert sources == sources[..last] + [sources[last]];
      KeysOfTargetsHas(sources[last], targets, classes, kind, key);
    }
  }

  lemma {:induction false} AllValuesHas(types: seq<TypeDatum>, all: bool, value: nat)
    ensures value in AllValues(types, all)
            <==> exists i :: 0 <= i < |types| && types[i].value == value && (all || types[i].isAttr)
  {
    if types == [] {
    } else {
      var last := |types| - 1;
      AllValuesHas(types[..last], all, value);
      if value in AllValues(types[..last], all) {
        var i :| 0 <= i < last && types[..last][i].value == value && (all || types[..last][i].isAttr);
        assert types[i].value == value;
      }
    }
  }

  /** One call of `add_rule` on resolved arguments. */
  datatype Rule = Rule(src: Option<nat>, tgt: Option<nat>, cls: Option<nat>, perm: Option<nat>, kind: Kind, invert: bool)

  function Missing(rule: Rule): nat {
    (if rule.src.None? then 1 else 0) + (if rule.tgt.None? then 1 else 0) + (if rule.cls.None? then 1 else 0)
  }

  function RuleKeys(types: seq<TypeDatum>, classes: seq<nat>, rule: Rule): seq<Key> {
    var all := Strips(rule.kind, rule.invert);
    KeysOf(TypesFor(types, rule.src, all), TypesFor(types, rule.tgt, all), ClassesFor(classes, rule.cls), rule.kind)
  }

  function Effect(types: seq<TypeDatum>, classes: seq<nat>, view: View, rule: Rule): View {
    ApplyAll(view, RuleKeys(types, classes, rule), rule.perm, rule.invert)
  }

  /** A key the rule is about. */
  predicate Addresses(types: seq<TypeDatum>, classes: seq<nat>, rule: Rule, key: Key) {
    var all := Strips(rule.kind, rule.invert);
    && key.src in TypesFor(types, rule.src, all)
    && key.tgt in TypesFor(types, rule.tgt, all)
    && key.cls in ClassesFor(classes, rule.cls)
    && key.kind == rule.kind
  }

  /** A rule changes the addressed bits of the addressed keys and nothing else; it leaves no entry behind
      that says nothing. */
  lemma EffectAt(types: seq<TypeDatum>, classes: seq<nat>, view: View, rule: Rule, key: Key)
    ensures var result := Effect(types, classes, view, rule);
            if Addresses(types, classes, rule, key) then
              && ValueOf(result, key) == Edit(ValueOf(view, key), rule.perm, rule.invert)
              && (key in result <==> ValueOf(result, key) != DefaultMask(key.kind))
            else
              ValueOf(result, key) == ValueOf(view, key) && (key in result <==> key in view)
  {
    hide ApplyAll, KeysOf, ValueOf, Edit, DefaultMask, TypesFor, ClassesFor;
    var all := Strips(rule.kind, rule.invert);
    KeysOfHas(TypesFor(types, rule.src, all), TypesFor(types, rule.tgt, all), ClassesFor(classes, rule.cls), rule.kind, key);
    ApplyAllAt(view, RuleKeys(types, classes, rule), rule.perm, rule.invert, key);
  }

  // ----- sequences of rules -----

  function RunAll(types: seq<TypeDatum>, classes: seq<nat>, view: View, rules: seq<Rule>): View {
    if rules == [] then view
    else Effect(types, classes, RunAll(types, classes, view, rules[..|rules| - 1]), rules[|rules| - 1])
  }

  predicate Touches(types: seq<TypeDatum>, classes: seq<nat>, rule: Rule, key: Key, bit: nat) {
    Addresses(types, classes, rule, key) && (rule.perm == None || rule.perm == Some(bit))
  }

  /** Over any sequence of rules, a bit is what the last rule touching it says; untouched, it stays. */
  lemma {:induction false} LastRuleDecides(types: seq<TypeDatum>, classes: seq<nat>, view: View, rules: seq<Rule>,
                                           key: Key, bit: nat)
    requires bit < 32
    ensures var set_ := bit in ValueOf(RunAll(types, classes, view, rules), key);
            if exists i :: 0 <= i < |rules| && Touches(types, classes, rules[i], key, bit) then
              exists i :: 0 <= i < |rules| && Touches(types, classes, rules[i], key, bit)
                && (forall j | i < j < |rules| :: !Touches(types, classes, rules[j], key, bit))
                && set_ == !rules[i].invert
            else
              set_ == (bit in ValueOf(view, key))
  {
    hide Effect, Addresses, ValueOf;
    if rules == [] {
    } else {
      var last := |rules| - 1;
      var init := rules[..last];
      LastRuleDecides(types, classes, view, init, key, bit);
      EffectAt(types, classes, RunAll(types, classes, view, init), rules[last], key);
      assert rules[last] == rules[|rules| - 1];
      if !Touches(types, classes, rules[last], key, bit) {
        if i :| 0 <= i < |init| && Touches(types, classes, init[i], key, bit) {
          assert Touches(types, classes, rules[i], key, bit);
          var k :| 0 <= k < |init| && Touches(types, classes, init[k], key, bit)
                   && (forall j | k < j < |init| :: !Touches(types, classes, init[j], key, bit))
                   && (bit in ValueOf(RunAll(types, classes, view, init), key)) == !init[k].invert;
          assert rules[k] == init[k];
          forall j | k < j < |rules| ensures !Touches(types, classes, rules[j], key, bit) {
            if j < last { assert rules[j] == init[j]; }
          }
        } else {
          forall i | 0 <= i < |rules| ensures !Touches(types, classes, rules[i], key, bit) {
            if i < last { assert rules[i] == init[i]; }
          }
        }
      }
    }
  }

  /** No sequence of rules introduces an entry that says nothing. */
  lemma {:induction false} NoRedundantEntry(types: seq<TypeDatum>, classes: seq<nat>, view: View, rules: seq<Rule>, key: Key)
    requires key in RunAll(types, classes, view, rules)
    requires ValueOf(RunAll(types, classes, view, rules), key) == DefaultMask(key.kind)
    ensures key in view && view[key] == DefaultMask(key.kind)
    ensures forall i | 0 <= i < |rules| :: !Addresses(types, classes, rules[i], key)
  {
    hide Effect, Addresses, DefaultMask;
    if rules == [] {
    } else {
      var last := |rules| - 1;
      EffectAt(types, classes, RunAll(types, classes, view, rules[..last]), rules[last], key);
      NoRedundantEntry(types, classes, view, rules[..last], key);
      forall i | 0 <= i < |rules| ensures !Addresses(types, classes, rules[i], key) {
        if i < last { assert rules[..last][i] == rules[i]; }
      }
    }
  }

  // ----- what wildcards reach -----

  predicate IsType(types: seq<TypeDatum>, value: nat) {
    exists i :: 0 <= i < |types| && types[i].value == value
  }

  predicate IsAttribute(types: seq<TypeDatum>, value: nat) {
    exists i :: 0 <= i < |types| && types[i].value == value && types[i].isAttr
  }

  /** Denying a permission for everything leaves no entry of that class that grants it. */
  lemma DenyReachesAll(types: seq<TypeDatum>, classes: seq<nat>, view: View, cls: nat, perm: Option<nat>, key: Key, bit: nat)
    requires forall k | k in view :: IsType(types, k.src) && IsType(types, k.tgt)
    requires perm == None || perm == Some(bit)
    requires key.cls == cls && key.kind == Allowed
    ensures bit !in ValueOf(Effect(types, classes, view, Rule(None, None, Some(cls), perm, Allowed, true)), key)
  {
    hide Effect;
    var rule := Rule(None, None, Some(cls), perm, Allowed, true);
    EffectAt(types, classes, view, rule, key);
    AllValuesHas(types, true, key.src);
    AllValuesHas(types, true, key.tgt);
  }

  /** The types and attributes a type stands for when the kernel looks a rule up. */
  type Membership = nat -> set<nat>

  ghost predicate Granted(member: Membership, view: View, s: nat, t: nat, cls: nat, bit: nat) {
    exists a, b :: GrantedBy(member, view, s, t, cls, bit, a, b)
  }

  predicate GrantedBy(member: Membership, view: View, s: nat, t: nat, cls: nat, bit: nat, a: nat, b: nat) {
    a in member(s) && b in member(t) && bit in ValueOf(view, Key(a, b, cls, Allowed))
  }

  /** A type that an argument of an allow rule covers. */
  ghost predicate Covers(types: seq<TypeDatum>, member: Membership, arg: Option<nat>, value: nat) {
    match arg
    case Some(v) => v in member(value)
    case None => exists a :: a in member(value) && IsAttribute(types, a)
  }

  /** After an allow rule a pair is granted exactly if it was before or the rule covers both types. A wildcard
      covers the types that have an attribute, and no others. */
  lemma AllowReaches(types: seq<TypeDatum>, classes: seq<nat>, member: Membership, view: View,
                     src: Option<nat>, tgt: Option<nat>, cls: nat, bit: nat, s: nat, t: nat)
    ensures var after := Effect(types, classes, view, Rule(src, tgt, Some(cls), Some(bit), Allowed, false));
            Granted(member, after, s, t, cls, bit)
            <==> Granted(member, view, s, t, cls, bit) || (Covers(types, member, src, s) && Covers(types, member, tgt, t))
  {
    hide Effect, ValueOf;
    var rule := Rule(src, tgt, Some(cls), Some(bit), Allowed, false);
    var after := Effect(types, classes, view, rule);
    forall a, b ensures GrantedBy(member, after, s, t, cls, bit, a, b)
                        <==> GrantedBy(member, view, s, t, cls, bit, a, b)
                             || (a in member(s) && b in member(t) && ArgHas(types, src, a) && ArgHas(types, tgt, b))
    {
      EffectAt(types, classes, view, rule, Key(a, b, cls, Allowed));
      ArgCovers(types, src, a);
      ArgCovers(types, tgt, b);
    }
    if Granted(member, after, s, t, cls, bit) {
      var a, b :| GrantedBy(member, after, s, t, cls, bit, a, b);
      assert GrantedBy(member, view, s, t, cls, bit, a, b) || (ArgHas(types, src, a) && ArgHas(types, tgt, b));
    }
    if Granted(member, view, s, t, cls, bit) {
      var a, b :| GrantedBy(member, view, s, t, cls, bit, a, b);
      assert GrantedBy(member, after, s, t, cls, bit, a, b);
    }
    if Covers(types, member, src, s) && Covers(types, member, tgt, t) {
      var a :| a in member(s) && ArgHas(types, src, a);
      var b :| b in member(t) && ArgHas(types, tgt, b);
      assert GrantedBy(member, after, s, t, cls, bit, a, b);
    }
  }

  /** A type without an attribute, which `allow *` does not reach. */
  lemma WildcardMissesType(classes: seq<nat>, cls: nat, bit: nat)
    ensures var types, member: Membership := [TypeDatum(1, true), TypeDatum(2, false)], _ => {2};
            var after := Effect(types, classes, map[], Rule(None, None, Some(cls), Some(bit), Allowed, false));
            IsType(types, 2) && !Granted(member, after, 2, 2, cls, bit)
  {
    hide Effect;
    var types, member: Membership := [TypeDatum(1, true), TypeDatum(2, false)], _ => {2};
    AllowReaches(types, classes, member, map[], None, None, cls, bit, 2, 2);
    assert types[1].value == 2;
  }

  predicate ArgHas(types: seq<TypeDatum>, arg: Option<nat>, value: nat) {
    match arg
    case Some(v) => value == v
    case None => IsAttribute(types, value)
  }

  lemma ArgCovers(types: seq<TypeDatum>, arg: Option<nat>, value: nat)
    ensures value in TypesFor(types, arg, false) <==> ArgHas(types, arg, value)
  {
    AllValuesHas(types, false, value);
  }

  // ----- one more turn of each loop -----

  /** The view after a rule has been applied for the given types and classes. */
  function Applied(view: View, rule: Rule, sources: seq<nat>, targets: seq<nat>, classes: seq<nat>): View {
    ApplyAll(view, KeysOf(sources, targets, classes, rule.kind), rule.perm, rule.invert)
  }

  lemma OneMoreSource(view: View, rule: Rule, sources: seq<nat>, s: nat, targets: seq<nat>, classes: seq<nat>)
    ensures Applied(view, rule, sources + [s], targets, classes)
            == Applied(Applied(view, rule, sources, targets, classes), rule, [s], targets, classes)
  {
    assert (sources + [s])[..|sources|] == sources;
    assert KeysOf([s], targets, classes, rule.kind) == KeysOfTargets(s, targets, classes, rule.kind) by {
      assert [s][..0] == [];
    }
    ApplyAllSplit(view, KeysOf(sources, targets, classes, rule.kind), KeysOfTargets(s, targets, classes, rule.kind),
                  rule.perm, rule.invert);
  }

  lemma SingleSource(s: nat, targets: seq<nat>, classes: seq<nat>, kind: Kind)
    ensures KeysOf([s], targets, classes, kind) == KeysOfTargets(s, targets, classes, kind)
  {
    assert [s][..0] == [];
    assert KeysOf([], targets, classes, kind) == [];
  }

  lemma SingleTarget(s: nat, t: nat, classes: seq<nat>, kind: Kind)
    ensures KeysOf([s], [t], classes, kind) == KeysOfClasses(s, t, classes, kind)
  {
    SingleSource(s, [t], classes, kind);
    assert [t][..0] == [];
    assert KeysOfTargets(s, [], classes, kind) == [];
  }

  lemma OneMoreTarget(view: View, rule: Rule, s: nat, targets: seq<nat>, t: nat, classes: seq<nat>)
    ensures Applied(view, rule, [s], targets + [t], classes)
            == Applied(Applied(view, rule, [s], targets, classes), rule, [s], [t], classes)
  {
    assert (targets + [t])[..|targets|] == targets;
    SingleSource(s, targets + [t], classes, rule.kind);
    SingleSource(s, targets, classes, rule.kind);
    SingleTarget(s, t, classes, rule.kind);
    ApplyAllSplit(view, KeysOfTargets(s, targets, classes, rule.kind), KeysOfClasses(s, t, classes, rule.kind),
                  rule.perm, rule.invert);
  }

  lemma OneMoreClass(view: View, rule: Rule, s: nat, t: nat, classes: seq<nat>, c: nat)
    ensures Applied(view, rule, [s], [t], classes + [c])
            == Applied(Applied(view, rule, [s], [t], classes), rule, [s], [t], [c])
  {
    SingleTarget(s, t, classes + [c], rule.kind);
    SingleTarget(s, t, classes, rule.kind);
    SingleTarget(s, t, [c], rule.kind);
    assert KeysOfClasses(s, t, classes + [c], rule.kind)
        == KeysOfClasses(s, t, classes, rule.kind) + KeysOfClasses(s, t, [c], rule.kind);
    ApplyAllSplit(view, KeysOfClasses(s, t, classes, rule.kind), KeysOfClasses(s, t, [c], rule.kind),
                  rule.perm, rule.invert);
  }

  lemma NoneYet(view: View, rule: Rule, s: nat, t: nat, targets: seq<nat>, classes: seq<nat>)
    ensures Applied(view, rule, [], targets, classes) == view
    ensures Applied(view, rule, [s], [], classes) == view
    ensures Applied(view, rule, [s], [t], []) == view
  {
    SingleSource(s, [], classes, rule.kind);
    SingleTarget(s, t, [], rule.kind);
  }

  lemma OneKey(view: View, rule: Rule, s: nat, t: nat, c: nat)
    ensures Applied(view, rule, [s], [t], [c]) == ApplyRule(view, Key(s, t, c, rule.kind), rule.perm, rule.invert)
  {
    SingleTarget(s, t, [c], rule.kind);
    var keys := KeysOfClasses(s, t, [c], rule.kind);
    assert keys[..0] == [] && ApplyAll(view, [], rule.perm, rule.invert) == view;
  }

  lemma OneMoreValue(types: seq<TypeDatum>, all: bool, i: nat)
    requires i < |types|
    ensures AllValues(types[..i + 1], all)
            == if all || types[i].isAttr then AllValues(types[..i], all) + [types[i].value] else AllValues(types[..i], all)
  {
    assert types[..i + 1][..i] == types[..i];
  }

  // ----- the policy object -----

  /** The nodes hold the view: one node per key, with the mask the view gives it. */
  ghost predicate Represents(nodes: set<Node>, view: View)
    reads nodes`data
  {
    && (forall n | n in nodes && IsAv(n.key.kind) :: n.key in view && view[n.key] == n.data)
    && (forall k | k in view :: IsAv(k.kind) && exists n :: n in nodes && n.key == k)
    && (forall m, n | m in nodes && n in nodes && m.key == n.key && IsAv(n.key.kind) :: m == n)
  }

  lemma RepresentsAt(nodes: set<Node>, view: View, node: Node)
    requires Represents(nodes, view) && node in nodes && IsAv(node.key.kind)
    ensures node.key in view && view[node.key] == node.data
  {
  }

  lemma RepresentsNew(nodes: set<Node>, view: View, node: Node)
    requires Represents(nodes, view) && node !in nodes && IsAv(node.key.kind) && forall n | n in nodes :: n.key != node.key
    ensures node.key !in view && Represents(nodes + {node}, view[node.key := node.data])
  {
    forall k | k in view[node.key := node.data] ensures IsAv(k.kind) && exists n :: n in nodes + {node} && n.key == k {
      if k == node.key {
        assert node in nodes + {node};
      } else {
        var n :| n in nodes && n.key == k;
        assert n in nodes + {node};
      }
    }
  }

  lemma RepresentsDrop(nodes: set<Node>, view: View, node: Node)
    requires Represents(nodes, view) && node in nodes && IsAv(node.key.kind)
    ensures Represents(nodes - {node}, view - {node.key})
  {
    forall k | k in view - {node.key} ensures IsAv(k.kind) && exists n :: n in nodes - {node} && n.key == k {
      var n :| n in nodes && n.key == k;
      assert n in nodes - {node};
    }
  }

  method SetData(node: Node, mask: Mask, ghost nodes: set<Node>, ghost view: View)
    requires Represents(nodes, view) && node in nodes && IsAv(node.key.kind)
    modifies node`data
    ensures node.data == mask && Represents(nodes, view[node.key := mask])
  {
    node.data := mask;
    forall k | k in view[node.key := mask] ensures IsAv(k.kind) && exists n :: n in nodes && n.key == k {
      if k == node.key { assert node in nodes; }
    }
  }

  lemma RepresentsStripped(nodes: set<Node>, view: View)
    requires Represents(nodes, view)
    ensures Represents(set n | n in nodes && !IsDontaudit(n.key.kind), map k | k in view && k.kind != AuditDeny :: view[k])
  {
    var left := set n | n in nodes && !IsDontaudit(n.key.kind);
    forall k | k in view && k.kind != AuditDeny ensures IsAv(k.kind) && exists n :: n in left && n.key == k {
      var n :| n in nodes && n.key == k;
      assert n in left;
    }
  }

  class Policy {
    const table: Table
    const types: seq<TypeDatum>
    const classes: seq<nat>

    ghost var view: View

    constructor (table: Table, types: seq<TypeDatum>, classes: seq<nat>)
      requires table.Valid() && table.nodes == {}
      ensures Valid() && view == map[]
      ensures this.table == table && this.types == types && this.classes == classes
    {
      this.table, this.types, this.classes, this.view := table, types, classes, map[];
    }

    ghost predicate Valid()
      reads this, table, table.nodes`data
    {
      table.Valid() && Represents(table.nodes, view)
    }

    /** Entries of other kinds stay. */
    twostate predicate KeepsOthers()
      reads this, table
    {
      && fresh(table.nodes - old(table.nodes))
      && (forall n | n in table.nodes && n !in old(table.nodes) :: IsAv(n.key.kind))
      && (forall n | n in old(table.nodes) && !IsAv(n.key.kind) :: n in table.nodes)
    }

    /** `get_avtab_node`: the node of the key, made with the default mask if there is none. */
    method GetNode(key: Key) returns (node: Node)
      requires Valid() && IsAv(key.kind)
      modifies this`view, table
      ensures Valid() && KeepsOthers()
      ensures node in table.nodes && node.key == key && (node in old(table.nodes) || fresh(node))
      ensures old(table.nodes) <= table.nodes
      ensures view == old(view)[key := ValueOf(old(view), key)] && node.data == view[key]
    {
      hide DefaultMask, Represents, Table.Valid;
      var found := table.Search(key);
      if found != null {
        node := found;
        RepresentsAt(table.nodes, view, node);
        assert view == view[key := view[key]];
      } else {
        ghost var before := table.nodes;
        node := table.Insert(key);
        RepresentsNew(before, view, node);
        view := view[key := node.data];
      }
    }

    /** The last branch of `add_rule`: find or make the node, edit it, drop it if it says nothing. */
    method AddToKey(key: Key, perm: Option<nat>, invert: bool)
      requires Valid() && IsAv(key.kind)
      modifies this`view, table, table.nodes`data
      ensures Valid() && KeepsOthers()
      ensures view == ApplyRule(old(view), key, perm, invert)
    {
      hide Edit, DefaultMask, Represents, Table.Valid;
      var node := EditNode(key, perm, invert);
      if node.data == DefaultMask(key.kind) {
        DropNode(node);
      }
    }

    method EditNode(key: Key, perm: Option<nat>, invert: bool) returns (node: Node)
      requires Valid() && IsAv(key.kind)
      modifies this`view, table, table.nodes`data
      ensures Valid() && KeepsOthers()
      ensures node in table.nodes && node.key == key && node.data == view[key]
      ensures view == old(view)[key := Edit(ValueOf(old(view), key), perm, invert)]
    {
      hide Edit, DefaultMask, Represents, Table.Valid, ValueOf;
      node := GetNode(key);
      SetData(node, Edit(node.data, perm, invert), table.nodes, view);
      view := view[key := node.data];
    }

    method DropNode(node: Node)
      requires Valid() && node in table.nodes && IsAv(node.key.kind)
      modifies this`view, table
      ensures Valid() && table.nodes == old(table.nodes) - {node} && view == old(view) - {node.key}
    {
      hide Represents, Table.Valid;
      RepresentsDrop(table.nodes, view, node);
      var found := table.Remove(node);
      view := view - {node.key};
    }

    /** `add_rule` on resolved arguments: one loop per missing argument. */
    method AddRule(rule: Rule)
      requires Valid() && IsAv(rule.kind)
      modifies this`view, table, table.nodes`data
      ensures Valid() && KeepsOthers()
      ensures view == Effect(types, classes, old(view), rule)
      decreases Missing(rule), 1
    {
      hide Represents, AllValues, ApplyAll, KeysOf;
      var all := Strips(rule.kind, rule.invert);
      ghost var ss, ts, cs := TypesFor(types, rule.src, all), TypesFor(types, rule.tgt, all), ClassesFor(classes, rule.cls);
      assert Effect(types, classes, view, rule) == Applied(view, rule, ss, ts, cs);
      if rule.src.None? {
        AddForSources(rule, all);
      } else if rule.tgt.None? {
        AddForTargets(rule, all);
      } else if rule.cls.None? {
        AddForClasses(rule);
      } else {
        var key := Key(rule.src.value, rule.tgt.value, rule.cls.value, rule.kind);
        OneKey(view, rule, key.src, key.tgt, key.cls);
        AddToKey(key, rule.perm, rule.invert);
      }
    }

    method AddForSources(rule: Rule, all: bool)
      requires Valid() && IsAv(rule.kind) && rule.src.None? && all == Strips(rule.kind, rule.invert)
      modifies this`view, table, table.nodes`data
      ensures Valid() && KeepsOthers()
      ensures view == Applied(old(view), rule, AllValues(types, all), TypesFor(types, rule.tgt, all),
                              ClassesFor(classes, rule.cls))
      decreases Missing(rule), 0
    {
      hide Represents, ApplyAll, KeysOf, AllValues;
      ghost var ts, cs := TypesFor(types, rule.tgt, all), ClassesFor(classes, rule.cls);
      NoneYet(view, rule, 0, 0, ts, cs);
      assert AllValues(types[..0], all) == [] by { NoValues(all); }
      for i := 0 to |types|
        invariant Valid() && KeepsOthers()
        invariant view == Applied(old(view), rule, AllValues(types[..i], all), ts, cs)
      {
        OneMoreValue(types, all, i);
        if all || types[i].isAttr {
          OneMoreSource(old(view), rule, AllValues(types[..i], all), types[i].value, ts, cs);
          AddRule(rule.(src := Some(types[i].value)));
        }
      }
      assert types[..|types|] == types;
    }

    method AddForTargets(rule: Rule, all: bool)
      requires Valid() && IsAv(rule.kind) && rule.src.Some? && rule.tgt.None? && all == Strips(rule.kind, rule.invert)
      modifies this`view, table, table.nodes`data
      ensures Valid() && KeepsOthers()
      ensures view == Applied(old(view), rule, [rule.src.value], AllValues(types, all), ClassesFor(classes, rule.cls))
      decreases Missing(rule), 0
    {
      hide Represents, ApplyAll, KeysOf, AllValues;
      ghost var cs := ClassesFor(classes, rule.cls);
      NoneYet(view, rule, rule.src.value, 0, [], cs);
      assert AllValues(types[..0], all) == [] by { NoValues(all); }
      for i := 0 to |types|
        invariant Valid() && KeepsOthers()
        invariant view == Applied(old(view), rule, [rule.src.value], AllValues(types[..i], all), cs)
      {
        OneMoreValue(types, all, i);
        if all || types[i].isAttr {
          OneMoreTarget(old(view), rule, rule.src.value, AllValues(types[..i], all), types[i].value, cs);
          AddRule(rule.(tgt := Some(types[i].value)));
        }
      }
      assert types[..|types|] == types;
    }

    method AddForClasses(rule: Rule)
      requires Valid() && IsAv(rule.kind) && rule.src.Some? && rule.tgt.Some? && rule.cls.None?
      modifies this`view, table, table.nodes`data
      ensures Valid() && KeepsOthers()
      ensures view == Applied(old(view), rule, [rule.src.value], [rule.tgt.value], classes)
      decreases Missing(rule), 0
    {
      hide Represents, ApplyAll, KeysOf;
      NoneYet(view, rule, rule.src.value, rule.tgt.value, [], []);
      for i := 0 to |classes|
        invariant Valid() && KeepsOthers()
        invariant view == Applied(old(view), rule, [rule.src.value], [rule.tgt.value], classes[..i])
      {
        OneMoreClass(old(view), rule, rule.src.value, rule.tgt.value, classes[..i], classes[i]);
        assert classes[..i + 1] == classes[..i] + [classes[i]];
        AddRule(rule.(cls := Some(classes[i])));
      }
      assert classes[..|classes|] == classes;
    }

    /** `strip_dontaudit`, on the view. */
    method StripDontaudit()
      requires Valid()
      modifies this`view, table
      ensures Valid() && view == map k | k in old(view) && k.kind != AuditDeny :: old(view)[k]
      ensures table.nodes == set n | n in old(table.nodes) && !IsDontaudit(n.key.kind)
    {
      hide Represents, Table.Valid;
      RepresentsStripped(table.nodes, view);
      table.StripDontaudit();
      view := map k | k in view && k.kind != AuditDeny :: view[k];
    }

    /** Any number of calls. */
    method Run(rules: seq<Rule>)
      requires Valid() && forall i | 0 <= i < |rules| :: IsAv(rules[i].kind)
      modifies this`view, table, table.nodes`data
      ensures Valid() && KeepsOthers()
      ensures view == RunAll(types, classes, old(view), rules)
    {
      hide Represents, Effect;
      for i := 0 to |rules|
        invariant Valid() && KeepsOthers()
        invariant view == RunAll(types, classes, old(view), rules[..i])
      {
        assert rules[..i + 1][..i] == rules[..i];
        AddRule(rules[i]);
      }
      assert rules[..|rules|] == rules;
    }
  }

  lemma NoValues(all: bool)
    ensures AllValues([], all) == []
  {
  }
}
