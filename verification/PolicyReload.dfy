/** Printing a whole table and loading the text into an empty one. */
module PolicyReload {
  import opened Common
  import opened AvTable
  import opened AvRules
  import opened PolicyText
  import opened PolicyPrint

  ghost predicate Distinct(keys: seq<Key>) { forall i, j | 0 <= i < j < |keys| :: keys[i] != keys[j] }

  predicate AvKeys(view: View, keys: seq<Key>) {
    forall i | 0 <= i < |keys| :: keys[i] in view && IsAv(keys[i].kind)
  }

  function PrintAll(db: Database, view: View, keys: seq<Key>): (r: seq<string>)
    requires AvKeys(view, keys)
    ensures |r| == |keys| && forall i | 0 <= i < |r| :: r[i] == PrintEntry(db, keys[i], view[keys[i]])
  {
    seq(|keys|, i requires 0 <= i < |keys| => PrintEntry(db, keys[i], view[keys[i]]))
  }

  /** What printing and loading makes of the entries with these keys. */
  ghost function Reloaded(db: Database, view: View, keys: set<Key>): View
    requires forall k | k in keys :: k in view
  {
    map k | k in keys && EntryReadback(db, k, view[k]) != DefaultMask(k.kind) :: EntryReadback(db, k, view[k])
  }

  lemma ReloadedMore(db: Database, view: View, keys: set<Key>, key: Key)
    requires (forall k | k in keys :: k in view) && key in view && key !in keys
    ensures key !in Reloaded(db, view, keys)
    ensures Put(Reloaded(db, view, keys), key, EntryReadback(db, key, view[key])) == Reloaded(db, view, keys + {key})
  {
    hide EntryReadback, DefaultMask;
  }

  lemma {:induction false} ReloadIs(db: Database, view: View, keys: seq<Key>)
    requires WellNamed(db) && AvKeys(view, keys) && Distinct(keys)
    ensures LoadLines(db, map[], PrintAll(db, view, keys)) == Reloaded(db, view, set k | k in keys)
  {
    hide WellNamed, PrintEntry, EntryReadback, DefaultMask, LoadLine, Put, Reloaded;
    if keys == [] {
      assert Reloaded(db, view, {}) == map[] by { NothingReloaded(db, view); }
      assert (set k | k in keys) == {};
    } else {
      var last := |keys| - 1;
      var init, key := keys[..last], keys[last];
      var done := set k | k in init;
      LastKey(keys);
      ReloadIs(db, view, init);
      PrintAllLast(db, view, keys);
      hide Distinct, PrintAll;
      ReloadedMore(db, view, done, key);
      EntryLoads(db, Reloaded(db, view, done), key, view[key]);
    }
  }

  lemma LastKey(keys: seq<Key>)
    requires Distinct(keys) && keys != []
    ensures var init, key := keys[..|keys| - 1], keys[|keys| - 1];
            Distinct(init) && key !in init && (set k | k in keys) == (set k | k in init) + {key}
  {
    assert keys == keys[..|keys| - 1] + [keys[|keys| - 1]];
  }

  lemma PrintAllLast(db: Database, view: View, keys: seq<Key>)
    requires AvKeys(view, keys) && keys != []
    ensures var last, lines := |keys| - 1, PrintAll(db, view, keys);
            && AvKeys(view, keys[..last]) && lines[..last] == PrintAll(db, view, keys[..last])
            && lines[last] == PrintEntry(db, keys[last], view[keys[last]])
  {
    hide PrintEntry;
  }

  lemma NothingReloaded(db: Database, view: View)
    ensures Reloaded(db, view, {}) == map[]
  {
  }

  /** An entry the text carries completely. */
  predicate Faithful(db: Database, key: Key, mask: Mask) {
    && Nameable(db, key) && mask <= FULL && mask != DefaultMask(key.kind)
    && forall b | b in PolicyPrint.Listed(key.kind, mask) :: b in PermNames(db.perms[key.cls])
  }

  lemma FaithfulIs(db: Database, key: Key, mask: Mask)
    requires IsAv(key.kind)
    ensures EntryReadback(db, key, mask) == mask && mask != DefaultMask(key.kind) <==> Faithful(db, key, mask)
  {
    if Nameable(db, key) {
      var names := PermNames(db.perms[key.cls]);
      var bits := PrintedBits(db, key, mask);
      var listed := PolicyPrint.Listed(key.kind, mask);
      assert BitSet(bits) == set b | b in listed && b in names && b < 32;
      assert forall b | b in FULL :: b < 32;
      hide PermNames, PrintedBits;
      if key.kind == AuditDeny {
        if FULL - BitSet(bits) == mask {
          forall b | b in listed ensures b in names { assert b in FULL && b !in mask; }
        }
        if Faithful(db, key, mask) { assert BitSet(bits) == FULL - mask; }
      } else {
        if BitSet(bits) == mask {
          forall b | b in listed ensures b in names { assert b in mask; }
        }
        if Faithful(db, key, mask) { assert BitSet(bits) == mask; }
      }
    }
  }

  /** Printing a table and loading the text into an empty one rebuilds it exactly if every entry says something
      and every bit it sets (clears, for audit-deny) has a name. */
  lemma ReloadRebuilds(db: Database, view: View, keys: seq<Key>)
    requires WellNamed(db) && Enumerates(view, keys)
    ensures LoadLines(db, map[], PrintAll(db, view, keys)) == view <==> forall k | k in view :: Faithful(db, k, view[k])
  {
    hide WellNamed, EntryReadback, DefaultMask, Faithful, LoadLines, PrintAll;
    ReloadIs(db, view, keys);
    var all := set k | k in keys;
    assert all == view.Keys;
    var result := Reloaded(db, view, all);
    forall k | k in view ensures Faithful(db, k, view[k]) <==> k in result && result[k] == view[k] {
      assert IsAv(k.kind);
      FaithfulIs(db, k, view[k]);
    }
    if forall k | k in view :: Faithful(db, k, view[k]) {
      assert result.Keys == view.Keys;
    }
  }

  // ----- the loops -----

  /** The nodes printed so far, in print order of their keys. */
  ghost predicate Printed(db: Database, view: View, seen: set<Node>, keys: seq<Key>, lines: seq<string>) {
    && AvKeys(view, keys) && Distinct(keys) && lines == PrintAll(db, view, keys)
    && (forall n | n in seen && IsAv(n.key.kind) :: n.key in keys)
    && (forall k | k in keys :: exists n :: n in seen && n.key == k)
  }

  lemma PrintedMore(db: Database, view: View, nodes: set<Node>, seen: set<Node>, node: Node, keys: seq<Key>, lines: seq<string>)
    requires Represents(nodes, view) && seen <= nodes && node in nodes && node !in seen
    requires Printed(db, view, seen, keys, lines)
    ensures IsAv(node.key.kind) ==>
              Printed(db, view, seen + {node}, keys + [node.key], lines + [PrintEntry(db, node.key, node.data)])
    ensures !IsAv(node.key.kind) ==> Printed(db, view, seen + {node}, keys, lines)
  {
    hide PrintEntry;
    assert forall k | k in keys :: exists n :: n in seen + {node} && n.key == k;
    if IsAv(node.key.kind) {
      var keys' := keys + [node.key];
      assert node.key !in keys;
      assert node in seen + {node};
      assert PrintAll(db, view, keys') == lines + [PrintEntry(db, node.key, node.data)];
      forall k | k in keys' ensures exists n :: n in seen + {node} && n.key == k {
        if k == node.key { assert node in seen + {node}; } else { assert k in keys; }
      }
    }
  }

  method PrintChain(policy: Policy, db: Database, slot: nat, start: seq<string>,
                    ghost seen: set<Node>, ghost keys: seq<Key>)
    returns (lines: seq<string>, ghost seen': set<Node>, ghost keys': seq<Key>)
    requires policy.Valid() && slot < |policy.table.htable|
    requires seen <= policy.table.nodes && (forall n | n in seen :: policy.table.hash(n.key) < slot)
    requires Printed(db, policy.view, seen, keys, start)
    ensures Printed(db, policy.view, seen', keys', lines)
    ensures seen <= seen' <= policy.table.nodes && (forall n | n in seen' :: policy.table.hash(n.key) <= slot)
    ensures forall n | n in policy.table.htable[slot] :: n in seen'
  {
    hide Represents, Printed, PrintEntry;
    var c := policy.table.htable[slot];
    assert InSlot(policy.table.hash, policy.table.nodes, c, slot);
    lines, seen', keys' := start, seen, keys;
    for i := 0 to |c|
      invariant Printed(db, policy.view, seen', keys', lines)
      invariant seen <= seen' <= policy.table.nodes && (forall n | n in seen' :: policy.table.hash(n.key) <= slot)
      invariant forall j | 0 <= j < |c| :: c[j] in seen' <==> j < i
    {
      PrintedMore(db, policy.view, policy.table.nodes, seen', c[i], keys', lines);
      seen' := seen' + {c[i]};
      if IsAv(c[i].key.kind) {
        lines, keys' := lines + [PrintEntry(db, c[i].key, c[i].data)], keys' + [c[i].key];
      }
    }
  }

  /** Lines that print every entry of a table exactly once, in some order. */
  ghost predicate IsPrinting(db: Database, view: View, lines: seq<string>) {
    exists keys :: Enumerates(view, keys) && lines == PrintAll(db, view, keys)
  }

  ghost predicate Enumerates(view: View, keys: seq<Key>) {
    AvKeys(view, keys) && Distinct(keys) && forall k | k in view :: k in keys
  }

  /** `print_rules`, the access vector part: one chain after the other. */
  method PrintRules(policy: Policy, db: Database) returns (lines: seq<string>)
    requires policy.Valid()
    ensures IsPrinting(db, policy.view, lines)
  {
    hide Represents, PrintEntry;
    ghost var seen: set<Node>, keys: seq<Key> := {}, [];
    lines := [];
    for s := 0 to |policy.table.htable|
      invariant Printed(db, policy.view, seen, keys, lines)
      invariant seen <= policy.table.nodes && (forall n | n in seen :: policy.table.hash(n.key) < s)
      invariant forall t | 0 <= t < s :: forall n | n in policy.table.htable[t] :: n in seen
    {
      lines, seen, keys := PrintChain(policy, db, s, lines, seen, keys);
    }
    AllPrinted(policy.table.nodes, policy.view, seen);
    assert Enumerates(policy.view, keys);
  }

  lemma AllPrinted(nodes: set<Node>, view: View, seen: set<Node>)
    requires Represents(nodes, view)
    ensures forall k | k in view :: exists n :: n in nodes && n.key == k && IsAv(k.kind)
  {
  }

  /** Loading rule lines into a policy. */
  method LoadRules(policy: Policy, db: Database, lines: seq<string>)
    requires policy.Valid() && policy.types == db.types && policy.classes == db.classes
    modifies policy`view, policy.table, policy.table.nodes`data
    ensures policy.Valid() && policy.view == LoadLines(db, old(policy.view), lines)
    ensures fresh(policy.table.nodes - old(policy.table.nodes))
  {
    hide Represents, Table.Valid, RunNames, ParseStatement, Expand;
    for i := 0 to |lines|
      invariant policy.Valid() && policy.view == LoadLines(db, old(policy.view), lines[..i])
      invariant fresh(policy.table.nodes - old(policy.table.nodes))
    {
      assert lines[..i + 1][..i] == lines[..i];
      var st := ParseStatement(lines[i]);
      if st.Some? {
        ExecAll(policy, db, Expand(st.value), KindOf(st.value.action), Inverts(st.value.action));
      }
    }
    assert lines[..|lines|] == lines;
  }

  /** The callback of `expand`, run on every combination. */
  method ExecAll(policy: Policy, db: Database, names: seq<Names>, kind: Kind, invert: bool)
    requires policy.Valid() && policy.types == db.types && policy.classes == db.classes && IsAv(kind)
    modifies policy`view, policy.table, policy.table.nodes`data
    ensures policy.Valid() && policy.view == RunNames(db, old(policy.view), names, kind, invert)
    ensures fresh(policy.table.nodes - old(policy.table.nodes))
  {
    hide Represents, Table.Valid, Resolve, Effect;
    for i := 0 to |names|
      invariant policy.Valid() && policy.view == RunNames(db, old(policy.view), names[..i], kind, invert)
      invariant fresh(policy.table.nodes - old(policy.table.nodes))
    {
      assert names[..i + 1][..i] == names[..i];
      var rule := Resolve(db, names[i], kind, invert);
      if rule.Some? {
        ResolvedKind(db, names[i], kind, invert);
        policy.AddRule(rule.value);
      }
    }
    assert names[..|names|] == names;
  }

  lemma ResolvedKind(db: Database, n: Names, kind: Kind, invert: bool)
    ensures Resolve(db, n, kind, invert).Some? ==> Resolve(db, n, kind, invert).value.kind == kind
  {
  }

  /** A policy printed and loaded into an empty one. */
  method Rebuild(policy: Policy, db: Database, nslot: nat) returns (copy: Policy)
    requires policy.Valid() && WellNamed(db) && forall k :: policy.table.hash(k) < nslot
    ensures copy.Valid()
    ensures copy.view == policy.view <==> forall k | k in policy.view :: Faithful(db, k, policy.view[k])
  {
    hide Represents, Table.Valid, WellNamed, Faithful, LoadLines, PrintAll;
    var lines := PrintRules(policy, db);
    var table := new Table(policy.table.hash, nslot);
    copy := new Policy(table, db.types, db.classes);
    LoadRules(copy, db, lines);
    ghost var keys :| Enumerates(policy.view, keys) && lines == PrintAll(db, policy.view, keys);
    ReloadRebuilds(db, policy.view, keys);
  }
}
