/** Printing the access vector table as statements, and loading statements into a table. */
module PolicyPrint {
  import opened Common
  import opened AvTable
  import opened AvRules
  import opened PolicyText

  // ----- the symbol tables -----

  /** The permissions of a class and those it inherits, each name with its bit. */
  datatype PermTables = PermTables(own: seq<(string, nat)>, common: seq<(string, nat)>)

  datatype Database = Database(
    types: seq<TypeDatum>, typeNames: map<nat, string>, typeValues: map<string, nat>,
    classes: seq<nat>, classNames: map<nat, string>, classValues: map<string, nat>,
    perms: map<nat, PermTables>)

  /** Names are cut to fit a buffer of 256 bytes before they are looked up. */
  function Cut(name: string): string { if |name| > 255 then name[..255] else name }

  function FindIn(table: map<string, nat>, name: string): Option<nat> {
    if Cut(name) in table then Some(table[Cut(name)]) else None
  }

  function Lookup(list: seq<(string, nat)>, name: string): Option<nat> {
    if list == [] then None else if list[0].0 == name then Some(list[0].1) else Lookup(list[1..], name)
  }

  function FindPerm(tables: PermTables, name: string): Option<nat> {
    match Lookup(tables.own, Cut(name))
    case Some(bit) => Some(bit)
    case None => Lookup(tables.common, Cut(name))
  }

  /** The name of every bit; the inherited names are entered last. */
  function EnterNames(names: map<nat, string>, list: seq<(string, nat)>): map<nat, string> {
    if list == [] then names
    else EnterNames(names, list[..|list| - 1])[list[|list| - 1].1 := list[|list| - 1].0]
  }

  function PermNames(tables: PermTables): map<nat, string> {
    EnterNames(EnterNames(map[], tables.own), tables.common)
  }

  /** No name and no bit twice, and every bit in the mask. */
  predicate ProperTables(tables: PermTables) {
    var all := tables.own + tables.common;
    && (forall i, j | 0 <= i < j < |all| :: all[i].0 != all[j].0 && all[i].1 != all[j].1)
    && (forall i | 0 <= i < |all| :: all[i].1 < 32 && |all[i].0| < 256)
  }

  lemma {:induction false} EnteredFrom(names: map<nat, string>, list: seq<(string, nat)>, bit: nat)
    requires bit in EnterNames(names, list)
    ensures (bit in names && EnterNames(names, list)[bit] == names[bit])
            || exists i :: 0 <= i < |list| && list[i] == (EnterNames(names, list)[bit], bit)
  {
    if list == [] {
    } else {
      var last := |list| - 1;
      if list[last].1 == bit {
        assert list[last] == (EnterNames(names, list)[bit], bit);
      } else {
        EnteredFrom(names, list[..last], bit);
        if i :| 0 <= i < last && list[..last][i] == (EnterNames(names, list[..last])[bit], bit) {
          assert list[i] == list[..last][i];
        }
      }
    }
  }

  lemma {:induction false} LookupAt(list: seq<(string, nat)>, i: nat)
    requires i < |list| && forall j | 0 <= j < i :: list[j].0 != list[i].0
    ensures Lookup(list, list[i].0) == Some(list[i].1)
  {
    if i == 0 {
    } else {
      assert forall j | 0 <= j < i - 1 :: list[1..][j].0 == list[j + 1].0;
      LookupAt(list[1..], i - 1);
    }
  }

  lemma {:induction false} LookupMissing(list: seq<(string, nat)>, name: string)
    requires forall j | 0 <= j < |list| :: list[j].0 != name
    ensures Lookup(list, name) == None
  {
    if list == [] {
    } else {
      assert forall j | 0 <= j < |list| - 1 :: list[1..][j].0 == list[j + 1].0;
      LookupMissing(list[1..], name);
    }
  }

  /** A printed permission name is found again as the bit it was printed for. */
  lemma NamesInvert(tables: PermTables, bit: nat)
    requires ProperTables(tables) && bit in PermNames(tables)
    ensures bit < 32 && FindPerm(tables, PermNames(tables)[bit]) == Some(bit)
  {
    var name := PermNames(tables)[bit];
    var all := tables.own + tables.common;
    var mid := EnterNames(map[], tables.own);
    EnteredFrom(mid, tables.common, bit);
    if i :| 0 <= i < |tables.common| && tables.common[i] == (name, bit) {
      assert all[|tables.own| + i] == (name, bit);
      forall j | 0 <= j < |tables.own| ensures tables.own[j].0 != name { assert all[j] == tables.own[j]; }
      forall j | 0 <= j < i ensures tables.common[j].0 != name { assert all[|tables.own| + j] == tables.common[j]; }
      LookupMissing(tables.own, name);
      LookupAt(tables.common, i);
    } else {
      EnteredFrom(map[], tables.own, bit);
      var i :| 0 <= i < |tables.own| && tables.own[i] == (name, bit);
      assert all[i] == (name, bit);
      forall j | 0 <= j < i ensures tables.own[j].0 != name { assert all[j] == tables.own[j]; }
      LookupAt(tables.own, i);
    }
  }

  // ----- executing a statement -----

  function KindOf(action: Token): Kind {
    if action == AA then AuditAllow else if action == DA then AuditDeny else Allowed
  }

  function Inverts(action: Token): bool { action == DN || action == DA }

  datatype Names = Names(src: string, tgt: string, cls: string, perm: string)

  /** `add_rule` on names; an empty name is a wildcard, an unknown one makes the call do nothing. */
  function Resolve(db: Database, n: Names, kind: Kind, invert: bool): Option<Rule> {
    var src := FindIn(db.typeValues, n.src);
    var tgt := FindIn(db.typeValues, n.tgt);
    var cls := FindIn(db.classValues, n.cls);
    if (n.src != "" && src.None?) || (n.tgt != "" && tgt.None?) || (n.cls != "" && cls.None?) then None
    else
      var s := if n.src == "" then None else src;
      var t := if n.tgt == "" then None else tgt;
      var c := if n.cls == "" then None else cls;
      if n.perm == "" then Some(Rule(s, t, c, None, kind, invert))
      else if c.None? || c.value !in db.perms then None
      else match FindPerm(db.perms[c.value], n.perm)
        case None => None
        case Some(bit) => Some(Rule(s, t, c, Some(bit), kind, invert))
  }

  function AddNames(db: Database, view: View, n: Names, kind: Kind, invert: bool): View {
    match Resolve(db, n, kind, invert)
    case None => view
    case Some(rule) => Effect(db.types, db.classes, view, rule)
  }

  function OrAny(names: seq<string>): (r: seq<string>)
    ensures |r| > 0
  {
    if names == [] then [""] else names
  }

  function ExpandPerms(s: string, t: string, c: string, perms: seq<string>): (r: seq<Names>)
    ensures |r| == |perms| && forall i | 0 <= i < |r| :: r[i] == Names(s, t, c, perms[i])
  {
    seq(|perms|, i requires 0 <= i < |perms| => Names(s, t, c, perms[i]))
  }

  function ExpandClasses(s: string, t: string, classes: seq<string>, perms: seq<string>): seq<Names> {
    if classes == [] then [] else ExpandPerms(s, t, classes[0], perms) + ExpandClasses(s, t, classes[1..], perms)
  }

  function ExpandTargets(s: string, targets: seq<string>, classes: seq<string>, perms: seq<string>): seq<Names> {
    if targets == [] then [] else ExpandClasses(s, targets[0], classes, perms) + ExpandTargets(s, targets[1..], classes, perms)
  }

  function ExpandSources(sources: seq<string>, targets: seq<string>, classes: seq<string>, perms: seq<string>): seq<Names> {
    if sources == [] then []
    else ExpandTargets(sources[0], targets, classes, perms) + ExpandSources(sources[1..], targets, classes, perms)
  }

  /** `expand`: every combination, an empty list standing for one wildcard. */
  function Expand(st: Statement): seq<Names> {
    ExpandSources(OrAny(st.src), OrAny(st.tgt), OrAny(st.cls), OrAny(st.perm))
  }

  lemma {:induction false} ExpandClassesHas(s: string, t: string, classes: seq<string>, perms: seq<string>, n: Names)
    ensures n in ExpandClasses(s, t, classes, perms) <==> n.src == s && n.tgt == t && n.cls in classes && n.perm in perms
  {
    if classes == [] {
    } else {
      ExpandClassesHas(s, t, classes[1..], perms, n);
      assert classes == [classes[0]] + classes[1..];
      var first := ExpandPerms(s, t, classes[0], perms);
      if n.src == s && n.tgt == t && n.cls == classes[0] && n.perm in perms {
        var i :| 0 <= i < |perms| && perms[i] == n.perm;
        assert first[i] == n;
      }
    }
  }

  lemma {:induction false} ExpandTargetsHas(s: string, targets: seq<string>, classes: seq<string>, perms: seq<string>, n: Names)
    ensures n in ExpandTargets(s, targets, classes, perms)
            <==> n.src == s && n.tgt in targets && n.cls in classes && n.perm in perms
  {
    if targets == [] {
    } else {
      ExpandTargetsHas(s, targets[1..], classes, perms, n);
      ExpandClassesHas(s, targets[0], classes, perms, n);
      assert targets == [targets[0]] + targets[1..];
    }
  }

  /** The expansion is the cross product of the four lists. */
  lemma {:induction false} ExpandHas(sources: seq<string>, targets: seq<string>, classes: seq<string>, perms: seq<string>,
                                     n: Names)
    ensures n in ExpandSources(sources, targets, classes, perms)
            <==> n.src in sources && n.tgt in targets && n.cls in classes && n.perm in perms
  {
    if sources == [] {
    } else {
      ExpandHas(sources[1..], targets, classes, perms, n);
      ExpandTargetsHas(sources[0], targets, classes, perms, n);
      assert sources == [sources[0]] + sources[1..];
    }
  }

  function RunNames(db: Database, view: View, names: seq<Names>, kind: Kind, invert: bool): View {
    if names == [] then view
    else AddNames(db, RunNames(db, view, names[..|names| - 1], kind, invert), names[|names| - 1], kind, invert)
  }

  function ExecStatement(db: Database, view: View, st: Statement): View {
    RunNames(db, view, Expand(st), KindOf(st.action), Inverts(st.action))
  }

  /** One line of a rule file. */
  function LoadLine(db: Database, view: View, line: string): View {
    match ParseStatement(line)
    case None => view
    case Some(st) => ExecStatement(db, view, st)
  }

  function LoadLines(db: Database, view: View, lines: seq<string>): View {
    if lines == [] then view else LoadLine(db, LoadLines(db, view, lines[..|lines| - 1]), lines[|lines| - 1])
  }

  // ----- printing -----

  /** The bits a line lists: those set, or for audit-deny those clear. */
  function Listed(kind: Kind, mask: Mask): Mask {
    if kind == AuditDeny then FULL - mask else mask * FULL
  }

  /** The first `n` bits that are listed and have a name. */
  function NamedBits(names: map<nat, string>, bits: Mask, n: nat): (r: seq<nat>)
    ensures forall b :: b in r <==> b in bits && b in names && b < n
  {
    if n == 0 then []
    else if n - 1 in bits && n - 1 in names then NamedBits(names, bits, n - 1) + [n - 1]
    else NamedBits(names, bits, n - 1)
  }

  function PermList(names: map<nat, string>, bits: seq<nat>): (r: seq<string>)
    requires forall i | 0 <= i < |bits| :: bits[i] in names
    ensures |r| == |bits| && forall i | 0 <= i < |r| :: r[i] == names[bits[i]]
  {
    seq(|bits|, i requires 0 <= i < |bits| => names[bits[i]])
  }

  function PermText(perms: seq<string>): string {
    if perms == [] then " }\n" else " " + perms[0] + PermText(perms[1..])
  }

  function Action(kind: Kind): Token
    requires IsAv(kind)
  {
    match kind
    case Allowed => AL
    case AuditAllow => AA
    case AuditDeny => DA
  }

  function StatementText(action: string, src: string, tgt: string, cls: string, perms: seq<string>): string {
    action + " " + src + " " + tgt + " " + cls + " {" + PermText(perms)
  }

  predicate Nameable(db: Database, key: Key) {
    && key.src in db.typeNames && key.tgt in db.typeNames && key.cls in db.classNames && key.cls in db.perms
  }

  function PrintedBits(db: Database, key: Key, mask: Mask): (r: seq<nat>)
    requires Nameable(db, key)
    ensures forall i | 0 <= i < |r| :: r[i] in PermNames(db.perms[key.cls])
  {
    NamedBits(PermNames(db.perms[key.cls]), Listed(key.kind, mask), 32)
  }

  /** `print_avtab` for access vector entries: a line, or nothing if there is nothing to name. */
  function PrintEntry(db: Database, key: Key, mask: Mask): string
    requires IsAv(key.kind)
  {
    if !Nameable(db, key) then ""
    else
      var bits := PrintedBits(db, key, mask);
      if bits == [] then ""
      else StatementText(Display(Action(key.kind)), db.typeNames[key.src], db.typeNames[key.tgt], db.classNames[key.cls],
                         PermList(PermNames(db.perms[key.cls]), bits))
  }

  // ----- reading a printed line -----

  /** A name that is one token. */
  predicate Plain(name: string) {
    && IsWord(name) && Keyword(name).None? && Separator(name).None?
    && name[0] != '~' && !("0x" <= name) && |name| < 256
  }

  lemma PlainToken(name: string)
    requires Plain(name)
    ensures ExtractToken(name) == [ID(name)]
  {
    hide Keyword, Separator;
  }

  lemma ActionToken(kind: Kind)
    requires IsAv(kind)
    ensures var a := Display(Action(kind));
            IsWord(a) && ExtractToken(a) == [Action(kind)] && a[0] != '#'
  {
    hide ExtractToken;
    ActionIsKeyword(kind);
    KeywordToken(Display(Action(kind)));
  }

  lemma ActionIsKeyword(kind: Kind)
    requires IsAv(kind)
    ensures Keyword(Display(Action(kind))) == Some(Action(kind))
  {
  }

  lemma KeywordToken(s: string)
    requires Keyword(s).Some?
    ensures ExtractToken(s) == [Keyword(s).value]
  {
    hide Keyword, Separator;
  }

  lemma BraceTokens()
    ensures ExtractToken("{") == [LB] && ExtractToken("}") == [RB] && IsWord("{") && IsWord("}")
  {
    assert ExtractToken("") == [];
    assert Find("{", '{') == 0 && Find("}", '{') == 1 && Find("}", '}') == 0;
    assert "{"[..0] == "" && "{"[1..] == "" && "}"[..0] == "" && "}"[1..] == "";
  }

  predicate AllPlain(names: seq<string>) { forall i | 0 <= i < |names| :: Plain(names[i]) }

  /** The text after one space is one word further on. */
  lemma NextWord(w: string, rest: string)
    requires IsWord(w) && rest != [] && rest[0] == ' '
    ensures Words(" " + w + rest) == [w] + Words(rest)
  {
    hide Words;
    SkipSpace(w + rest);
    FirstWord(w, rest);
    assert " " + w + rest == [' '] + (w + rest);
  }

  lemma {:induction false} PermWords(perms: seq<string>)
    requires AllPlain(perms)
    ensures Words(PermText(perms)) == perms + ["}"]
  {
    if perms == [] {
      assert " }\n" == [' '] + "}\n" && "}\n" == "}" + "\n";
      SkipSpace("}\n");
      FirstWord("}", "\n");
      assert Words("\n") == [] by { assert "\n"[1..] == []; }
      assert ["}"] + [] == [] + ["}"];
    } else {
      hide Words, Plain;
      PermWords(perms[1..]);
      PlainIsWord(perms[0]);
      var rest := PermText(perms[1..]);
      assert rest[0] == ' ' by { PermTextStarts(perms[1..]); }
      NextWord(perms[0], rest);
      assert [perms[0]] + (perms[1..] + ["}"]) == perms + ["}"];
    }
  }

  lemma PermTextStarts(perms: seq<string>)
    ensures PermText(perms) != [] && PermText(perms)[0] == ' '
  {
  }

  lemma PlainIsWord(name: string)
    requires Plain(name)
    ensures IsWord(name)
  {
  }

  lemma StatementWords(action: string, src: string, tgt: string, cls: string, perms: seq<string>)
    requires IsWord(action) && IsWord(src) && IsWord(tgt) && IsWord(cls) && AllPlain(perms)
    ensures Words(StatementText(action, src, tgt, cls, perms)) == [action, src, tgt, cls, "{"] + (perms + ["}"])
  {
    hide Words, IsWord, Plain, PermText;
    var e := PermText(perms);
    PermTextStarts(perms);
    PermWords(perms);
    BraceTokens();
    var d := " " + "{" + e;
    NextWord("{", e);
    var c := " " + cls + d;
    NextWord(cls, d);
    var b := " " + tgt + c;
    NextWord(tgt, c);
    var a := " " + src + b;
    NextWord(src, b);
    FirstWord(action, a);
    hide IsWord, AllPlain;
    TextShape(action, src, tgt, cls, e);
    FiveAndMore(action, src, tgt, cls, "{", perms + ["}"]);
  }

  lemma TextShape(action: string, src: string, tgt: string, cls: string, e: string)
    ensures action + " " + src + " " + tgt + " " + cls + " {" + e
            == action + (" " + src + (" " + tgt + (" " + cls + (" " + "{" + e))))
  {
    var c := " " + cls + (" " + "{" + e);
    assert " " + tgt + " " + cls + " {" + e == " " + tgt + c;
    assert action + " " + src + " " + tgt + " " + cls + " {" + e == (action + " " + src) + (" " + tgt + " " + cls + " {" + e);
    assert (action + " " + src) + (" " + tgt + c) == action + (" " + src + (" " + tgt + c));
  }

  lemma FiveAndMore<T>(a: T, b: T, c: T, d: T, e: T, more: seq<T>)
    ensures [a] + ([b] + ([c] + ([d] + ([e] + more)))) == [a, b, c, d, e] + more
  {
  }

  function Ids(names: seq<string>): (r: seq<Token>)
    ensures |r| == |names| && forall i | 0 <= i < |r| :: r[i] == ID(names[i])
  {
    seq(|names|, i requires 0 <= i < |names| => ID(names[i]))
  }

  lemma {:induction false} TokensConcat(a: seq<string>, b: seq<string>)
    ensures TokensOf(a + b) == TokensOf(a) + TokensOf(b)
  {
    if a == [] {
      assert a + b == b;
    } else {
      assert (a + b)[1..] == a[1..] + b;
      TokensConcat(a[1..], b);
      Associative(ExtractToken(a[0]), TokensOf(a[1..]), TokensOf(b));
    }
  }

  lemma TokensOne(w: string)
    ensures TokensOf([w]) == ExtractToken(w)
  {
    hide ExtractToken;
    assert [w][1..] == [];
    assert ExtractToken(w) + TokensOf([]) == ExtractToken(w);
  }

  lemma {:induction false} PlainTokens(names: seq<string>)
    requires AllPlain(names)
    ensures TokensOf(names) == Ids(names)
  {
    hide Plain, ExtractToken;
    if names == [] {
    } else {
      PlainToken(names[0]);
      PlainTokens(names[1..]);
    }
  }

  lemma StatementTokens(kind: Kind, src: string, tgt: string, cls: string, perms: seq<string>)
    requires IsAv(kind) && Plain(src) && Plain(tgt) && Plain(cls) && AllPlain(perms)
    ensures Tokenize(StatementText(Display(Action(kind)), src, tgt, cls, perms))
            == [Action(kind), ID(src), ID(tgt), ID(cls), LB] + (Ids(perms) + [RB])
  {
    hide Words, IsWord, Plain, ExtractToken, TokensOf, Display, StatementText;
    var action := Display(Action(kind));
    ActionToken(kind);
    BraceTokens();
    PlainIsWord(src); PlainIsWord(tgt); PlainIsWord(cls);
    StatementWords(action, src, tgt, cls, perms);
    PlainToken(src); PlainToken(tgt); PlainToken(cls);
    PlainTokens(perms);
    TokensOne(action); TokensOne(src); TokensOne(tgt); TokensOne(cls); TokensOne("{"); TokensOne("}");
    assert [action, src, tgt, cls, "{"] == [action] + [src] + [tgt] + [cls] + ["{"];
    TokensConcat([action, src, tgt, cls, "{"], perms + ["}"]);
    TokensConcat([action] + [src] + [tgt] + [cls], ["{"]);
    TokensConcat([action] + [src] + [tgt], [cls]);
    TokensConcat([action] + [src], [tgt]);
    TokensConcat([action], [src]);
    TokensConcat(perms, ["}"]);
  }

  lemma {:induction false} NamesParse(names: seq<string>, done: seq<string>)
    ensures ParseNames(Ids(names) + [RB], Some(done)) == Some((done + names, []))
    decreases |names|
  {
    var tokens := Ids(names) + [RB];
    if names == [] {
      assert tokens == [RB] && tokens[1..] == [] && done + names == done;
    } else {
      assert tokens[0] == ID(names[0]) && tokens[1..] == Ids(names[1..]) + [RB];
      NamesParse(names[1..], done + [names[0]]);
      assert done + [names[0]] + names[1..] == done + names;
    }
  }

  lemma TrimKeepsStart(s: string)
    requires s != [] && !IsSpace(s[0])
    ensures Trim(s) != [] && Trim(s)[0] == s[0]
  {
    assert TrimStart(s) == s;
    TrimEndKeepsStart(s);
  }

  lemma {:induction false} TrimEndKeepsStart(s: string)
    requires s != [] && !IsSpace(s[0])
    ensures TrimEnd(s) != [] && TrimEnd(s)[0] == s[0]
  {
    if !IsSpace(s[|s| - 1]) {
    } else {
      TrimEndKeepsStart(s[..|s| - 1]);
    }
  }

  lemma TokensParse(action: Token, src: string, tgt: string, cls: string, perms: seq<string>, tokens: seq<Token>)
    requires action in {AL, DN, AA, DA}
    requires tokens == [action, ID(src), ID(tgt), ID(cls), LB] + (Ids(perms) + [RB])
    ensures ParseAv(tokens) == Some(Statement(action, [src], [tgt], [cls], perms))
  {
    hide ParseNames, Ids;
    var rest := Ids(perms) + [RB];
    assert tokens[1..] == [ID(src), ID(tgt), ID(cls), LB] + rest;
    assert tokens[1..][1..] == [ID(tgt), ID(cls), LB] + rest;
    assert tokens[1..][1..][1..] == [ID(cls), LB] + rest;
    assert tokens[1..][1..][1..][1..] == [LB] + rest;
    assert ([LB] + rest)[1..] == rest;
    NamesParse(perms, []);
    assert [] + perms == perms;
  }

  /** A printed line is read back as the statement it stands for. */
  lemma PrintedLineParses(kind: Kind, src: string, tgt: string, cls: string, perms: seq<string>)
    requires IsAv(kind) && Plain(src) && Plain(tgt) && Plain(cls) && AllPlain(perms)
    ensures ParseStatement(StatementText(Display(Action(kind)), src, tgt, cls, perms))
            == Some(Statement(Action(kind), [src], [tgt], [cls], perms))
  {
    hide Words, IsSpace, Plain, ExtractToken, TokensOf, Display, PermText, Trim, Tokenize, ParseAv;
    var text := StatementText(Display(Action(kind)), src, tgt, cls, perms);
    ActionToken(kind);
    assert text[0] == Display(Action(kind))[0];
    TrimKeepsStart(text);
    TrimmedTokens(text);
    StatementTokens(kind, src, tgt, cls, perms);
    TokensParse(Action(kind), src, tgt, cls, perms, Tokenize(text));
  }

  lemma TrimmedTokens(s: string)
    ensures Tokenize(Trim(s)) == Tokenize(s)
  {
    WordsTrim(s);
  }

  // ----- executing a printed line -----

  /** The symbol tables agree in both directions and all names are single tokens. */
  ghost predicate WellNamed(db: Database) {
    && (forall v | v in db.typeNames :: Back(db.typeNames[v], db.typeValues, v))
    && (forall v | v in db.classNames :: Back(db.classNames[v], db.classValues, v))
    && (forall c | c in db.perms :: ProperTables(db.perms[c]))
    && (forall c, b | c in db.perms && b in PermNames(db.perms[c]) :: Plain(PermNames(db.perms[c])[b]))
  }

  predicate Back(name: string, values: map<string, nat>, value: nat) {
    Plain(name) && name in values && values[name] == value
  }

  lemma ResolvesBack(db: Database, key: Key, bit: nat, invert: bool)
    requires WellNamed(db) && Nameable(db, key) && bit in PermNames(db.perms[key.cls])
    ensures Resolve(db, Names(db.typeNames[key.src], db.typeNames[key.tgt], db.classNames[key.cls],
                              PermNames(db.perms[key.cls])[bit]), key.kind, invert)
            == Some(Rule(Some(key.src), Some(key.tgt), Some(key.cls), Some(bit), key.kind, invert))
  {
    hide Keyword, Separator, FindPerm, PermNames;
    NamesInvert(db.perms[key.cls], bit);
    assert Back(db.typeNames[key.src], db.typeValues, key.src) && Back(db.typeNames[key.tgt], db.typeValues, key.tgt);
    assert Back(db.classNames[key.cls], db.classValues, key.cls);
    assert Plain(PermNames(db.perms[key.cls])[bit]);
  }

  lemma FullRule(types: seq<TypeDatum>, classes: seq<nat>, view: View, key: Key, bit: nat, invert: bool)
    ensures Effect(types, classes, view, Rule(Some(key.src), Some(key.tgt), Some(key.cls), Some(bit), key.kind, invert))
            == ApplyRule(view, key, Some(bit), invert)
  {
    hide ApplyRule, ApplyAll, KeysOf;
    OneKey(view, Rule(Some(key.src), Some(key.tgt), Some(key.cls), Some(bit), key.kind, invert), key.src, key.tgt, key.cls);
  }

  function EditBits(view: View, key: Key, bits: seq<nat>, invert: bool): View {
    if bits == [] then view
    else ApplyRule(EditBits(view, key, bits[..|bits| - 1], invert), key, Some(bits[|bits| - 1]), invert)
  }

  lemma {:induction false} RunIsEdit(db: Database, view: View, key: Key, bits: seq<nat>, invert: bool)
    requires WellNamed(db) && Nameable(db, key)
    requires forall i | 0 <= i < |bits| :: bits[i] in PermNames(db.perms[key.cls])
    ensures RunNames(db, view, ExpandPerms(db.typeNames[key.src], db.typeNames[key.tgt], db.classNames[key.cls],
                                           PermList(PermNames(db.perms[key.cls]), bits)), key.kind, invert)
            == EditBits(view, key, bits, invert)
  {
    hide WellNamed, PermNames, Resolve, Effect, ApplyRule;
    if bits == [] {
    } else {
      var last := |bits| - 1;
      var names := PermNames(db.perms[key.cls]);
      RunIsEdit(db, view, key, bits[..last], invert);
      var all := ExpandPerms(db.typeNames[key.src], db.typeNames[key.tgt], db.classNames[key.cls], PermList(names, bits));
      var init := ExpandPerms(db.typeNames[key.src], db.typeNames[key.tgt], db.classNames[key.cls],
                              PermList(names, bits[..last]));
      assert all[..last] == init;
      ResolvesBack(db, key, bits[last], invert);
      FullRule(db.types, db.classes, EditBits(view, key, bits[..last], invert), key, bits[last], invert);
    }
  }

  function BitSet(bits: seq<nat>): set<nat> { set b | b in bits }

  /** What is left of a mask that has been printed and read again. */
  function Readback(kind: Kind, bits: seq<nat>): Mask {
    if kind == AuditDeny then FULL - BitSet(bits) else BitSet(bits)
  }

  lemma {:induction false} EditBitsIs(view: View, key: Key, bits: seq<nat>)
    requires key !in view && IsAv(key.kind) && forall i | 0 <= i < |bits| :: bits[i] < 32
    ensures var mask := Readback(key.kind, bits);
            EditBits(view, key, bits, key.kind == AuditDeny) == if mask == DefaultMask(key.kind) then view else view[key := mask]
  {
    hide Readback, DefaultMask, ApplyRule;
    if bits == [] {
      ReadbackNone(key.kind);
    } else {
      var last := |bits| - 1;
      EditBitsIs(view, key, bits[..last]);
      ReadbackStep(key.kind, bits[..last], bits[last], bits);
      EditBitsStep(view, key, Readback(key.kind, bits[..last]), Readback(key.kind, bits), bits[last]);
    }
  }

  lemma ReadbackNone(kind: Kind)
    ensures Readback(kind, []) == DefaultMask(kind)
  {
    assert BitSet([]) == {};
  }

  lemma ReadbackStep(kind: Kind, init: seq<nat>, bit: nat, bits: seq<nat>)
    requires bits == init + [bit]
    ensures var before, after := Readback(kind, init), Readback(kind, bits);
            after == if kind == AuditDeny then before - {bit} else before + {bit}
  {
    assert BitSet(bits) == BitSet(init) + {bit};
    hide BitSet;
  }

  lemma EditBitsStep(view: View, key: Key, mask: Mask, mask': Mask, bit: nat)
    requires key !in view && mask' == if key.kind == AuditDeny then mask - {bit} else mask + {bit}
    ensures var before := if mask == DefaultMask(key.kind) then view else view[key := mask];
            ApplyRule(before, key, Some(bit), key.kind == AuditDeny)
            == if mask' == DefaultMask(key.kind) then view else view[key := mask']
  {
    hide DefaultMask;
    var before := if mask == DefaultMask(key.kind) then view else view[key := mask];
    assert ValueOf(before, key) == mask;
    assert view - {key} == view && view[key := mask] - {key} == view;
  }

  lemma SingleExpand(s: string, t: string, c: string, perms: seq<string>, action: Token)
    requires perms != []
    ensures Expand(Statement(action, [s], [t], [c], perms)) == ExpandPerms(s, t, c, perms)
  {
    assert [s][1..] == [] && [t][1..] == [] && [c][1..] == [];
    assert ExpandClasses(s, t, [c], perms) == ExpandPerms(s, t, c, perms) + ExpandClasses(s, t, [], perms);
    assert ExpandTargets(s, [t], [c], perms) == ExpandClasses(s, t, [c], perms) + ExpandTargets(s, [], [c], perms);
    assert ExpandSources([s], [t], [c], perms) == ExpandTargets(s, [t], [c], perms) + ExpandSources([], [t], [c], perms);
  }

  /** The mask a printed entry is read back as; an entry that cannot be printed is not read back at all. */
  function EntryReadback(db: Database, key: Key, mask: Mask): Mask {
    if Nameable(db, key) then Readback(key.kind, PrintedBits(db, key, mask)) else DefaultMask(key.kind)
  }

  /** Loading a printed entry into a table without that key. */
  lemma EntryLoads(db: Database, view: View, key: Key, mask: Mask)
    requires WellNamed(db) && IsAv(key.kind) && key !in view
    ensures LoadLine(db, view, PrintEntry(db, key, mask)) == Put(view, key, EntryReadback(db, key, mask))
  {
    hide WellNamed, Plain, PermNames, RunNames, DefaultMask, StatementText, Display, PrintedBits, Expand, ParseStatement;
    assert view - {key} == view;
    if !Nameable(db, key) {
      EmptyLine();
    } else {
      var bits := PrintedBits(db, key, mask);
      PrintedBitsAreSmall(db, key, mask);
      EditBitsIs(view, key, bits);
      if bits == [] {
        EmptyLine();
      } else {
        var names := PermNames(db.perms[key.cls]);
        var src, tgt, cls := db.typeNames[key.src], db.typeNames[key.tgt], db.classNames[key.cls];
        var perms := PermList(names, bits);
        NamesArePlain(db, key, bits);
        PrintedLineParses(key.kind, src, tgt, cls, perms);
        SingleExpand(src, tgt, cls, perms, Action(key.kind));
        RunIsEdit(db, view, key, bits, key.kind == AuditDeny);
      }
    }
  }

  lemma EmptyLine()
    ensures ParseStatement("") == None
  {
  }

  lemma PrintedBitsAreSmall(db: Database, key: Key, mask: Mask)
    requires Nameable(db, key)
    ensures forall i | 0 <= i < |PrintedBits(db, key, mask)| :: PrintedBits(db, key, mask)[i] < 32
  {
    var bits := PrintedBits(db, key, mask);
    forall i | 0 <= i < |bits| ensures bits[i] < 32 { assert bits[i] in bits; }
  }

  lemma NamesArePlain(db: Database, key: Key, bits: seq<nat>)
    requires WellNamed(db) && Nameable(db, key)
    requires forall i | 0 <= i < |bits| :: bits[i] in PermNames(db.perms[key.cls])
    ensures Plain(db.typeNames[key.src]) && Plain(db.typeNames[key.tgt]) && Plain(db.classNames[key.cls])
    ensures AllPlain(PermList(PermNames(db.perms[key.cls]), bits))
  {
    hide Plain, PermNames;
    assert Back(db.typeNames[key.src], db.typeValues, key.src) && Back(db.typeNames[key.tgt], db.typeValues, key.tgt);
    assert Back(db.classNames[key.cls], db.classValues, key.cls);
  }
}
