/** The parser of ioctl permission sets, and what its forms cover. */
module XpermText {
  import opened Common
  import opened PolicyText
  import opened XpermRules

  /** `parse_xperm`: a value, or two values around a dash. */
  function ParseXperm(tokens: seq<Token>): (r: Option<(Xperm, seq<Token>)>)
    ensures r.Some? ==> |r.value.1| < |tokens|
  {
    if tokens == [] || !tokens[0].HX? then None
    else
      var low := tokens[0].value;
      if |tokens| > 1 && tokens[1] == HP then
        if |tokens| > 2 && tokens[2].HX? then Some((Xperm(low, tokens[2].value, false), tokens[3..])) else None
      else Some((Xperm(low, low, false), tokens[1..]))
  }

  /** The loop inside braces: at least one entry, then entries until a closing brace. */
  function ParseList(tokens: seq<Token>, reset: bool): Option<(seq<Xperm>, seq<Token>)>
    decreases |tokens|
  {
    match ParseXperm(tokens)
    case None => None
    case Some((p, rest)) =>
      if rest != [] && rest[0] == RB then Some(([p.(reset := reset)], rest[1..]))
      else match ParseList(rest, reset)
        case None => None
        case Some((ps, end)) => Some(([p.(reset := reset)] + ps, end))
  }

  /** `parse_xperms` */
  function ParseXperms(tokens: seq<Token>): Option<(seq<Xperm>, seq<Token>)> {
    var reset := tokens != [] && tokens[0] == TL;
    if reset && !(|tokens| > 1 && tokens[1] == LB) then None
    else
      var tokens := if reset then tokens[1..] else tokens;
      if tokens == [] then None
      else match tokens[0]
        case LB => ParseList(tokens[1..], reset)
        case ST => Some(([Xperm(0, 0xFFFF, reset)], tokens[1..]))
        case HX(low) => Some(([if low > 0 then Xperm(low, low, reset) else Xperm(0, 0xFFFF, reset)], tokens[1..]))
        case _ => None
  }

  // ----- lists are read back -----

  function RangeTokens(ps: seq<Xperm>): seq<Token> {
    if ps == [] then [] else [HX(ps[0].low), HP, HX(ps[0].high)] + RangeTokens(ps[1..])
  }

  lemma RangeParses(low: nat, high: nat, more: seq<Token>)
    ensures ParseXperm([HX(low), HP, HX(high)] + more) == Some((Xperm(low, high, false), more))
  {
    assert ([HX(low), HP, HX(high)] + more)[3..] == more;
  }

  lemma {:induction false} ListParses(ps: seq<Xperm>, reset: bool, rest: seq<Token>)
    requires |ps| > 0 && forall i | 0 <= i < |ps| :: ps[i].reset == reset
    ensures ParseList(RangeTokens(ps) + [RB] + rest, reset) == Some((ps, rest))
    decreases |ps|
  {
    hide ParseXperm;
    var p, more := ps[0], RangeTokens(ps[1..]) + [RB] + rest;
    var tokens := RangeTokens(ps) + [RB] + rest;
    assert tokens == [HX(p.low), HP, HX(p.high)] + more;
    RangeParses(p.low, p.high, more);
    if |ps| == 1 {
      assert RangeTokens(ps[1..]) == [] && more == [RB] + rest && more[1..] == rest && ps == [p];
    } else {
      assert more[0].HX?;
      ListParses(ps[1..], reset, rest);
      assert [p] + ps[1..] == ps;
    }
  }

  /** A braced list of ranges is read back as written, as a complement exactly behind a tilde. */
  lemma {:induction false} RangesReadBack(ps: seq<Xperm>, reset: bool)
    requires |ps| > 0 && forall i | 0 <= i < |ps| :: ps[i].reset == reset
    ensures ParseXperms((if reset then [TL] else []) + [LB] + RangeTokens(ps) + [RB]) == Some((ps, []))
  {
    hide ParseList, RangeTokens;
    var list := RangeTokens(ps) + [RB];
    var tokens := (if reset then [TL] else []) + [LB] + RangeTokens(ps) + [RB];
    assert list == RangeTokens(ps) + [RB] + [];
    ListParses(ps, reset, []);
    if reset {
      assert tokens == [TL, LB] + list && tokens[1..] == [LB] + list && tokens[1..][1..] == list;
    } else {
      assert tokens == [LB] + list && tokens[1..] == list;
    }
  }

  // ----- single values -----

  /** A single value adds that command; zero adds all commands. It never removes one. */
  lemma SingleValue(value: nat, before: bool, x: nat)
    requires value < COMMANDS && x < COMMANDS
    ensures var r := ParseXperms([HX(value)]);
            && r.Some? && r.value.1 == [] && |r.value.0| == 1 && IsXperm(r.value.0[0])
            && (RunXperms(before, r.value.0, x) <==> before || value == 0 || x == value)
  {
    assert [HX(value)][1..] == [];
    var p := ParseXperms([HX(value)]).value.0[0];
    assert [p][..0] == [] && RunXperms(before, [], x) == before;
    assert value > 0 ==> (InRange(p, x) <==> x == value);
  }

  /** The help text says that zero clears all rules; every command is covered after it instead. */
  lemma ZeroDoesNotClear(x: nat)
    requires x < COMMANDS
    ensures RunXperms(false, [Xperm(0, 0xFFFF, false)], x) && ParseXperms([HX(0)]) == Some(([Xperm(0, 0xFFFF, false)], []))
  {
    SingleValue(0, false, x);
  }

  /** A star adds all commands. */
  lemma StarCoversAll(before: bool, x: nat)
    requires x < COMMANDS
    ensures ParseXperms([ST]) == Some(([Xperm(0, 0xFFFF, false)], []))
    ensures RunXperms(before, [Xperm(0, 0xFFFF, false)], x)
  {
    assert [ST][1..] == [];
    var p := Xperm(0, 0xFFFF, false);
    assert [p][..0] == [] && RunXperms(before, [], x) == before;
  }

  // ----- the example of the help text -----

  predicate NoSeparator(s: string) { forall i | 0 <= i < |s| :: s[i] !in {'{', '}', ',', '-'} }

  /** A number is read as decimal although it is written with `0x`, and as zero if it has other digits. */
  lemma HexWord(digits: string)
    requires NoSeparator(digits)
    ensures ExtractToken("0x" + digits) == [HX(match ParseU16(digits) case Some(v) => v case None => 0)]
  {
    var s := "0x" + digits;
    assert s[0] == '0' && s[2..] == digits && "0x" <= s;
    assert Separator(s).None? by {
      assert forall i | 2 <= i < |s| :: s[i] == digits[i - 2];
      NoneFound(s);
    }
    assert Keyword(s).None? by { NoKeyword(s); }
    hide ParseU16, Separator, Keyword;
  }

  lemma NoneFound(s: string)
    requires NoSeparator(s)
    ensures Separator(s).None?
  {
    hide Find;
  }

  lemma NoKeyword(s: string)
    requires s != [] && s[0] == '0'
    ensures Keyword(s).None?
  {
  }

  lemma TildeBrace()
    ensures ExtractToken("~{") == [TL, LB] && ExtractToken("}") == [RB]
  {
    var s := "~{";
    assert Find(s, '{') == 1 && s[..1] == "~" && s[2..] == [];
    assert ExtractToken([]) == [];
    assert "~"[1..] == [] && Separator("~").None?;
    assert ExtractToken("~") == [TL] + [];
    assert Find("}", '}') == 0 && "}"[..0] == [] && "}"[1..] == [];
  }

  lemma NumbersOfExample()
    ensures ParseU16("8910") == Some(8910) && ParseU16("892A").None?
  {
    var s := "8910";
    assert s[..3] == "891" && s[..3][..2] == "89" && s[..3][..2][..1] == "8" && s[..3][..2][..1][..0] == [];
    assert Decimal(s[..3][..2][..1]) == 8;
    assert Decimal(s[..3][..2]) == 89;
    assert Decimal(s[..3]) == 891;
    assert "892A"[3] == 'A';
  }

  lemma WordsOfExample()
    ensures Words("~{ 0x8910 0x892A }") == ["~{", "0x8910", "0x892A", "}"]
  {
    hide IsSpace, Words;
    SpacesOfExample();
    assert "~{ 0x8910 0x892A }" == "~{" + ([' '] + ("0x8910" + ([' '] + ("0x892A" + ([' '] + ("}" + []))))));
    FirstWord("}", []);
    SkipSpace("}" + []);
    FirstWord("0x892A", [' '] + ("}" + []));
    SkipSpace("0x892A" + ([' '] + ("}" + [])));
    FirstWord("0x8910", [' '] + ("0x892A" + ([' '] + ("}" + []))));
    SkipSpace("0x8910" + ([' '] + ("0x892A" + ([' '] + ("}" + [])))));
    FirstWord("~{", [' '] + ("0x8910" + ([' '] + ("0x892A" + ([' '] + ("}" + []))))));
    NoWords();
  }

  lemma NoWords() ensures Words([]) == [] {}

  lemma SpacesOfExample()
    ensures IsSpace(' ') && IsWord("~{") && IsWord("0x8910") && IsWord("0x892A") && IsWord("}")
  {
  }

  /** The complement of two commands, as the help text writes it, covers both of them and all others but zero. */
  lemma HelpTextComplement(before: bool, x: nat)
    requires x < COMMANDS
    ensures var ps := [Xperm(8910, 8910, true), Xperm(0, 0, true)];
            && ParseXperms(Tokenize("~{ 0x8910 0x892A }")) == Some((ps, []))
            && (RunXperms(before, ps, x) <==> x != 0)
  {
    hide Tokenize, ParseXperms, RunXperms;
    TokensOfExample();
    ExampleParses();
    LastComplementWins(before, [Xperm(8910, 8910, true), Xperm(0, 0, true)], x);
  }

  lemma ExampleParses()
    ensures ParseXperms([TL, LB, HX(8910), HX(0), RB]) == Some(([Xperm(8910, 8910, true), Xperm(0, 0, true)], []))
  {
    hide ParseList;
    var tokens := [TL, LB, HX(8910), HX(0), RB];
    assert tokens[1..] == [LB, HX(8910), HX(0), RB] && tokens[1..][1..] == [HX(8910), HX(0), RB];
    ExampleListParses();
  }

  lemma ExampleListParses()
    ensures ParseList([HX(8910), HX(0), RB], true) == Some(([Xperm(8910, 8910, true), Xperm(0, 0, true)], []))
  {
    hide ParseXperm;
    OneValueParses(8910, [HX(0), RB]);
    OneValueParses(0, [RB]);
    assert [RB][1..] == [] && [HX(8910)] + [HX(0), RB] == [HX(8910), HX(0), RB] && [HX(0)] + [RB] == [HX(0), RB];
    assert ParseList([HX(0), RB], true) == Some(([Xperm(0, 0, true)], []));
    assert [Xperm(8910, 8910, true)] + [Xperm(0, 0, true)] == [Xperm(8910, 8910, true), Xperm(0, 0, true)];
  }

  lemma OneValueParses(value: nat, more: seq<Token>)
    requires more != [] && more[0] != HP
    ensures ParseXperm([HX(value)] + more) == Some((Xperm(value, value, false), more))
  {
    assert ([HX(value)] + more)[1..] == more;
  }

  lemma TokensOfExample()
    ensures Tokenize("~{ 0x8910 0x892A }") == [TL, LB, HX(8910), HX(0), RB]
  {
    hide Words, ExtractToken, ParseU16;
    WordsOfExample();
    TildeBrace();
    HexWord("8910");
    HexWord("892A");
    NumbersOfExample();
    assert "0x" + "8910" == "0x8910" && "0x" + "892A" == "0x892A";
    var words := ["~{", "0x8910", "0x892A", "}"];
    assert words[1..] == ["0x8910", "0x892A", "}"] && words[1..][1..] == ["0x892A", "}"] && words[1..][1..][1..] == ["}"];
    assert TokensOf(words[1..][1..][1..]) == [RB] + TokensOf([]);
    assert TokensOf(words[1..][1..]) == [HX(0)] + [RB];
    assert TokensOf(words[1..]) == [HX(8910)] + [HX(0), RB];
  }
}
