/** Policy statements as text: words, tokens and the parser of access vector rules. */
module PolicyText {
  import opened Common

  datatype Token =
    | AL | DN | AA | DA | AX | AY | DX | PM | EF | TA | TY | AT | TT | TC | TM | GF
    | LB | RB | CM | ST | TL | HP | HX(value: nat) | ID(name: string)

  // ----- words -----

  /** Unicode white space. */
  predicate IsSpace(c: char) {
    var x := c as int;
    || 9 <= x <= 13 || x == 0x20 || x == 0x85 || x == 0xA0 || x == 0x1680 || 0x2000 <= x <= 0x200A
    || x == 0x2028 || x == 0x2029 || x == 0x202F || x == 0x205F || x == 0x3000
  }

  function WordLength(s: string): (n: nat)
    ensures n <= |s| && (forall i | 0 <= i < n :: !IsSpace(s[i])) && (n < |s| ==> IsSpace(s[n]))
  {
    if s == [] || IsSpace(s[0]) then 0 else 1 + WordLength(s[1..])
  }

  /** `split_whitespace` */
  function Words(s: string): seq<string>
    decreases |s|
  {
    if s == [] then []
    else if IsSpace(s[0]) then Words(s[1..])
    else
      var n := WordLength(s);
      [s[..n]] + Words(s[n..])
  }

  predicate IsWord(w: string) { w != [] && forall i | 0 <= i < |w| :: !IsSpace(w[i]) }

  lemma {:induction false} WordLengthIs(w: string, rest: string)
    requires (forall i | 0 <= i < |w| :: !IsSpace(w[i])) && (rest != [] ==> IsSpace(rest[0]))
    ensures WordLength(w + rest) == |w|
    decreases |w|
  {
    if w == [] {
      assert w + rest == rest;
    } else {
      assert (w + rest)[1..] == w[1..] + rest;
      WordLengthIs(w[1..], rest);
    }
  }

  /** A word followed by a space or the end is the first word. */
  lemma FirstWord(w: string, rest: string)
    requires IsWord(w) && (rest != [] ==> IsSpace(rest[0]))
    ensures Words(w + rest) == [w] + Words(rest)
  {
    WordLengthIs(w, rest);
    assert (w + rest)[0] == w[0] && (w + rest)[..|w|] == w && (w + rest)[|w|..] == rest;
  }

  lemma SkipSpace(s: string)
    ensures Words([' '] + s) == Words(s)
  {
    assert ([' '] + s)[1..] == s;
  }

  function TrimStart(s: string): string {
    if s != [] && IsSpace(s[0]) then TrimStart(s[1..]) else s
  }

  function TrimEnd(s: string): string {
    if s != [] && IsSpace(s[|s| - 1]) then TrimEnd(s[..|s| - 1]) else s
  }

  function Trim(s: string): string { TrimEnd(TrimStart(s)) }

  lemma {:induction false} WordsTrimStart(s: string)
    ensures Words(TrimStart(s)) == Words(s)
  {
    if s == [] || !IsSpace(s[0]) {
    } else {
      WordsTrimStart(s[1..]);
    }
  }

  lemma {:induction false} WordsLastSpace(s: string, c: char)
    requires IsSpace(c)
    ensures Words(s + [c]) == Words(s)
    decreases |s|
  {
    var t := s + [c];
    if s == [] {
      assert t[1..] == [];
    } else if IsSpace(s[0]) {
      assert t[1..] == s[1..] + [c];
      WordsLastSpace(s[1..], c);
    } else {
      var n := WordLength(s);
      assert s == s[..n] + s[n..];
      assert t == s[..n] + (s[n..] + [c]);
      FirstWord(s[..n], s[n..] + [c]);
      WordsLastSpace(s[n..], c);
    }
  }

  lemma {:induction false} WordsTrimEnd(s: string)
    ensures Words(TrimEnd(s)) == Words(s)
  {
    if s == [] || !IsSpace(s[|s| - 1]) {
    } else {
      var init := s[..|s| - 1];
      assert s == init + [s[|s| - 1]];
      WordsLastSpace(init, s[|s| - 1]);
      WordsTrimEnd(init);
    }
  }

  /** Trimming changes no word. */
  lemma WordsTrim(s: string)
    ensures Words(Trim(s)) == Words(s)
  {
    WordsTrimStart(s);
    WordsTrimEnd(TrimStart(s));
  }

  // ----- tokens -----

  function Keyword(s: string): Option<Token> {
    match s
    case "allow" => Some(AL)
    case "deny" => Some(DN)
    case "auditallow" => Some(AA)
    case "dontaudit" => Some(DA)
    case "allowxperm" => Some(AX)
    case "auditallowxperm" => Some(AY)
    case "dontauditxperm" => Some(DX)
    case "permissive" => Some(PM)
    case "enforce" => Some(EF)
    case "typeattribute" => Some(TA)
    case "type" => Some(TY)
    case "attribute" => Some(AT)
    case "type_transition" => Some(TT)
    case "type_change" => Some(TC)
    case "type_member" => Some(TM)
    case "genfscon" => Some(GF)
    case "*" => Some(ST)
    case _ => None
  }

  /** `Display` of a token. */
  function Display(t: Token): string {
    match t
    case AL => "allow"
    case DN => "deny"
    case AA => "auditallow"
    case DA => "dontaudit"
    case AX => "allowxperm"
    case AY => "auditallowxperm"
    case DX => "dontauditxperm"
    case PM => "permissive"
    case EF => "enforce"
    case TA => "typeattribute"
    case TY => "type"
    case AT => "attribute"
    case TT => "type_transition"
    case TC => "type_change"
    case TM => "type_member"
    case GF => "genfscon"
    case LB => "{"
    case RB => "}"
    case CM => ","
    case ST => "*"
    case TL => "~"
    case HP => "-"
    case HX(value) => Hex(value, 6)
    case ID(name) => name
  }

  /** Upper-case hexadecimal with at least the given number of digits. */
  function Hex(value: nat, width: nat): string
    decreases value, width
  {
    if value == 0 && width == 0 then ""
    else Hex(value / 16, if width == 0 then 0 else width - 1) + ["0123456789ABCDEF"[value % 16]]
  }

  lemma KeywordDisplays(s: string)
    requires Keyword(s).Some?
    ensures Display(Keyword(s).value) == s && !Keyword(s).value.HX?
  {
    hide Hex;
  }

  /** The position of a character, or the length. */
  function Find(s: string, c: char): (i: nat)
    ensures i <= |s| && (i < |s| ==> s[i] == c) && (forall j | 0 <= j < i :: s[j] != c)
  {
    if s == [] || s[0] == c then 0 else 1 + Find(s[1..], c)
  }

  predicate AllDigits(s: string) { forall i | 0 <= i < |s| :: '0' <= s[i] <= '9' }

  function Decimal(s: string): nat
    requires AllDigits(s)
  {
    if s == [] then 0 else Decimal(s[..|s| - 1]) * 10 + (s[|s| - 1] as int - '0' as int)
  }

  /** `str::parse::<u16>`: decimal digits with an optional plus sign. */
  function ParseU16(s: string): Option<nat> {
    var digits := if s != [] && s[0] == '+' then s[1..] else s;
    if digits == [] || !AllDigits(digits) || Decimal(digits) > 0xFFFF then None else Some(Decimal(digits))
  }

  /** The first separator of a word and the token it gives: braces come before commas, commas before dashes. */
  function Separator(s: string): (r: Option<(nat, Token)>)
    ensures r.Some? ==> r.value.0 < |s|
  {
    if Find(s, '{') < |s| then Some((Find(s, '{'), LB))
    else if Find(s, '}') < |s| then Some((Find(s, '}'), RB))
    else if Find(s, ',') < |s| then Some((Find(s, ','), CM))
    else if Find(s, '-') < |s| then Some((Find(s, '-'), HP))
    else None
  }

  /** `extract_token`: the tokens of one word. */
  function ExtractToken(s: string): seq<Token>
    decreases |s|
  {
    if Keyword(s).Some? then [Keyword(s).value]
    else if s == [] then []
    else if Separator(s).Some? then
      var i := Separator(s).value.0;
      ExtractToken(s[..i]) + [Separator(s).value.1] + ExtractToken(s[i + 1..])
    else if s[0] == '~' then [TL] + ExtractToken(s[1..])
    else if "0x" <= s then [HX(match ParseU16(s[2..]) case Some(v) => v case None => 0)]
    else [ID(s)]
  }

  function Shown(tokens: seq<Token>): string {
    if tokens == [] then [] else Display(tokens[0]) + Shown(tokens[1..])
  }

  lemma {:induction false} ShownConcat(a: seq<Token>, b: seq<Token>)
    ensures Shown(a + b) == Shown(a) + Shown(b)
  {
    hide Display;
    if a == [] {
      assert a + b == b;
    } else {
      ShownConcat(a[1..], b);
      assert (a + b)[1..] == a[1..] + b;
      Associative(Display(a[0]), Shown(a[1..]), Shown(b));
    }
  }

  lemma ShownOne(t: Token)
    ensures Shown([t]) == Display(t)
  {
    hide Display;
    assert [t][1..] == [];
    assert Display(t) + Shown([]) == Display(t);
  }

  predicate NoHex(tokens: seq<Token>) { forall i | 0 <= i < |tokens| :: !tokens[i].HX? }

  lemma ShownSplit(s: string, i: nat, t: Token, a: seq<Token>, b: seq<Token>)
    requires i < |s| && Display(t) == [s[i]] && Shown(a) == s[..i] && Shown(b) == s[i + 1..]
    ensures Shown(a + [t] + b) == s
  {
    hide Display, Shown;
    ShownConcat(a + [t], b);
    ShownConcat(a, [t]);
    ShownOne(t);
    assert s == s[..i] + [s[i]] + s[i + 1..];
  }

  lemma SeparatorDisplays(s: string)
    requires Separator(s).Some?
    ensures Separator(s).value.0 < |s| && Display(Separator(s).value.1) == [s[Separator(s).value.0]]
  {
    hide Find;
  }

  /** The tokenizer loses nothing: shown again, the tokens of a word are the word, unless one is hexadecimal. */
  lemma {:induction false} TokenizerIsLossless(s: string)
    requires NoHex(ExtractToken(s))
    ensures Shown(ExtractToken(s)) == s
    decreases |s|
  {
    hide Display, Keyword, Find, Shown, Separator;
    if Keyword(s).Some? {
      KeywordDisplays(s);
      ShownOne(Keyword(s).value);
    } else if s == [] {
      assert Shown([]) == [] by { ShownNone(); }
    } else if Separator(s).Some? {
      var i, t := Separator(s).value.0, Separator(s).value.1;
      var a, b := ExtractToken(s[..i]), ExtractToken(s[i + 1..]);
      SeparatorDisplays(s);
      assert forall j | 0 <= j < |a| :: ExtractToken(s)[j] == a[j];
      assert forall j | 0 <= j < |b| :: ExtractToken(s)[|a| + 1 + j] == b[j];
      TokenizerIsLossless(s[..i]);
      TokenizerIsLossless(s[i + 1..]);
      ShownSplit(s, i, t, a, b);
    } else if s[0] == '~' {
      var b := ExtractToken(s[1..]);
      assert forall j | 0 <= j < |b| :: ExtractToken(s)[1 + j] == b[j];
      TokenizerIsLossless(s[1..]);
      TildeShown(s, b);
    } else {
      assert ExtractToken(s)[0] == ExtractToken(s)[0];
      ShownOne(ID(s));
      IdShown(s);
    }
  }

  lemma ShownNone() ensures Shown([]) == [] {}

  lemma IdShown(s: string) ensures Display(ID(s)) == s {}

  lemma TildeShown(s: string, b: seq<Token>)
    requires s != [] && s[0] == '~' && Shown(b) == s[1..]
    ensures Shown([TL] + b) == s
  {
    assert ([TL] + b)[1..] == b;
    assert s == [s[0]] + s[1..];
  }

  /** `tokenize_statement` */
  function TokensOf(words: seq<string>): seq<Token> {
    if words == [] then [] else ExtractToken(words[0]) + TokensOf(words[1..])
  }

  function Tokenize(statement: string): seq<Token> { TokensOf(Words(statement)) }

  // ----- parsing -----

  /** The loop of `parse_sterm` inside braces; a star makes the list a wildcard. */
  function ParseNames(tokens: seq<Token>, names: Option<seq<string>>): Option<(seq<string>, seq<Token>)> {
    if tokens == [] then None
    else match tokens[0]
      case ID(name) => ParseNames(tokens[1..], match names case Some(v) => Some(v + [name]) case None => None)
      case ST => ParseNames(tokens[1..], None)
      case RB => Some((match names case Some(v) => v case None => [], tokens[1..]))
      case _ => None
  }

  /** `parse_sterm`: a name, a list of names, or everything. */
  function ParseSterm(tokens: seq<Token>): Option<(seq<string>, seq<Token>)> {
    if tokens == [] then None
    else match tokens[0]
      case ID(name) => Some(([name], tokens[1..]))
      case ST => Some(([], tokens[1..]))
      case LB => ParseNames(tokens[1..], Some([]))
      case _ => None
  }

  /** An access vector statement: empty lists stand for everything. */
  datatype Statement = Statement(action: Token, src: seq<string>, tgt: seq<string>, cls: seq<string>, perm: seq<string>)

  /** The access vector branch of `exec_statement`. */
  function ParseAv(tokens: seq<Token>): Option<Statement> {
    if tokens == [] || tokens[0] !in {AL, DN, AA, DA} then None
    else match ParseSterm(tokens[1..])
      case None => None
      case Some((s, rest)) => match ParseSterm(rest)
        case None => None
        case Some((t, rest)) => match ParseSterm(rest)
          case None => None
          case Some((c, rest)) => match ParseSterm(rest)
            case None => None
            case Some((p, rest)) => if rest == [] then Some(Statement(tokens[0], s, t, c, p)) else None
  }

  /** `parse_statement`, as far as access vector rules go. */
  function ParseStatement(line: string): Option<Statement> {
    var statement := Trim(line);
    if statement == [] || statement[0] == '#' then None else ParseAv(Tokenize(statement))
  }
}
