/** Key-value strings: the kernel command line, the boot configuration and the partition map. */
module Cmdline {
  import opened Common

  /** The characters of one instance of the parser. */
  datatype Format = Format(delim: char, eq: char, padding: set<char>) {
    predicate Valid() {
      && delim != eq && delim !in padding && eq !in padding
      && delim != '"' && eq != '"' && '"' !in padding
    }

    function Skipped(): set<char> { padding + {eq} }
    function KeyEnds(): set<char> { padding + {delim} }
  }

  const CMDLINE := Format(' ', '=', {})
  const BOOTCONFIG := Format('\n', '=', {' '})
  const PARTITION_MAP := Format(';', ',', {})

  // ----- what the scanners compute -----

  datatype Piece = Piece(text: string, rest: string, quoted: bool)

  /** Characters up to a break, or an escape outside quotes; quotes are dropped and switch the mode. */
  function Extract(s: string, quoted: bool, escapes: set<char>, breaks: set<char>): (r: Piece)
    ensures |r.rest| <= |s|
  {
    if s == [] || s[0] in breaks || (!quoted && s[0] in escapes) then Piece([], s, quoted)
    else if s[0] == '"' then Extract(s[1..], !quoted, escapes, breaks)
    else
      var r := Extract(s[1..], quoted, escapes, breaks);
      r.(text := [s[0]] + r.text)
  }

  function SkipAll(s: string, chars: set<char>): (r: string)
    ensures |r| <= |s| && (r != [] ==> r[0] !in chars)
    ensures s != [] && s[0] in chars ==> |r| < |s|
  {
    if s != [] && s[0] in chars then SkipAll(s[1..], chars) else s
  }

  datatype Pair = Pair(key: string, value: string)

  /** One turn of the parser on a non-empty rest: a pair and what is left. */
  function ParseOne(f: Format, s: string, quoted: bool): (Pair, string, bool) {
    var key := Extract(s, quoted, f.KeyEnds(), {f.eq});
    var rest := SkipAll(key.rest, f.Skipped());
    if rest == [] || rest[0] == f.delim then (Pair(key.text, []), SkipAll(rest, {f.delim}), key.quoted)
    else
      var value := Extract(rest, key.quoted, {f.delim}, {});
      (Pair(key.text, value.text), SkipAll(value.rest, {f.delim}), value.quoted)
  }

  lemma ExtractMoves(s: string, quoted: bool, escapes: set<char>, breaks: set<char>)
    requires s != [] && s[0] !in breaks && (quoted || s[0] !in escapes)
    ensures |Extract(s, quoted, escapes, breaks).rest| < |s|
  {
  }

  /** Every turn gets further. */
  lemma ParseOneMoves(f: Format, s: string, quoted: bool)
    requires f.Valid() && s != []
    ensures |ParseOne(f, s, quoted).1| < |s|
  {
    hide Extract, SkipAll;
    var key := Extract(s, quoted, f.KeyEnds(), {f.eq});
    if (s[0] in f.KeyEnds() && !quoted) || s[0] == f.eq {
      assert key.rest == s by { ExtractStays(s, quoted, f.KeyEnds(), {f.eq}); }
    } else {
      ExtractMoves(s, quoted, f.KeyEnds(), {f.eq});
    }
    var rest := SkipAll(key.rest, f.Skipped());
    if rest == s { assert s[0] == f.delim; }
    assert |rest| == |s| ==> rest == s by { SkipAllSame(key.rest, f.Skipped()); }
  }

  lemma ExtractStays(s: string, quoted: bool, escapes: set<char>, breaks: set<char>)
    requires s != [] && (s[0] in breaks || (!quoted && s[0] in escapes))
    ensures Extract(s, quoted, escapes, breaks).rest == s
  {
  }

  lemma SkipAllSame(s: string, chars: set<char>)
    ensures |SkipAll(s, chars)| == |s| ==> SkipAll(s, chars) == s
  {
  }

  /** All pairs of a string. */
  function Parse(f: Format, s: string, quoted: bool): seq<Pair>
    requires f.Valid()
    decreases |s|
  {
    if s == [] then []
    else
      ParseOneMoves(f, s, quoted);
      var (pair, rest, quoted') := ParseOne(f, s, quoted);
      [pair] + Parse(f, rest, quoted')
  }

  // ----- the loops -----

  /** `string_view::find_first_of`, the length standing for `npos`. */
  method FindFirstOf(s: string, chars: set<char>, from: nat) returns (i: nat)
    requires from <= |s|
    ensures from <= i <= |s| && (forall j | from <= j < i :: s[j] !in chars) && (i < |s| ==> s[i] in chars)
  {
    i := from;
    while i < |s| && s[i] !in chars
      invariant from <= i <= |s| && forall j | from <= j < i :: s[j] !in chars
    {
      i := i + 1;
    }
  }

  /** `string_view::find_first_not_of` */
  method FindFirstNotOf(s: string, chars: set<char>, from: nat) returns (i: nat)
    requires from <= |s|
    ensures from <= i <= |s| && s[i..] == SkipAll(s[from..], chars)
  {
    i := from;
    while i < |s| && s[i] in chars
      invariant from <= i <= |s| && SkipAll(s[i..], chars) == SkipAll(s[from..], chars)
    {
      assert s[i..][1..] == s[i + 1..];
      i := i + 1;
    }
  }

  predicate Ordinary(c: char, quoted: bool, escapes: set<char>, breaks: set<char>) {
    c !in breaks && c != '"' && (quoted || c !in escapes)
  }

  predicate AllOrdinary(s: string, quoted: bool, escapes: set<char>, breaks: set<char>) {
    forall i | 0 <= i < |s| :: Ordinary(s[i], quoted, escapes, breaks)
  }

  function Prepend(text: string, r: Piece): Piece { r.(text := text + r.text) }

  /** A stretch of ordinary characters is copied as it is. */
  lemma {:induction false} ExtractRun(plain: string, s: string, quoted: bool, escapes: set<char>, breaks: set<char>)
    requires AllOrdinary(plain, quoted, escapes, breaks)
    ensures Extract(plain + s, quoted, escapes, breaks) == Prepend(plain, Extract(s, quoted, escapes, breaks))
    decreases |plain|
  {
    var r := Extract(s, quoted, escapes, breaks);
    if plain == [] {
      assert plain + s == s && [] + r.text == r.text;
    } else {
      ExtractRun(plain[1..], s, quoted, escapes, breaks);
      assert (plain + s)[1..] == plain[1..] + s && (plain + s)[0] == plain[0];
      assert Ordinary(plain[0], quoted, escapes, breaks);
      assert plain + r.text == [plain[0]] + (plain[1..] + r.text);
    }
  }

  /** `extract_quoted_str_until`: stretches between special characters are appended at once. */
  method ExtractUntil(s: string, start: nat, quoted0: bool, escapes: set<char>, breaks: set<char>)
    returns (result: string, pos: nat, quoted: bool)
    requires start <= |s|
    ensures start <= pos <= |s| && Piece(result, s[pos..], quoted) == Extract(s[start..], quoted0, escapes, breaks)
  {
    hide Extract;
    result, pos, quoted := [], start, quoted0;
    var cur := start;
    assert Prepend([], Extract(s[start..], quoted0, escapes, breaks)) == Extract(s[start..], quoted0, escapes, breaks);
    while true
      invariant start <= pos <= cur <= |s|
      invariant forall i | pos <= i < cur :: Ordinary(s[i], quoted, escapes, breaks)
      invariant Extract(s[start..], quoted0, escapes, breaks) == Prepend(result, Extract(s[pos..], quoted, escapes, breaks))
      decreases |s| - cur
    {
      cur := FindFirstOf(s, escapes + breaks + {'"'}, cur);
      assert AllOrdinary(s[pos..cur], quoted, escapes, breaks);
      ExtractRun(s[pos..cur], s[cur..], quoted, escapes, breaks);
      assert s[pos..] == s[pos..cur] + s[cur..];
      if cur == |s| || s[cur] in breaks || (!quoted && s[cur] in escapes) {
        ExtractStops(s[cur..], quoted, escapes, breaks);
        result := result + s[pos..cur];
        pos := cur;
        return;
      }
      if s[cur] == '"' {
        ExtractToggles(s[cur..], quoted, escapes, breaks);
        assert s[cur..][1..] == s[cur + 1..];
        ghost var more := Extract(s[cur + 1..], !quoted, escapes, breaks);
        assert Prepend(result, Prepend(s[pos..cur], more)) == Prepend(result + s[pos..cur], more) by {
          Associative(result, s[pos..cur], more.text);
        }
        quoted := !quoted;
        result := result + s[pos..cur];
        pos := cur + 1;
      }
      cur := cur + 1;
    }
  }

  lemma ExtractStops(s: string, quoted: bool, escapes: set<char>, breaks: set<char>)
    requires s == [] || s[0] in breaks || (!quoted && s[0] in escapes)
    ensures Extract(s, quoted, escapes, breaks) == Piece([], s, quoted)
  {
  }

  lemma ExtractToggles(s: string, quoted: bool, escapes: set<char>, breaks: set<char>)
    requires s != [] && s[0] == '"' && s[0] !in breaks && (quoted || s[0] !in escapes)
    ensures Extract(s, quoted, escapes, breaks) == Extract(s[1..], !quoted, escapes, breaks)
  {
  }

  /** The body of the loop of `parse_impl`; it always gets further. */
  method ParsePair(f: Format, s: string, start: nat, quoted0: bool) returns (pair: Pair, pos: nat, quoted: bool)
    requires f.Valid() && start < |s|
    ensures start < pos <= |s| && (pair, s[pos..], quoted) == ParseOne(f, s[start..], quoted0)
  {
    hide Extract, SkipAll;
    ParseOneMoves(f, s[start..], quoted0);
    var key;
    key, pos, quoted := ExtractUntil(s, start, quoted0, f.KeyEnds(), {f.eq});
    pos := FindFirstNotOf(s, f.Skipped(), pos);
    if pos == |s| || s[pos] == f.delim {
      pair := Pair(key, []);
    } else {
      var value;
      value, pos, quoted := ExtractUntil(s, pos, quoted, {f.delim}, {});
      pair := Pair(key, value);
    }
    pos := FindFirstNotOf(s, {f.delim}, pos);
  }

  /** `parse_impl` */
  method ParseImpl(f: Format, s: string) returns (kv: seq<Pair>)
    requires f.Valid()
    ensures kv == Parse(f, s, false)
  {
    hide ParseOne;
    kv := [];
    var quoted, pos := false, 0;
    assert s[0..] == s;
    while pos < |s|
      invariant pos <= |s| && Parse(f, s, false) == kv + Parse(f, s[pos..], quoted)
      decreases |s| - pos
    {
      var pair, pos', quoted' := ParsePair(f, s, pos, quoted);
      Associative(kv, [pair], Parse(f, s[pos'..], quoted'));
      kv, pos, quoted := kv + [pair], pos', quoted';
    }
  }

  // ----- printing -----

  function PrintPair(f: Format, p: Pair): string { p.key + [f.eq] + "\"" + p.value + "\"" }

  /** Pairs as key="value", joined by the delimiter. */
  function Print(f: Format, pairs: seq<Pair>): string {
    if pairs == [] then []
    else if |pairs| == 1 then PrintPair(f, pairs[0])
    else PrintPair(f, pairs[0]) + [f.delim] + Print(f, pairs[1..])
  }

  /** A key free of special characters and a value free of quotes. */
  predicate Printable(f: Format, p: Pair) {
    && (forall i | 0 <= i < |p.key| :: p.key[i] !in f.KeyEnds() && p.key[i] != f.eq && p.key[i] != '"')
    && (forall i | 0 <= i < |p.value| :: p.value[i] != '"')
  }

  /** One printed pair is one turn of the parser. */
  lemma PrintedPairParses(f: Format, p: Pair, rest: string)
    requires f.Valid() && Printable(f, p) && (rest != [] ==> rest[0] == f.delim)
    ensures ParseOne(f, PrintPair(f, p) + rest, false) == (p, SkipAll(rest, {f.delim}), false)
  {
    hide Extract, SkipAll;
    var quotedValue := "\"" + (p.value + ("\"" + rest));
    var s := PrintPair(f, p) + rest;
    assert s == p.key + ([f.eq] + quotedValue);
    ExtractRun(p.key, [f.eq] + quotedValue, false, f.KeyEnds(), {f.eq});
    ExtractStops([f.eq] + quotedValue, false, f.KeyEnds(), {f.eq});
    assert p.key + [] == p.key;
    assert SkipAll([f.eq] + quotedValue, f.Skipped()) == quotedValue by { SkipOne(f, quotedValue); }
    ExtractToggles(quotedValue, false, {f.delim}, {});
    assert quotedValue[1..] == p.value + ("\"" + rest);
    ExtractRun(p.value, "\"" + rest, true, {f.delim}, {});
    ExtractToggles("\"" + rest, true, {f.delim}, {});
    assert ("\"" + rest)[1..] == rest;
    ExtractStops(rest, false, {f.delim}, {});
    assert p.value + [] == p.value;
  }

  lemma SkipOne(f: Format, s: string)
    requires f.Valid() && s != [] && s[0] == '"'
    ensures SkipAll([f.eq] + s, f.Skipped()) == s
  {
    assert ([f.eq] + s)[1..] == s;
  }

  /** Printing and parsing is the identity on printable lists, for every instance of the parser. */
  lemma {:induction false} ParsePrinted(f: Format, pairs: seq<Pair>)
    requires f.Valid() && forall i | 0 <= i < |pairs| :: Printable(f, pairs[i])
    ensures Parse(f, Print(f, pairs), false) == pairs
    decreases |pairs|
  {
    hide PrintPair, Printable, ParseOne;
    if pairs == [] {
    } else {
      var rest := if |pairs| == 1 then [] else [f.delim] + Print(f, pairs[1..]);
      var s := PrintPair(f, pairs[0]) + rest;
      assert Print(f, pairs) == s by {
        assert PrintPair(f, pairs[0]) + [] == PrintPair(f, pairs[0]);
      }
      PrintedPairParses(f, pairs[0], rest);
      assert s != [] by { PrintPairNotEmpty(f, pairs[0]); }
      ParsePrinted(f, pairs[1..]);
      if |pairs| > 1 {
        PrintStarts(f, pairs[1..]);
        SkipDelim(f, Print(f, pairs[1..]));
      }
    }
  }

  lemma PrintPairNotEmpty(f: Format, p: Pair)
    ensures PrintPair(f, p) != []
  {
  }

  lemma PrintStarts(f: Format, pairs: seq<Pair>)
    requires f.Valid() && pairs != [] && Printable(f, pairs[0])
    ensures Print(f, pairs) != [] && Print(f, pairs)[0] != f.delim
  {
    var p := PrintPair(f, pairs[0]);
    assert p != [] && p[0] == if p == [] || pairs[0].key == [] then f.eq else pairs[0].key[0];
  }

  lemma SkipDelim(f: Format, s: string)
    requires s != [] && s[0] != f.delim
    ensures SkipAll([f.delim] + s, {f.delim}) == s
  {
    assert ([f.delim] + s)[1..] == s;
  }

  lemma InstancesAreValid()
    ensures CMDLINE.Valid() && BOOTCONFIG.Valid() && PARTITION_MAP.Valid()
  {
  }

  /** The kernel command line, the boot configuration and the partition map each read back what is printed. */
  lemma InstancesParsePrinted(pairs: seq<Pair>)
    ensures (forall i | 0 <= i < |pairs| :: Printable(CMDLINE, pairs[i])) ==>
              Parse(CMDLINE, Print(CMDLINE, pairs), false) == pairs
    ensures (forall i | 0 <= i < |pairs| :: Printable(BOOTCONFIG, pairs[i])) ==>
              Parse(BOOTCONFIG, Print(BOOTCONFIG, pairs), false) == pairs
    ensures (forall i | 0 <= i < |pairs| :: Printable(PARTITION_MAP, pairs[i])) ==>
              Parse(PARTITION_MAP, Print(PARTITION_MAP, pairs), false) == pairs
  {
    hide *;
    InstancesAreValid();
    if forall i | 0 <= i < |pairs| :: Printable(CMDLINE, pairs[i]) { ParsePrinted(CMDLINE, pairs); }
    if forall i | 0 <= i < |pairs| :: Printable(BOOTCONFIG, pairs[i]) { ParsePrinted(BOOTCONFIG, pairs); }
    if forall i | 0 <= i < |pairs| :: Printable(PARTITION_MAP, pairs[i]) { ParsePrinted(PARTITION_MAP, pairs); }
  }
}
