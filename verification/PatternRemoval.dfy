/** Removing mount flags from fstab text in place. */
module PatternRemoval {
  import opened Common

  /** Where and how much to remove: `None`, or a number of bytes at the front. */
  type Matcher = Bytes -> Option<nat>

  /** Every match makes progress and stays inside the buffer. */
  ghost predicate IsMatcher(m: Matcher) {
    forall b: Bytes | b != [] && m(b).Some? :: 0 < m(b).value <= |b|
  }

  /** Left-to-right removal on the original bytes. */
  function Kept(m: Matcher, s: Bytes): (r: Bytes)
    requires IsMatcher(m)
    ensures |r| <= |s|
    decreases |s|
  {
    if s == [] then []
    else match m(s)
      case Some(len) => Kept(m, s[len..])
      case None => [s[0]] + Kept(m, s[1..])
  }

  /** `remove_pattern`: compacts the buffer while reading it, clears the tail and returns what is left. */
  method RemovePattern(buf: array<Byte>, m: Matcher) returns (sz: nat)
    requires IsMatcher(m)
    modifies buf
    ensures var kept := Kept(m, old(buf[..]));
            sz == |kept| && buf[..sz] == kept && forall i | sz <= i < buf.Length :: buf[i] == 0
  {
    hide IsMatcher, Kept;
    ghost var input, kept: Bytes := buf[..], [];
    var write, read := 0, 0;
    sz := buf.Length;
    assert input[0..] == input;
    while read < buf.Length
      invariant write <= read <= buf.Length && sz == write + (buf.Length - read)
      invariant forall i | read <= i < buf.Length :: buf[i] == input[i]
      invariant |kept| == write && forall i | 0 <= i < write :: buf[i] == kept[i]
      invariant Kept(m, input) == kept + Kept(m, input[read..])
      decreases buf.Length - read
    {
      assert buf[read..] == input[read..];
      MatchMoves(m, input[read..]);
      var matched := m(buf[read..]);
      if matched.Some? {
        var len := matched.value;
        assert input[read..][len..] == input[read + len..];
        sz := sz - len;
        read := read + len;
      } else {
        assert input[read..][1..] == input[read + 1..];
        Associative(kept, [buf[read]], Kept(m, input[read + 1..]));
        kept := kept + [buf[read]];
        buf[write] := buf[read];
        write := write + 1;
        read := read + 1;
      }
    }
    NothingKept(m);
    assert input[read..] == [] && kept + [] == kept;
    Clear(buf, write);
    assert buf[..write] == kept;
  }

  lemma NothingKept(m: Matcher)
    requires IsMatcher(m)
    ensures Kept(m, []) == []
  {
  }

  lemma MatchMoves(m: Matcher, s: Bytes)
    requires IsMatcher(m) && s != []
    ensures match m(s)
            case Some(len) => 0 < len <= |s| && Kept(m, s) == Kept(m, s[len..])
            case None => Kept(m, s) == [s[0]] + Kept(m, s[1..])
  {
  }

  /** `buf[write..].fill(0)` */
  method Clear(buf: array<Byte>, from: nat)
    requires from <= buf.Length
    modifies buf
    ensures buf[..from] == old(buf[..from]) && forall i | from <= i < buf.Length :: buf[i] == 0
  {
    for i := from to buf.Length
      invariant forall j | 0 <= j < from :: buf[j] == old(buf[j])
      invariant forall j | from <= j < i :: buf[j] == 0
    {
      buf[i] := 0;
    }
  }

  // ----- the matchers -----

  const COMMA: Byte := 44
  const EQUALS: Byte := 61

  predicate EndsValue(c: Byte) { c == 32 || c == 10 || c == 0 }

  /** The bytes before a blank, a line end or a NUL. */
  function ValueLength(b: Bytes): (n: nat)
    ensures n <= |b| && (forall i | 0 <= i < n :: !EndsValue(b[i])) && (n < |b| ==> EndsValue(b[n]))
  {
    if b == [] || EndsValue(b[0]) then 0 else 1 + ValueLength(b[1..])
  }

  function FirstPrefix(patterns: seq<Bytes>, b: Bytes): (r: Option<nat>)
    ensures r.Some? ==> exists i :: 0 <= i < |patterns| && patterns[i] <= b && r.value == |patterns[i]|
                           && forall j | 0 <= j < i :: !(patterns[j] <= b)
    ensures r.None? ==> forall i | 0 <= i < |patterns| :: !(patterns[i] <= b)
  {
    if patterns == [] then None
    else if patterns[0] <= b then Some(|patterns[0]|)
    else
      var r := FirstPrefix(patterns[1..], b);
      assert r.Some? ==> exists i :: 0 <= i < |patterns[1..]| && patterns[1..][i] <= b && r.value == |patterns[1..][i]|
                                && forall j | 0 <= j < i :: !(patterns[1..][j] <= b);
      r
  }

  /** `match_patterns`: an optional comma, one of the flags, and its value if it has one. */
  function MatchPatterns(patterns: seq<Bytes>, buf: Bytes): Option<nat>
    requires buf != []
  {
    var comma := if buf[0] == COMMA then 1 else 0;
    var b := buf[comma..];
    if b == [] then None
    else match FirstPrefix(patterns, b)
      case None => None
      case Some(len) =>
        var rest := b[len..];
        Some(comma + len + if rest != [] && rest[0] == EQUALS then ValueLength(rest) else 0)
  }

  ghost predicate AllNonEmpty(patterns: seq<Bytes>) { forall i | 0 <= i < |patterns| :: patterns[i] != [] }

  /** Whatever the flags, a match is non-empty and ends inside the buffer. */
  lemma MatchIsInside(patterns: seq<Bytes>, buf: Bytes)
    requires buf != [] && AllNonEmpty(patterns) && MatchPatterns(patterns, buf).Some?
    ensures 0 < MatchPatterns(patterns, buf).value <= |buf|
  {
  }

  /** What a match removes: a flag from the list, without its comma or the value behind it only if they are not there. */
  lemma MatchRemoves(patterns: seq<Bytes>, buf: Bytes) returns (i: nat)
    requires buf != [] && AllNonEmpty(patterns) && MatchPatterns(patterns, buf).Some?
    ensures i < |patterns|
    ensures var len, comma := MatchPatterns(patterns, buf).value, if buf[0] == COMMA then 1 else 0;
            var end := comma + |patterns[i]|;
            && end <= len <= |buf| && buf[comma..end] == patterns[i]
            && (end == |buf| || buf[end] != EQUALS ==> len == end)
            && (end < |buf| && buf[end] == EQUALS ==> len > end && (len < |buf| ==> EndsValue(buf[len])))
            && (forall k | end <= k < len :: !EndsValue(buf[k]))
  {
    hide ValueLength, MatchPatterns, EndsValue, AllNonEmpty;
    i := FlagFound(patterns, buf);
    var end := (if buf[0] == COMMA then 1 else 0) + |patterns[i]|;
    if end < |buf| && buf[end] == EQUALS { ValueRemoved(buf, end); }
  }

  lemma FlagFound(patterns: seq<Bytes>, buf: Bytes) returns (i: nat)
    requires buf != [] && MatchPatterns(patterns, buf).Some?
    ensures i < |patterns|
    ensures var comma := if buf[0] == COMMA then 1 else 0;
            var end := comma + |patterns[i]|;
            && end <= |buf| && buf[comma..end] == patterns[i]
            && MatchPatterns(patterns, buf).value
               == end + if end < |buf| && buf[end] == EQUALS then ValueLength(buf[end..]) else 0
  {
    hide ValueLength, FirstPrefix;
    var comma := if buf[0] == COMMA then 1 else 0;
    var b := buf[comma..];
    i :| 0 <= i < |patterns| && patterns[i] <= b && FirstPrefix(patterns, b) == Some(|patterns[i]|);
    var end := comma + |patterns[i]|;
    assert b[|patterns[i]|..] == buf[end..] && buf[comma..end] == b[..|patterns[i]|] == patterns[i];
  }

  lemma ValueRemoved(buf: Bytes, end: nat)
    requires end < |buf| && buf[end] == EQUALS
    ensures var n := ValueLength(buf[end..]);
            && 0 < n <= |buf| - end && (end + n < |buf| ==> EndsValue(buf[end + n]))
            && forall k | end <= k < end + n :: !EndsValue(buf[k])
  {
    hide ValueLength;
    var rest := buf[end..];
    var n := ValueLength(rest);
    assert forall k | 0 <= k < |rest| :: rest[k] == buf[end + k];
    forall k | end <= k < end + n ensures !EndsValue(buf[k]) { assert rest[k - end] == buf[k]; }
  }

  /** The flags that turn verification on, longer names before their prefixes. */
  const VERITY: seq<Bytes> := [
    Ascii("verifyatboot"), Ascii("verify"), Ascii("avb_keys"), Ascii("avb"), Ascii("support_scfs"), Ascii("fsverity")]

  const ENCRYPTION: seq<Bytes> := [Ascii("forceencrypt"), Ascii("forcefdeorfbe"), Ascii("fileencryption")]

  function Ascii(s: string): (r: Bytes)
    ensures |r| == |s|
  {
    seq(|s|, i requires 0 <= i < |s| => (s[i] as int) % 256)
  }

  function PatternMatcher(patterns: seq<Bytes>): Matcher {
    (buf: Bytes) => if buf == [] then None else MatchPatterns(patterns, buf)
  }

  lemma PatternsMatch(patterns: seq<Bytes>)
    requires AllNonEmpty(patterns)
    ensures IsMatcher(PatternMatcher(patterns))
  {
    hide MatchPatterns, AllNonEmpty;
    var m := PatternMatcher(patterns);
    forall b: Bytes | b != [] && m(b).Some? ensures 0 < m(b).value <= |b| {
      MatchIsInside(patterns, b);
    }
  }

  lemma FlagsAreNonEmpty()
    ensures AllNonEmpty(VERITY) && AllNonEmpty(ENCRYPTION)
  {
    hide Ascii;
  }

  /** `patch_verity` */
  method PatchVerity(buf: array<Byte>) returns (sz: nat)
    modifies buf
    ensures IsMatcher(PatternMatcher(VERITY))
    ensures var kept := Kept(PatternMatcher(VERITY), old(buf[..]));
            sz == |kept| && buf[..sz] == kept && forall i | sz <= i < buf.Length :: buf[i] == 0
  {
    hide IsMatcher, PatternMatcher, AllNonEmpty, Kept;
    FlagsAreNonEmpty();
    PatternsMatch(VERITY);
    sz := RemovePattern(buf, PatternMatcher(VERITY));
  }

  /** `patch_encryption` */
  method PatchEncryption(buf: array<Byte>) returns (sz: nat)
    modifies buf
    ensures IsMatcher(PatternMatcher(ENCRYPTION))
    ensures var kept := Kept(PatternMatcher(ENCRYPTION), old(buf[..]));
            sz == |kept| && buf[..sz] == kept && forall i | sz <= i < buf.Length :: buf[i] == 0
  {
    hide IsMatcher, PatternMatcher, AllNonEmpty, Kept;
    FlagsAreNonEmpty();
    PatternsMatch(ENCRYPTION);
    sz := RemovePattern(buf, PatternMatcher(ENCRYPTION));
  }
}
