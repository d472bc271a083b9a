/** The operations of Rust's `str` that the colour parser relies on: ASCII
    lower-casing, character removal, `trim_matches`, `split` and slicing by
    UTF-8 byte offsets. A `string` here is a sequence of Unicode scalar
    values; byte offsets are computed from each character's UTF-8 width. */
module Str {
  import opened Wrappers

  // ---------------------------------------------------------------------
  // Counting, prefixes, case and character removal

  function Count(s: string, c: char): (n: nat)
    ensures n <= |s|
  {
    if s == [] then 0 else (if s[0] == c then 1 else 0) + Count(s[1..], c)
  }

  /** `starts_with`: `prefix` matches the start of `s` character by
      character. */
  predicate StartsWith(s: string, prefix: string): (b: bool)
    ensures b <==> |prefix| <= |s| && forall i :: 0 <= i < |prefix| ==> s[i] == prefix[i]
  {
    |prefix| <= |s| && s[..|prefix|] == prefix
  }

  predicate IsAsciiUpper(c: char) {
    'A' <= c <= 'Z'
  }

  function ToLowerAscii(c: char): (d: char)
    ensures !IsAsciiUpper(d)
    ensures IsAsciiUpper(c) ==> d as int == c as int + 32
    ensures !IsAsciiUpper(c) ==> d == c
  {
    if IsAsciiUpper(c) then (c as int + 32) as char else c
  }

  /** `to_lowercase`, restricted to ASCII letters. */
  function Lowercase(s: string): (r: string)
    ensures |r| == |s|
    ensures forall i :: 0 <= i < |s| ==> r[i] == ToLowerAscii(s[i])
  {
    if s == [] then [] else [ToLowerAscii(s[0])] + Lowercase(s[1..])
  }

  /** `replace(c, "")` for a one-character pattern: every `c` is dropped and
      the other characters keep their order. */
  function Remove(s: string, c: char): (r: string)
    ensures |r| == |s| - Count(s, c)
    ensures forall i :: 0 <= i < |r| ==> r[i] != c
    ensures forall d :: d in r <==> d in s && d != c
    ensures multiset(r) == multiset(s)[c := 0]
  {
    if s == [] then []
    else
      assert s == [s[0]] + s[1..];
      if s[0] == c then Remove(s[1..], c)
      else [s[0]] + Remove(s[1..], c)
  }

  /** Removal works piecewise, so the kept characters stay in their order:
      together with the one-character cases this fixes the result. */
  lemma {:induction false} RemoveAppend(a: string, b: string, c: char)
    ensures Remove(a + b, c) == Remove(a, c) + Remove(b, c)
  {
    if a != [] {
      assert (a + b)[0] == a[0] && (a + b)[1..] == a[1..] + b;
      RemoveAppend(a[1..], b, c);
    } else {
      assert a + b == b;
    }
  }

  lemma {:induction false} RemoveAbsent(s: string, c: char)
    requires c !in s
    ensures Remove(s, c) == s
  {
    if s != [] {
      RemoveAbsent(s[1..], c);
    }
  }

  // ---------------------------------------------------------------------
  // trim_matches

  /** Drops the leading characters that belong to `cs`. */
  function TrimStart(s: string, cs: set<char>): (r: string)
    ensures |r| <= |s| && r == s[|s| - |r|..]
    ensures forall i :: 0 <= i < |s| - |r| ==> s[i] in cs
    ensures r != [] ==> r[0] !in cs
  {
    if s != [] && s[0] in cs then
      var r := TrimStart(s[1..], cs);
      assert s[1..][|s| - 1 - |r|..] == s[|s| - |r|..];
      r
    else
      s
  }

  /** Drops the trailing characters that belong to `cs`. */
  function TrimEnd(s: string, cs: set<char>): (r: string)
    ensures |r| <= |s| && r == s[..|r|]
    ensures forall i :: |r| <= i < |s| ==> s[i] in cs
    ensures r != [] ==> r[|r| - 1] !in cs
  {
    if s != [] && s[|s| - 1] in cs then
      var r := TrimEnd(s[..|s| - 1], cs);
      assert s[..|s| - 1][..|r|] == s[..|r|];
      r
    else
      s
  }

  /** `trim_matches`: strips characters of `cs` from both ends. */
  function TrimMatches(s: string, cs: set<char>): (r: string)
    ensures |r| <= |s|
    ensures (forall k :: 0 <= k < |s| ==> s[k] !in cs) ==> r == s
  {
    TrimEnd(TrimStart(s, cs), cs)
  }

  /** What is left after `trim_matches` is a contiguous piece `s[i..j]` of the
      input with only `cs` characters cut away on either side. */
  lemma TrimMatchesIsInnerSlice(s: string, cs: set<char>)
    ensures var r := TrimMatches(s, cs);
      exists i, j :: 0 <= i <= j <= |s| && r == s[i..j]
        && (forall k :: 0 <= k < i ==> s[k] in cs)
        && (forall k :: j <= k < |s| ==> s[k] in cs)
  {
    var t := TrimStart(s, cs);
    var r := TrimEnd(t, cs);
    var i := |s| - |t|;
    var j := i + |r|;
    assert r == s[i..j] by {
      assert t == s[i..] && r == t[..|r|];
    }
    forall k | j <= k < |s| ensures s[k] in cs {
      assert s[k] == t[k - i];
    }
  }

  /** ... and it neither starts nor ends with a character of `cs`. */
  lemma TrimMatchesEnds(s: string, cs: set<char>)
    ensures var r := TrimMatches(s, cs);
      r != [] ==> r[0] !in cs && r[|r| - 1] !in cs
  {
    var t := TrimStart(s, cs);
    var r := TrimEnd(t, cs);
    if r != [] {
      assert r[0] == t[0];
    }
  }

  // ---------------------------------------------------------------------
  // split

  /** The inverse of `Split`: the parts glued back with `sep` between them. */
  function Join(parts: seq<string>, sep: char): string
    requires |parts| >= 1
  {
    if |parts| == 1 then parts[0] else parts[0] + [sep] + Join(parts[1..], sep)
  }

  /** `split(sep)`: always at least one part, one more than there are
      separators; no part holds the separator; joining restores the input. */
  function Split(s: string, sep: char): (parts: seq<string>)
    ensures |parts| == Count(s, sep) + 1
    ensures forall k :: 0 <= k < |parts| ==> sep !in parts[k]
    ensures Join(parts, sep) == s
  {
    if s == [] then [[]]
    else
      var rest := Split(s[1..], sep);
      if s[0] == sep then
        [[]] + rest
      else
        JoinConsFirst(s[0], rest, sep);
        [[s[0]] + rest[0]] + rest[1..]
  }

  lemma JoinConsFirst(c: char, parts: seq<string>, sep: char)
    requires |parts| >= 1
    ensures Join([[c] + parts[0]] + parts[1..], sep) == [c] + Join(parts, sep)
  {
    var q := [[c] + parts[0]] + parts[1..];
    assert q[1..] == parts[1..];
  }

  /** Splitting is the inverse of joining, for parts free of the separator. */
  lemma {:induction false} SplitJoin(parts: seq<string>, sep: char)
    requires |parts| >= 1
    requires forall k :: 0 <= k < |parts| ==> sep !in parts[k]
    ensures Split(Join(parts, sep), sep) == parts
  {
    if |parts| == 1 {
      SplitNoSep(parts[0], sep);
    } else {
      SplitJoin(parts[1..], sep);
      SplitPrefix(parts[0], Join(parts[1..], sep), sep);
      assert [parts[0]] + parts[1..] == parts;
    }
  }

  lemma {:induction false} SplitNoSep(s: string, sep: char)
    requires sep !in s
    ensures Split(s, sep) == [s]
  {
    if s != [] {
      SplitNoSep(s[1..], sep);
    }
  }

  lemma {:induction false} SplitPrefix(p: string, t: string, sep: char)
    requires sep !in p
    ensures Split(p + [sep] + t, sep) == [p] + Split(t, sep)
  {
    if p == [] {
      assert (p + [sep] + t)[1..] == t;
    } else {
      var s := p + [sep] + t;
      assert s[0] == p[0] && s[1..] == p[1..] + [sep] + t;
      SplitPrefix(p[1..], t, sep);
      var rest := Split(s[1..], sep);
      assert rest[0] == p[1..] && rest[1..] == Split(t, sep);
      assert [p[0]] + p[1..] == p;
    }
  }

  // ---------------------------------------------------------------------
  // UTF-8 byte offsets and slicing

  /** Bytes UTF-8 needs for `c`. */
  function Utf8Width(c: char): (n: nat)
    ensures 1 <= n <= 4
    ensures n == 1 <==> c as int < 0x80
  {
    if c as int < 0x80 then 1
    else if c as int < 0x800 then 2
    else if c as int < 0x1_0000 then 3
    else 4
  }

  /** Length of `s` in UTF-8 bytes (`str::len`). */
  function ByteLen(s: string): (n: nat)
    ensures |s| <= n
  {
    if s == [] then 0 else Utf8Width(s[0]) + ByteLen(s[1..])
  }

  predicate IsAscii(s: string) {
    forall i :: 0 <= i < |s| ==> s[i] as int < 0x80
  }

  /** The index of the character that starts at byte offset `k` (or `|s|`
      when `k` is the byte length): `None` when `k` is not a character
      boundary of `s`. */
  function CharIndex(s: string, k: nat): (r: Option<nat>)
    ensures r.Some? ==> r.value <= |s| && ByteLen(s[..r.value]) == k
  {
    if k == 0 then Some(0)
    else if s == [] || k < Utf8Width(s[0]) then None
    else
      match CharIndex(s[1..], k - Utf8Width(s[0]))
      case None => None
      case Some(i) =>
        assert s[..i + 1][1..] == s[1..][..i];
        Some(i + 1)
  }

  /** Every character boundary is found by `CharIndex`. */
  lemma {:induction false} CharIndexAtBoundary(s: string, i: nat)
    requires i <= |s|
    ensures CharIndex(s, ByteLen(s[..i])) == Some(i)
  {
    if i > 0 {
      assert s[..i][1..] == s[1..][..i - 1];
      CharIndexAtBoundary(s[1..], i - 1);
    }
  }

  lemma {:induction false} AsciiByteLen(s: string)
    requires IsAscii(s)
    ensures ByteLen(s) == |s|
  {
    if s != [] {
      AsciiByteLen(s[1..]);
    }
  }

  /** `&s[lo..hi]`: `None` stands for the panic Rust raises when `lo > hi`,
      when `hi` is past the end, or when either offset falls inside a
      character. */
  function ByteSlice(s: string, lo: nat, hi: nat): (r: Option<string>)
    ensures r.Some? ==> lo <= hi <= ByteLen(s) && ByteLen(r.value) == hi - lo
    ensures r.Some? ==>
      exists i :: (0 <= i && i + |r.value| <= |s| && ByteLen(s[..i]) == lo && r.value == s[i..i + |r.value|])
  {
    match (CharIndex(s, lo), CharIndex(s, hi))
    case (Some(i), Some(j)) =>
      if i <= j then
        assert s[..j] == s[..i] + s[i..j];
        assert s[i..j] == s[i..i + |s[i..j]|];
        ByteLenAppend(s[..i], s[i..j]);
        ByteLenPrefixMonotone(s, j);
        Some(s[i..j])
      else None
    case _ => None
  }

  /** Slicing between two character boundaries always succeeds and yields
      the characters between them. */
  lemma ByteSliceAtBoundaries(s: string, i: nat, j: nat)
    requires i <= j <= |s|
    ensures ByteSlice(s, ByteLen(s[..i]), ByteLen(s[..j])) == Some(s[i..j])
  {
    CharIndexAtBoundary(s, i);
    CharIndexAtBoundary(s, j);
  }

  lemma {:induction false} ByteLenAppend(a: string, b: string)
    ensures ByteLen(a + b) == ByteLen(a) + ByteLen(b)
  {
    if a != [] {
      assert (a + b)[0] == a[0] && (a + b)[1..] == a[1..] + b;
      ByteLenAppend(a[1..], b);
    } else {
      assert a + b == b;
    }
  }

  /** On an ASCII prefix, byte offsets are character indices: slicing inside
      it succeeds and yields those characters, and slicing past its end
      when the prefix is the whole string panics. */
  lemma AsciiSlice(s: string, lo: nat, hi: nat, n: nat)
    requires n <= |s| && IsAscii(s[..n])
    requires lo <= hi <= n
    ensures ByteSlice(s, lo, hi) == Some(s[lo..hi])
  {
    AsciiPrefixIndex(s, lo, n);
    AsciiPrefixIndex(s, hi, n);
  }

  lemma AsciiPrefixIndex(s: string, k: nat, n: nat)
    requires k <= n <= |s| && IsAscii(s[..n])
    ensures CharIndex(s, k) == Some(k)
  {
    assert s[..k] == s[..n][..k];
    AsciiByteLen(s[..k]);
    CharIndexAtBoundary(s, k);
  }

  /** An ASCII string has no boundary past its end: the slice panics. */
  lemma AsciiSlicePastEnd(s: string, lo: nat, hi: nat)
    requires IsAscii(s) && |s| < hi
    ensures ByteSlice(s, lo, hi) == None
  {
    AsciiByteLen(s);
    assert s[..|s|] == s;
    if CharIndex(s, hi).Some? {
      var j := CharIndex(s, hi).value;
      ByteLenPrefixMonotone(s, j);
      assert false;
    }
  }

  lemma {:induction false} ByteLenPrefixMonotone(s: string, j: nat)
    requires j <= |s|
    ensures ByteLen(s[..j]) <= ByteLen(s)
  {
    if j > 0 {
      assert s[..j][1..] == s[1..][..j - 1];
      ByteLenPrefixMonotone(s[1..], j - 1);
    }
  }
}
