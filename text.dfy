/** Strings as the search index sees them: Kotlin's `String.compareTo`
    order, per-character lowercasing and `trim()`. */
module Text {

  /** The largest UTF-16 code unit, appended to a query to form the upper key. */
  const Sentinel: char := '\U{FFFF}'

  // ---------------------------------------------------------------------------
  // Lexicographic order (String.compareTo: first differing code unit decides,
  // otherwise the shorter string is smaller)
  // ---------------------------------------------------------------------------

  predicate Less(a: string, b: string)
    decreases |a|
  {
    |b| > 0 && (|a| == 0 || if a[0] == b[0] then Less(a[1..], b[1..]) else a[0] < b[0])
  }

  predicate LessEq(a: string, b: string)
  {
    a == b || Less(a, b)
  }

  lemma {:induction false} LessIrreflexive(a: string)
    ensures !Less(a, a)
    decreases |a|
  {
    if |a| > 0 { LessIrreflexive(a[1..]); }
  }

  lemma {:induction false} LessTransitive(a: string, b: string, c: string)
    requires Less(a, b) && Less(b, c)
    ensures Less(a, c)
    decreases |a|
  {
    if |a| > 0 && a[0] == b[0] && b[0] == c[0] {
      LessTransitive(a[1..], b[1..], c[1..]);
    }
  }

  lemma {:induction false} LessTotal(a: string, b: string)
    ensures Less(a, b) || a == b || Less(b, a)
    decreases |a|
  {
    if |a| > 0 && |b| > 0 && a[0] == b[0] {
      LessTotal(a[1..], b[1..]);
      if a[1..] == b[1..] {
        assert a == [a[0]] + a[1..] && b == [b[0]] + b[1..];
      }
    }
  }

  lemma LessAsymmetric(a: string, b: string)
    ensures Less(a, b) ==> !Less(b, a)
  {
    if Less(a, b) && Less(b, a) {
      LessTransitive(a, b, a);
      LessIrreflexive(a);
    }
  }

  lemma LessEqTransitive(a: string, b: string, c: string)
    requires LessEq(a, b) && LessEq(b, c)
    ensures LessEq(a, c)
  {
    if a != b && b != c { LessTransitive(a, b, c); }
  }

  /** `Less` and `LessEq` chain: a <= b < c gives a < c, and a < b <= c too. */
  lemma LessEqLess(a: string, b: string, c: string)
    requires LessEq(a, b) && Less(b, c)
    ensures Less(a, c)
  {
    if a != b { LessTransitive(a, b, c); }
  }

  lemma LessLessEq(a: string, b: string, c: string)
    requires Less(a, b) && LessEq(b, c)
    ensures Less(a, c)
  {
    if b != c { LessTransitive(a, b, c); }
  }

  // ---------------------------------------------------------------------------
  // Prefixes
  // ---------------------------------------------------------------------------

  predicate IsPrefix(p: string, s: string)
  {
    |p| <= |s| && s[..|p|] == p
  }

  /** A string is never smaller than any of its prefixes. */
  lemma {:induction false} PrefixNotAbove(p: string, s: string)
    requires IsPrefix(p, s)
    ensures LessEq(p, s)
    decreases |p|
  {
    if |p| > 0 {
      assert s[1..][..|p| - 1] == p[1..];
      PrefixNotAbove(p[1..], s[1..]);
      if p[1..] == s[1..] {
        assert p == [p[0]] + p[1..] && s == [s[0]] + s[1..];
      }
    }
  }

  /** Appending a character makes a string strictly larger. */
  lemma {:induction false} LessThanExtension(p: string, c: char)
    ensures Less(p, p + [c])
    decreases |p|
  {
    if |p| > 0 {
      assert (p + [c])[1..] == p[1..] + [c];
      LessThanExtension(p[1..], c);
    }
  }

  /** A string that starts with `p` and does not continue with a character at
      or above U+FFFF lies strictly below `p + Sentinel`. */
  lemma {:induction false} PrefixBelowUpperKey(p: string, s: string)
    requires IsPrefix(p, s)
    requires |s| == |p| || s[|p|] < Sentinel
    ensures Less(s, p + [Sentinel])
    decreases |p|
  {
    if |p| == 0 {
    } else {
      assert s[1..][..|p| - 1] == p[1..];
      assert (p + [Sentinel])[1..] == p[1..] + [Sentinel];
      PrefixBelowUpperKey(p[1..], s[1..]);
    }
    if |s| == |p| {
      assert s == p;
      LessThanExtension(p, Sentinel);
    }
  }

  // ---------------------------------------------------------------------------
  // Lowercasing and whitespace
  // ---------------------------------------------------------------------------

  /** Kotlin's `Char.isWhitespace()`: Java's `isWhitespace` or `isSpaceChar`. */
  predicate IsWhitespace(c: char)
  {
    (0x09 <= c as int <= 0x0D) || (0x1C <= c as int <= 0x20)
    || c as int == 0xA0 || c as int == 0x1680 || (0x2000 <= c as int <= 0x200A)
    || c as int == 0x2028 || c as int == 0x2029 || c as int == 0x202F
    || c as int == 0x205F || c as int == 0x3000
  }

  predicate IsUpper(c: char)
  {
    ('A' <= c <= 'Z') || ('\U{C0}' <= c <= '\U{DE}' && c != '\U{D7}')
  }

  /** Root-locale lowercasing of one character, for the Basic Latin and
      Latin-1 letters. */
  function Lower(c: char): (r: char)
    ensures !IsUpper(r)
    ensures IsWhitespace(r) <==> IsWhitespace(c)
  {
    if IsUpper(c) then (c as int + 32) as char else c
  }

  /** `lowercase(Locale.ROOT)` on a whole string, one character at a time. */
  function LowerStr(s: string): (r: string)
    ensures |r| == |s|
    ensures forall k :: 0 <= k < |r| ==> !IsUpper(r[k])
  {
    seq(|s|, i requires 0 <= i < |s| => Lower(s[i]))
  }

  lemma LowerStrIdempotent(s: string)
    ensures LowerStr(LowerStr(s)) == LowerStr(s)
  {
  }

  lemma LowerStrSlice(s: string, i: nat, j: nat)
    requires i <= j <= |s|
    ensures LowerStr(s[i..j]) == LowerStr(s)[i..j]
  {
  }

  // ---------------------------------------------------------------------------
  // trim()
  // ---------------------------------------------------------------------------

  function TrimStart(s: string): (r: string)
    ensures |r| <= |s| && r == s[|s| - |r|..]
    ensures forall k :: 0 <= k < |s| - |r| ==> IsWhitespace(s[k])
    ensures r == [] || !IsWhitespace(r[0])
  {
    if |s| > 0 && IsWhitespace(s[0]) then TrimStart(s[1..]) else s
  }

  function TrimEnd(s: string): (r: string)
    ensures |r| <= |s| && r == s[..|r|]
    ensures forall k :: |r| <= k < |s| ==> IsWhitespace(s[k])
    ensures r == [] || !IsWhitespace(r[|r| - 1])
  {
    if |s| > 0 && IsWhitespace(s[|s| - 1]) then TrimEnd(s[..|s| - 1]) else s
  }

  /** `trim()`: drops leading and trailing whitespace. */
  function Trim(s: string): (r: string)
    ensures |r| <= |s|
    ensures r == [] || (!IsWhitespace(r[0]) && !IsWhitespace(r[|r| - 1]))
  {
    TrimEnd(TrimStart(s))
  }

  lemma TrimEmptyIffBlank(s: string)
    ensures Trim(s) == [] <==> forall k :: 0 <= k < |s| ==> IsWhitespace(s[k])
  {
    var t := TrimStart(s);
    if t != [] {
      assert t[0] == s[|s| - |t|];
    }
  }

  lemma {:induction false} TrimStartLower(s: string)
    ensures TrimStart(LowerStr(s)) == LowerStr(TrimStart(s))
    decreases |s|
  {
    if |s| > 0 && IsWhitespace(s[0]) {
      assert LowerStr(s)[1..] == LowerStr(s[1..]);
      TrimStartLower(s[1..]);
    }
  }

  lemma {:induction false} TrimEndLower(s: string)
    ensures TrimEnd(LowerStr(s)) == LowerStr(TrimEnd(s))
    decreases |s|
  {
    if |s| > 0 && IsWhitespace(s[|s| - 1]) {
      assert LowerStr(s)[..|s| - 1] == LowerStr(s[..|s| - 1]);
      TrimEndLower(s[..|s| - 1]);
    }
  }

  /** Trimming and lowercasing commute, since lowercasing keeps whitespace. */
  lemma TrimLower(s: string)
    ensures Trim(LowerStr(s)) == LowerStr(Trim(s))
  {
    TrimStartLower(s);
    TrimEndLower(TrimStart(s));
  }

  /** `trim()` leaves a string alone whose ends are not whitespace. */
  lemma TrimKeepsInner(s: string)
    requires |s| > 0 ==> !IsWhitespace(s[0]) && !IsWhitespace(s[|s| - 1])
    ensures Trim(s) == s
  {
  }

  /** The search key of a user query: `prefix.trim().lowercase(Locale.ROOT)`. */
  function Normalize(prefix: string): (q: string)
    ensures |q| <= |prefix|
    ensures forall k :: 0 <= k < |q| ==> !IsUpper(q[k])
    ensures q == [] || (!IsWhitespace(q[0]) && !IsWhitespace(q[|q| - 1]))
  {
    LowerStr(Trim(prefix))
  }

  /** Lowercasing a query first changes nothing. */
  lemma NormalizeIgnoresCase(prefix: string)
    ensures Normalize(LowerStr(prefix)) == Normalize(prefix)
  {
    TrimLower(prefix);
    LowerStrIdempotent(Trim(prefix));
  }
}
