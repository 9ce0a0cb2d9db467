/**
 * The JavaScript string built-ins that the Jira synchronisation is made of:
 * `Array.prototype.join`, `includes`, `split` with a non-empty string
 * separator, `trim`, `slice` and the decimal rendering of an integer inside
 * a template literal. `includes` and `split` both rest on `Find`, the search
 * for the leftmost occurrence of a pattern.
 */
module Strings {
  import opened Wrappers

  /** `parts.join(sep)`: the empty array joins to the empty string. */
  function Join(parts: seq<string>, sep: string): string
  {
    if |parts| == 0 then ""
    else if |parts| == 1 then parts[0]
    else parts[0] + sep + Join(parts[1..], sep)
  }

  /** A joined non-empty array starts with its first part and ends with its last part. */
  lemma {:induction false} JoinEnds(parts: seq<string>, sep: string)
    requires parts != []
    ensures |Join(parts, sep)| >= |parts[0]| && Join(parts, sep)[..|parts[0]|] == parts[0]
    ensures |Join(parts, sep)| >= |parts[|parts| - 1]|
    ensures Join(parts, sep)[|Join(parts, sep)| - |parts[|parts| - 1]|..] == parts[|parts| - 1]
  {
    if |parts| > 1 {
      JoinEnds(parts[1..], sep);
    }
  }

  /** `pat` occurs in `s` starting at index `i`. */
  predicate OccursAt(s: string, pat: string, i: int)
  {
    0 <= i && i + |pat| <= |s| && s[i..i + |pat|] == pat
  }

  lemma OccursAtTail(s: string, pat: string, i: int)
    requires s != [] && 0 <= i
    ensures OccursAt(s, pat, i + 1) <==> OccursAt(s[1..], pat, i)
  {
    if i + 1 + |pat| <= |s| {
      assert s[i + 1..i + 1 + |pat|] == s[1..][i..i + |pat|];
    }
  }

  /** The leftmost index where `pat` occurs in `s`, or none: the search `includes` and `split` rest on. */
  function Find(s: string, pat: string): (r: Option<nat>)
    ensures r.Some? ==> OccursAt(s, pat, r.value)
    ensures forall i :: 0 <= i && (r.None? || i < r.value) ==> !OccursAt(s, pat, i)
    decreases |s|
  {
    if |s| < |pat| then None
    else if s[..|pat|] == pat then Some(0)
    else
      var rest := Find(s[1..], pat);
      assert forall i :: 0 <= i ==> (OccursAt(s, pat, i + 1) <==> OccursAt(s[1..], pat, i)) by {
        forall i | 0 <= i ensures OccursAt(s, pat, i + 1) <==> OccursAt(s[1..], pat, i) {
          OccursAtTail(s, pat, i);
        }
      }
      assert !OccursAt(s, pat, 0);
      assert forall i :: 0 < i ==> OccursAt(s, pat, i) == OccursAt(s[1..], pat, i - 1) by {
        forall i | 0 < i ensures OccursAt(s, pat, i) == OccursAt(s[1..], pat, i - 1) {
          OccursAtTail(s, pat, i - 1);
        }
      }
      match rest
      case None => None
      case Some(k) => Some(k + 1)
  }

  /** `s.includes(pat)`: true exactly when `pat` occurs somewhere in `s`. */
  predicate Contains(s: string, pat: string): (b: bool)
    ensures b <==> exists i :: OccursAt(s, pat, i)
  {
    Find(s, pat).Some?
  }

  /**
   * `s.split(sep)` for a non-empty string separator: cuts at the leftmost
   * occurrence, then goes on after it, so occurrences do not overlap. The
   * empty string gives `[""]`.
   */
  function Split(s: string, sep: string): (parts: seq<string>)
    requires sep != []
    ensures parts != []
    ensures forall i :: 0 <= i < |parts| ==> !Contains(parts[i], sep)
    ensures Join(parts, sep) == s
    decreases |s|
  {
    match Find(s, sep)
    case None => [s]
    case Some(k) =>
      var head := s[..k];
      var tail := Split(s[k + |sep|..], sep);
      assert !Contains(head, sep) by {
        forall i | OccursAt(head, sep, i) ensures false {
          assert s[i..i + |sep|] == head[i..i + |sep|];
          assert OccursAt(s, sep, i);
        }
      }
      assert s == head + sep + s[k + |sep|..];
      [head] + tail
  }

  /**
   * No proper suffix of `x` is a proper prefix of `sep`: an occurrence of `sep`
   * cannot begin inside `x` and end inside a following `sep`.
   */
  predicate NoStraddle(x: string, sep: string)
  {
    forall k :: 0 < k < |sep| && k <= |x| ==> x[|x| - k..] != sep[..k]
  }

  /** After a part that holds no separator and cannot straddle, the next separator is found right behind it. */
  lemma {:induction false} FindAfter(x: string, sep: string, rest: string)
    requires sep != [] && !Contains(x, sep) && NoStraddle(x, sep)
    ensures Find(x + sep + rest, sep) == Some(|x|)
    decreases |x|
  {
    var s := x + sep + rest;
    if x == [] {
      assert s[..|sep|] == sep;
    } else {
      if |x| >= |sep| {
        assert s[..|sep|] == x[..|sep|];
        assert !OccursAt(x, sep, 0);
      } else {
        assert s[..|sep|][..|x|] == x;
        assert x[|x| - |x|..] == x;
      }
      assert s[1..] == x[1..] + sep + rest;
      assert !Contains(x[1..], sep) by {
        forall i | OccursAt(x[1..], sep, i) ensures false {
          OccursAtTail(x, sep, i);
        }
      }
      assert NoStraddle(x[1..], sep) by {
        forall k | 0 < k < |sep| && k <= |x[1..]| ensures x[1..][|x[1..]| - k..] != sep[..k] {
          assert x[1..][|x[1..]| - k..] == x[|x| - k..];
        }
      }
      FindAfter(x[1..], sep, rest);
    }
  }

  /** Splitting undoes joining, for parts that hold no separator and cannot straddle one. */
  lemma {:induction false} SplitJoin(parts: seq<string>, sep: string)
    requires sep != [] && parts != []
    requires forall i :: 0 <= i < |parts| ==> !Contains(parts[i], sep)
    requires forall i :: 0 <= i < |parts| - 1 ==> NoStraddle(parts[i], sep)
    ensures Split(Join(parts, sep), sep) == parts
  {
    if |parts| == 1 {
      assert Find(parts[0], sep).None?;
    } else {
      var rest := Join(parts[1..], sep);
      FindAfter(parts[0], sep, rest);
      assert (parts[0] + sep + rest)[|parts[0]| + |sep|..] == rest;
      SplitJoin(parts[1..], sep);
    }
  }

  /** The number of positions at which `pat` occurs in `s`. */
  function Occurrences(s: string, pat: string): nat
    requires pat != []
    decreases |s|
  {
    if |s| < |pat| then 0
    else (if OccursAt(s, pat, 0) then 1 else 0) + Occurrences(s[1..], pat)
  }

  /** Occurrences before index `j`, when there are none, can be cut off. */
  lemma {:induction false} OccurrencesSkip(s: string, pat: string, j: nat)
    requires pat != [] && j <= |s|
    requires forall i :: 0 <= i < j ==> !OccursAt(s, pat, i)
    ensures Occurrences(s, pat) == Occurrences(s[j..], pat)
    decreases j
  {
    if j > 0 {
      assert !OccursAt(s, pat, 0);
      forall i | 0 <= i < j - 1 ensures !OccursAt(s[1..], pat, i) {
        OccursAtTail(s, pat, i);
      }
      OccurrencesSkip(s[1..], pat, j - 1);
      assert s[1..][j - 1..] == s[j..];
    }
  }

  /** `sep` cannot overlap itself: no proper suffix of it is also a prefix of it. */
  predicate SelfDisjoint(sep: string)
  {
    forall k :: 0 < k < |sep| ==> sep[k..] != sep[..|sep| - k]
  }

  /** For a separator that cannot overlap itself, `split` yields one part more than there are separators. */
  lemma {:induction false} SplitCount(s: string, sep: string)
    requires sep != [] && SelfDisjoint(sep)
    ensures |Split(s, sep)| == Occurrences(s, sep) + 1
    decreases |s|
  {
    match Find(s, sep)
    case None =>
      OccurrencesSkip(s, sep, |s|);
    case Some(k) =>
      OccurrencesSkip(s, sep, k);
      assert OccursAt(s[k..], sep, 0);
      var after := s[k + 1..];
      NoOverlapAfter(s, sep, k, after);
      OccurrencesSkip(after, sep, |sep| - 1);
      assert s[k..][1..] == after;
      assert after[|sep| - 1..] == s[k + |sep|..];
      SplitCount(s[k + |sep|..], sep);
  }

  /** An occurrence of a separator that cannot overlap itself starts no other occurrence before its end. */
  lemma NoOverlapAfter(s: string, sep: string, k: nat, after: string)
    requires sep != [] && SelfDisjoint(sep) && OccursAt(s, sep, k) && after == s[k + 1..]
    ensures forall i :: 0 <= i < |sep| - 1 ==> !OccursAt(after, sep, i)
  {
    forall i | 0 <= i < |sep| - 1 ensures !OccursAt(after, sep, i) {
      var j := i + 1;
      assert s[k + j..k + |sep|] == sep[j..];
      assert sep[j..] != sep[..|sep| - j];
      if i + |sep| <= |after| {
        assert after[i..i + |sep|][..|sep| - j] == s[k + j..k + |sep|];
      }
    }
  }

  /** A single character is contained exactly when it is an element. */
  lemma ContainsChar(s: string, c: char)
    ensures Contains(s, [c]) <==> c in s
  {
    if c in s {
      var i :| 0 <= i < |s| && s[i] == c;
      assert OccursAt(s, [c], i);
    }
    if Contains(s, [c]) {
      var i :| OccursAt(s, [c], i);
      assert s[i] == s[i..i + 1][0];
    }
  }

  /** Splitting at a one-character separator undoes joining parts that do not hold that character. */
  lemma SplitJoinChar(parts: seq<string>, c: char)
    requires parts != []
    requires forall i :: 0 <= i < |parts| ==> c !in parts[i]
    ensures Split(Join(parts, [c]), [c]) == parts
  {
    forall i | 0 <= i < |parts| ensures !Contains(parts[i], [c]) {
      ContainsChar(parts[i], c);
    }
    SplitJoin(parts, [c]);
  }

  /** A pattern that holds a character `s` lacks does not occur in `s`. */
  lemma AbsentCharNotContained(s: string, pat: string, c: char)
    requires c in pat && c !in s
    ensures !Contains(s, pat)
  {
    var m :| 0 <= m < |pat| && pat[m] == c;
    forall i ensures !OccursAt(s, pat, i) {
      if 0 <= i && i + |pat| <= |s| {
        assert s[i..i + |pat|][m] == s[i + m] != c;
      }
    }
  }

  /** A part that lacks the separator's first character cannot straddle a separator. */
  lemma NoStraddleFirstChar(x: string, sep: string)
    requires sep != [] && sep[0] !in x
    ensures NoStraddle(x, sep)
  {
    forall k | 0 < k < |sep| && k <= |x| ensures x[|x| - k..] != sep[..k] {
      assert x[|x| - k..][0] == x[|x| - k];
    }
  }

  /** ECMAScript's WhiteSpace and LineTerminator code points: what `trim` removes. */
  predicate IsWhiteSpace(c: char)
  {
    c == '\t' || c == '\n' || c == '\U{000B}' || c == '\U{000C}' || c == '\r' || c == ' '
    || c == '\U{00A0}' || c == '\U{1680}' || ('\U{2000}' <= c <= '\U{200A}')
    || c == '\U{2028}' || c == '\U{2029}' || c == '\U{202F}' || c == '\U{205F}'
    || c == '\U{3000}' || c == '\U{FEFF}'
  }

  /** Removes the leading white space: `r` is the longest suffix of `s` that does not start with white space. */
  function TrimStart(s: string): (r: string)
    ensures |r| <= |s| && r == s[|s| - |r|..]
    ensures forall i :: 0 <= i < |s| - |r| ==> IsWhiteSpace(s[i])
    ensures r != [] ==> !IsWhiteSpace(r[0])
  {
    if s != [] && IsWhiteSpace(s[0]) then TrimStart(s[1..]) else s
  }

  /** Removes the trailing white space: `r` is the longest prefix of `s` that does not end with white space. */
  function TrimEnd(s: string): (r: string)
    ensures |r| <= |s| && r == s[..|r|]
    ensures forall i :: |r| <= i < |s| ==> IsWhiteSpace(s[i])
    ensures r != [] ==> !IsWhiteSpace(r[|r| - 1])
  {
    if s != [] && IsWhiteSpace(s[|s| - 1]) then TrimEnd(s[..|s| - 1]) else s
  }

  /** The number of white space characters `trim` removes from the front of `s`. */
  function TrimOffset(s: string): nat
  {
    |s| - |TrimStart(s)|
  }

  /** `s.trim()` */
  function Trim(s: string): string
  {
    TrimEnd(TrimStart(s))
  }

  /**
   * `trim` gives the part of `s` between its leading and its trailing white
   * space, which neither starts nor ends with white space itself.
   */
  lemma TrimSpec(s: string)
    ensures TrimOffset(s) + |Trim(s)| <= |s| && Trim(s) == s[TrimOffset(s)..TrimOffset(s) + |Trim(s)|]
    ensures forall i :: 0 <= i < TrimOffset(s) ==> IsWhiteSpace(s[i])
    ensures forall i :: TrimOffset(s) + |Trim(s)| <= i < |s| ==> IsWhiteSpace(s[i])
    ensures Trim(s) != [] ==> !IsWhiteSpace(Trim(s)[0]) && !IsWhiteSpace(Trim(s)[|Trim(s)| - 1])
  {
    TrimInside(s, TrimStart(s), Trim(s));
    TrimEnds(TrimStart(s), Trim(s));
  }

  /**
   * A prefix `r` of a suffix `t` of `s`, followed in `t` only by white space,
   * sits inside `s` right after the first `|s| - |t|` characters, and only
   * white space follows it in `s`.
   */
  lemma TrimInside(s: string, t: string, r: string)
    requires |t| <= |s| && t == s[|s| - |t|..]
    requires |r| <= |t| && r == t[..|r|]
    requires forall i :: |r| <= i < |t| ==> IsWhiteSpace(t[i])
    ensures |s| - |t| + |r| <= |s| && r == s[|s| - |t|..|s| - |t| + |r|]
    ensures forall i :: |s| - |t| + |r| <= i < |s| ==> IsWhiteSpace(s[i])
  {
    var k := |s| - |t|;
    PrefixOfSuffix(s, k, |r|);
    forall i | k + |r| <= i < |s| ensures IsWhiteSpace(s[i]) {
      assert s[i] == t[i - k];
    }
  }

  /** A prefix of a suffix is a slice. */
  lemma PrefixOfSuffix(s: string, k: nat, n: nat)
    requires k + n <= |s|
    ensures s[k..][..n] == s[k..k + n]
  {
  }

  /** Neither end of the trimmed string is white space. */
  lemma TrimEnds(t: string, r: string)
    requires t != [] ==> !IsWhiteSpace(t[0])
    requires r == TrimEnd(t)
    ensures r != [] ==> !IsWhiteSpace(r[0]) && !IsWhiteSpace(r[|r| - 1])
  {
    if r != [] {
      assert r[0] == t[0];
    }
  }

  /** A string that neither starts nor ends with white space is its own trim. */
  lemma TrimUnchanged(s: string)
    requires s != [] ==> !IsWhiteSpace(s[0]) && !IsWhiteSpace(s[|s| - 1])
    ensures Trim(s) == s
  {
    var t := TrimStart(s);
    assert t == s;
    var u := TrimEnd(t);
    assert u == t[..|u|];
  }

  /**
   * `s.slice(start, end)`: a negative index counts from the end, both are
   * clamped into `[0, |s|]`, and an empty range gives the empty string.
   */
  function Slice(s: string, start: int, end: int): (r: string)
    ensures |r| <= |s|
  {
    var from := if start < 0 then Max(|s| + start, 0) else Min(start, |s|);
    var to := if end < 0 then Max(|s| + end, 0) else Min(end, |s|);
    if from >= to then "" else s[from..to]
  }

  function Min(a: int, b: int): int { if a < b then a else b }
  function Max(a: int, b: int): int { if a < b then b else a }

  /** `slice(1, -1)` drops the first and the last character, and is empty below two characters. */
  lemma SliceInner(s: string)
    ensures |s| < 2 ==> Slice(s, 1, -1) == ""
    ensures |s| >= 2 ==> Slice(s, 1, -1) == s[1..|s| - 1] && s == [s[0]] + Slice(s, 1, -1) + [s[|s| - 1]]
  {
  }

  /** `slice(1, -1)` takes off one character put on each side. */
  lemma SliceUnwrap(open: char, u: string, close: char)
    ensures Slice([open] + u + [close], 1, -1) == u
  {
    var s := [open] + u + [close];
    assert s[1..|s| - 1] == u;
  }

  predicate IsDigit(c: char)
  {
    '0' <= c <= '9'
  }

  function DigitChar(d: nat): (c: char)
    requires d < 10
    ensures IsDigit(c)
  {
    ('0' as int + d) as char
  }

  /** The number a string of decimal digits denotes. */
  function DigitsValue(s: string): nat
    requires forall i :: 0 <= i < |s| ==> IsDigit(s[i])
  {
    if s == [] then 0
    else
      var last := s[|s| - 1];
      assert IsDigit(last);
      DigitsValue(s[..|s| - 1]) * 10 + (last as int - '0' as int)
  }

  /** A decimal rendering as JavaScript prints it: digits only, without a leading zero unless it is `0` itself. */
  predicate Canonical(s: string)
  {
    s != [] && (forall i :: 0 <= i < |s| ==> IsDigit(s[i])) && (s[0] == '0' ==> s == "0")
  }

  /** The decimal rendering of a natural number: the canonical digit string denoting `n`. */
  function NatToString(n: nat): (r: string)
    ensures Canonical(r) && DigitsValue(r) == n
    decreases n
  {
    if n < 10 then [DigitChar(n)]
    else
      var front := NatToString(n / 10);
      var r := front + [DigitChar(n % 10)];
      assert r[..|r| - 1] == front;
      r
  }

  /**
   * The decimal rendering of an integer, as a template literal prints an
   * integral number: a negative number is `-` and the canonical rendering of
   * its magnitude, any other number its canonical rendering.
   */
  function IntToString(n: int): (r: string)
    ensures r != [] && (r[0] == '-' <==> n < 0)
    ensures n >= 0 ==> Canonical(r) && DigitsValue(r) == n
    ensures n < 0 ==> Canonical(r[1..]) && DigitsValue(r[1..]) == -n
  {
    if n < 0 then
      var digits := NatToString(-n);
      var r := "-" + digits;
      assert r[1..] == digits;
      r
    else NatToString(n)
  }

  /** A digit string that starts with a non-zero digit denotes a positive number. */
  lemma {:induction false} LeadingDigitPositive(s: string)
    requires s != [] && (forall i :: 0 <= i < |s| ==> IsDigit(s[i])) && s[0] != '0'
    ensures DigitsValue(s) > 0
  {
    if |s| > 1 {
      LeadingDigitPositive(s[..|s| - 1]);
    }
  }

  /** Appending a digit multiplies by ten and adds it, so both parts can be read back. */
  lemma DivModTen(a: nat, d: nat)
    requires d < 10
    ensures (a * 10 + d) / 10 == a && (a * 10 + d) % 10 == d
  {
  }

  /**
   * Only one canonical digit string denotes a given number, so the contracts
   * of `NatToString` and `IntToString` fix the text that is printed.
   */
  lemma {:induction false} CanonicalUnique(s: string, t: string)
    requires Canonical(s) && Canonical(t) && DigitsValue(s) == DigitsValue(t)
    ensures s == t
    decreases |s| + |t|
  {
    if |s| == 1 && |t| == 1 {
    } else if |s| == 1 {
      CanonicalLonger(t, s);
    } else if |t| == 1 {
      CanonicalLonger(s, t);
    } else {
      var fs, ft := s[..|s| - 1], t[..|t| - 1];
      var ds, dt := s[|s| - 1] as int - '0' as int, t[|t| - 1] as int - '0' as int;
      assert DigitsValue(s) == DigitsValue(fs) * 10 + ds;
      assert DigitsValue(t) == DigitsValue(ft) * 10 + dt;
      DivModTen(DigitsValue(fs), ds);
      DivModTen(DigitsValue(ft), dt);
      assert fs[0] == s[0] && ft[0] == t[0];
      CanonicalUnique(fs, ft);
    }
  }

  /** A canonical string of several digits denotes more than any single digit does. */
  lemma CanonicalLonger(long: string, short: string)
    requires Canonical(long) && Canonical(short) && |long| > 1 && |short| == 1
    ensures DigitsValue(long) != DigitsValue(short)
  {
    var front := long[..|long| - 1];
    assert front[0] == long[0];
    LeadingDigitPositive(front);
    assert DigitsValue(long) == DigitsValue(front) * 10 + (long[|long| - 1] as int - '0' as int);
    assert DigitsValue(short) == DigitsValue(short[..0]) * 10 + (short[0] as int - '0' as int);
  }
}
