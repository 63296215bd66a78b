/**
 * The Python string built-ins the modelled code relies on: substring search
 * (`t in s`, `str.find`), `str.split(sep)`, `str.join`, `strip`/`rstrip`,
 * `startswith`/`endswith`, slicing, and decimal formatting of integers.
 */
module Strings {
  import opened Wrappers

  /** Python's `str.isspace` for one character (every code point it accepts). */
  predicate IsSpace(c: char) {
    c == ' ' || ('\t' <= c <= '\r') || ('\U{1c}' <= c <= '\U{1f}')
    || c == '\U{85}' || c == '\U{a0}' || c == '\U{1680}' || ('\U{2000}' <= c <= '\U{200a}')
    || c == '\U{2028}' || c == '\U{2029}' || c == '\U{202f}' || c == '\U{205f}' || c == '\U{3000}'
  }

  predicate IsDigit(c: char) {
    '0' <= c <= '9'
  }

  predicate AllDigits(s: string) {
    forall i :: 0 <= i < |s| ==> IsDigit(s[i])
  }

  predicate StartsWith(s: string, p: string) {
    |p| <= |s| && s[..|p|] == p
  }

  predicate EndsWith(s: string, p: string) {
    |p| <= |s| && s[|s| - |p|..] == p
  }

  /** Python's slice `s[:n]` for a non-negative bound. */
  function Take<T>(s: seq<T>, n: nat): (r: seq<T>)
    ensures |r| <= n && |r| <= |s| && r == s[..|r|]
    ensures |s| <= n ==> r == s
    ensures n <= |s| ==> |r| == n
  {
    if |s| <= n then s else s[..n]
  }

  // ---------------------------------------------------------------------------
  // Substring search

  /** `t` occurs in `s` starting at index `j`. */
  ghost predicate OccursAt(s: string, t: string, j: int) {
    0 <= j && j + |t| <= |s| && s[j..j + |t|] == t
  }

  /** Python's `t in s`: `t` occurs somewhere in `s`. */
  ghost predicate Contains(s: string, t: string) {
    exists j :: OccursAt(s, t, j)
  }

  lemma OccursAtTail(s: string, t: string, j: int)
    requires |s| > 0 && j >= 0
    ensures OccursAt(s[1..], t, j) <==> OccursAt(s, t, j + 1)
  {
    if 0 <= j && j + |t| <= |s| - 1 {
      assert s[1..][j..j + |t|] == s[j + 1..j + 1 + |t|];
    }
  }

  /** The index of the first occurrence of `t` in `s`; `None` where Python's `str.find` gives -1. */
  function Find(s: string, t: string): (r: Option<nat>)
    ensures r.Some? ==> OccursAt(s, t, r.value)
    ensures r.Some? ==> forall j :: 0 <= j < r.value ==> !OccursAt(s, t, j)
    ensures r.None? <==> !Contains(s, t)
    decreases |s|
  {
    if |s| < |t| then
      None
    else if s[..|t|] == t then
      assert OccursAt(s, t, 0);
      Some(0)
    else
      var rest := Find(s[1..], t);
      assert forall j :: j >= 0 ==> (OccursAt(s[1..], t, j) <==> OccursAt(s, t, j + 1)) by {
        forall j | j >= 0 ensures OccursAt(s[1..], t, j) <==> OccursAt(s, t, j + 1) {
          OccursAtTail(s, t, j);
        }
      }
      assert !OccursAt(s, t, 0);
      match rest
      case None =>
        assert forall j :: !OccursAt(s, t, j) by {
          forall j ensures !OccursAt(s, t, j) {
            if j >= 1 { assert !OccursAt(s[1..], t, j - 1); }
          }
        }
        None
      case Some(i) =>
        assert forall j :: 0 <= j < i + 1 ==> !OccursAt(s, t, j) by {
          forall j | 0 <= j < i + 1 ensures !OccursAt(s, t, j) {
            if j >= 1 { assert !OccursAt(s[1..], t, j - 1); }
          }
        }
        Some(i + 1)
  }

  /** Python's `t in s`. */
  function In(s: string, t: string): (r: bool)
    ensures r <==> Contains(s, t)
  {
    Find(s, t).Some?
  }

  lemma ContainsChar(s: string, c: char)
    ensures Contains(s, [c]) <==> c in s
  {
    if c in s {
      var j :| 0 <= j < |s| && s[j] == c;
      assert OccursAt(s, [c], j);
    }
    if Contains(s, [c]) {
      var j :| OccursAt(s, [c], j);
      assert s[j] == c;
    }
  }

  /** The first occurrence of a one-character separator is the first position holding that character. */
  lemma FindFirstChar(a: string, c: char, b: string)
    requires c !in a
    ensures Find(a + [c] + b, [c]) == Some(|a|)
  {
    var s := a + [c] + b;
    assert OccursAt(s, [c], |a|);
    var r := Find(s, [c]);
    assert r.Some?;
    forall j | 0 <= j < |a| ensures !OccursAt(s, [c], j) {
      assert s[j] == a[j];
    }
  }

  // ---------------------------------------------------------------------------
  // split / join

  /** Python's `sep.join(parts)`. */
  function Join(parts: seq<string>, sep: string): string {
    if |parts| == 0 then "" else if |parts| == 1 then parts[0] else parts[0] + sep + Join(parts[1..], sep)
  }

  lemma PrefixHasNoEarlierOccurrence(s: string, t: string, i: nat)
    requires t != [] && i <= |s|
    requires forall j :: 0 <= j < i ==> !OccursAt(s, t, j)
    ensures !Contains(s[..i], t)
  {
    forall j | OccursAt(s[..i], t, j) ensures OccursAt(s, t, j) {
      assert s[..i][j..j + |t|] == s[j..j + |t|];
    }
  }

  /**
   * Python's `s.split(sep)` for a non-empty separator: the pieces between
   * successive non-overlapping occurrences, scanning from the left.
   */
  function Split(s: string, sep: string): (r: seq<string>)
    requires sep != []
    ensures |r| >= 1
    ensures Contains(s, sep) <==> |r| >= 2
    decreases |s|
  {
    match Find(s, sep)
    case None => [s]
    case Some(i) => [s[..i]] + Split(s[i + |sep|..], sep)
  }

  /** Joining the pieces of a split with the separator gives back the string, and no piece holds the separator. */
  lemma {:induction false} SplitRejoins(s: string, sep: string)
    requires sep != []
    ensures Join(Split(s, sep), sep) == s
    ensures forall i :: 0 <= i < |Split(s, sep)| ==> !Contains(Split(s, sep)[i], sep)
    decreases |s|
  {
    var f := Find(s, sep);
    if f.Some? {
      var i := f.value;
      var head, tail := s[..i], s[i + |sep|..];
      var rest := Split(tail, sep);
      var r := Split(s, sep);
      assert r == [head] + rest;
      SplitRejoins(tail, sep);
      PrefixHasNoEarlierOccurrence(s, sep, i);
      assert Join(r, sep) == head + sep + Join(rest, sep) by {
        assert r[1..] == rest;
      }
      assert s == head + sep + tail by {
        assert s[i..i + |sep|] == sep;
        assert s == s[..i] + s[i..i + |sep|] + s[i + |sep|..];
      }
      forall j | 0 <= j < |r| ensures !Contains(r[j], sep) {
        if j > 0 {
          assert r[j] == rest[j - 1];
        }
      }
    }
  }

  /** Splitting on a one-character separator undoes joining pieces that do not contain it. */
  lemma {:induction false} SplitJoin(parts: seq<string>, c: char)
    requires |parts| >= 1
    requires forall i :: 0 <= i < |parts| ==> c !in parts[i]
    ensures Split(Join(parts, [c]), [c]) == parts
  {
    if |parts| == 1 {
      ContainsChar(parts[0], c);
      assert Find(parts[0], [c]).None?;
    } else {
      var head, tail := parts[0], Join(parts[1..], [c]);
      var s := head + [c] + tail;
      assert Join(parts, [c]) == s;
      assert Split(s, [c]) == [head] + Split(tail, [c]) by {
        FindFirstChar(head, c, tail);
        assert s[..|head|] == head && s[|head| + 1..] == tail;
      }
      SplitJoin(parts[1..], c);
      assert parts == [head] + parts[1..];
    }
  }

  function Last<T>(s: seq<T>): T
    requires |s| > 0
  {
    s[|s| - 1]
  }

  lemma EndsWithExtend(a: string, b: string, x: string)
    requires EndsWith(b, x)
    ensures EndsWith(a + b, x)
  {
    assert (a + b)[|a + b| - |x|..] == b[|b| - |x|..];
  }

  lemma EndsWithPair(a: string, b: string, c: string)
    ensures EndsWith(a + b + c, b + c)
  {
    assert (a + b + c)[|a|..] == b + c;
  }

  /** The last piece of a split is a suffix of the input. */
  lemma {:induction false} LastPieceIsSuffix(parts: seq<string>, sep: string)
    requires |parts| >= 1
    ensures EndsWith(Join(parts, sep), Last(parts))
    ensures |parts| >= 2 ==> EndsWith(Join(parts, sep), sep + Last(parts))
  {
    if |parts| >= 2 {
      var head, tail, last := parts[0] + sep, parts[1..], Last(parts);
      var rest := Join(tail, sep);
      assert Join(parts, sep) == head + rest;
      assert Last(tail) == last;
      assert EndsWith(rest, last) by {
        LastPieceIsSuffix(tail, sep);
      }
      EndsWithExtend(head, rest, last);
      if |tail| == 1 {
        assert rest == last;
        EndsWithPair(parts[0], sep, last);
      } else {
        assert EndsWith(rest, sep + last) by {
          LastPieceIsSuffix(tail, sep);
        }
        EndsWithExtend(head, rest, sep + last);
      }
    }
  }

  // ---------------------------------------------------------------------------
  // strip

  /** Python's `s.lstrip()`. */
  function LStrip(s: string): (r: string)
    ensures |r| <= |s| && r == s[|s| - |r|..]
    ensures forall i :: 0 <= i < |s| - |r| ==> IsSpace(s[i])
    ensures r == [] || !IsSpace(r[0])
  {
    if s != [] && IsSpace(s[0]) then LStrip(s[1..]) else s
  }

  /** Python's `s.rstrip()`. */
  function RStrip(s: string): (r: string)
    ensures |r| <= |s| && r == s[..|r|]
    ensures forall i :: |r| <= i < |s| ==> IsSpace(s[i])
    ensures r == [] || !IsSpace(r[|r| - 1])
  {
    if s != [] && IsSpace(s[|s| - 1]) then RStrip(s[..|s| - 1]) else s
  }

  /** Python's `s.strip()`. */
  function Strip(s: string): string {
    RStrip(LStrip(s))
  }

  /** Left-stripping a string that does not start with whitespace changes nothing. */
  lemma LStripUnchanged(s: string)
    requires s == [] || !IsSpace(s[0])
    ensures LStrip(s) == s
  {
  }

  /** Right-stripping drops a final newline and stops at the last non-space character before it. */
  lemma RStripDropsNewline(body: string)
    requires body != [] && !IsSpace(body[|body| - 1])
    ensures RStrip(body + "\n") == body
  {
    var s := body + "\n";
    assert s[|s| - 1] == '\n' && s[..|s| - 1] == body;
    assert RStrip(body) == body;
  }

  /** A stripped string keeps every non-space character of the input in place. */
  lemma StripKeeps(s: string, c: char)
    requires c in s && !IsSpace(c)
    ensures c in Strip(s)
  {
    var i :| 0 <= i < |s| && s[i] == c;
    var k := LStripKeeps(s, i);
    RStripKeeps(LStrip(s), k);
    assert RStrip(LStrip(s))[k] == c;
  }

  /** Left-stripping keeps a non-space character, shifted by the number of spaces removed. */
  lemma {:induction false} LStripKeeps(s: string, i: nat) returns (k: nat)
    requires i < |s| && !IsSpace(s[i])
    ensures k <= i && k < |LStrip(s)| && LStrip(s)[k] == s[i]
    decreases |s|
  {
    if IsSpace(s[0]) {
      var t := s[1..];
      assert i >= 1 && t[i - 1] == s[i];
      assert LStrip(s) == LStrip(t);
      k := LStripKeeps(t, i - 1);
    } else {
      assert LStrip(s) == s;
      k := i;
    }
  }

  /** Right-stripping keeps a non-space character in place. */
  lemma {:induction false} RStripKeeps(s: string, k: nat)
    requires k < |s| && !IsSpace(s[k])
    ensures k < |RStrip(s)| && RStrip(s)[k] == s[k]
    decreases |s|
  {
    if IsSpace(s[|s| - 1]) {
      var t := s[..|s| - 1];
      assert k < |t| && t[k] == s[k];
      assert RStrip(s) == RStrip(t);
      RStripKeeps(t, k);
    }
  }

  lemma StripIdempotent(s: string)
    ensures Strip(Strip(s)) == Strip(s)
  {
    var r := Strip(s);
    assert r == [] || !IsSpace(r[0]) by {
      var l := LStrip(s);
      if r != [] { assert r[0] == l[0]; }
    }
    assert LStrip(r) == r;
  }

  // ---------------------------------------------------------------------------
  // Decimal numerals

  function DigitChar(d: nat): (c: char)
    requires d < 10
    ensures IsDigit(c)
  {
    "0123456789"[d]
  }

  function DigitValue(c: char): nat
    requires IsDigit(c)
  {
    c as int - '0' as int
  }

  /** Python's `str(n)` for a non-negative integer. */
  function Decimal(n: nat): (r: string)
    ensures |r| >= 1 && AllDigits(r)
  {
    if n < 10 then [DigitChar(n)] else Decimal(n / 10) + [DigitChar(n % 10)]
  }

  /** Python's `int(s)` for a string of ASCII digits (leading zeros allowed). */
  function ParseDecimal(s: string): nat
    requires AllDigits(s)
  {
    if s == [] then 0 else ParseDecimal(s[..|s| - 1]) * 10 + DigitValue(s[|s| - 1])
  }

  lemma {:induction false} DecimalRoundTrip(n: nat)
    ensures ParseDecimal(Decimal(n)) == n
  {
    var r := Decimal(n);
    if n < 10 {
      assert r[..0] == [];
    } else {
      assert r[..|r| - 1] == Decimal(n / 10);
      DecimalRoundTrip(n / 10);
    }
  }

  lemma DecimalInjective(m: nat, n: nat)
    requires Decimal(m) == Decimal(n)
    ensures m == n
  {
    DecimalRoundTrip(m);
    DecimalRoundTrip(n);
  }

  // ---------------------------------------------------------------------------
  // Ordering

  /** Python's `a <= b` on strings: lexicographic by code point. */
  predicate LessOrEqual(a: string, b: string) {
    a == [] || (b != [] && (a[0] < b[0] || (a[0] == b[0] && LessOrEqual(a[1..], b[1..]))))
  }

  lemma {:induction false} LessOrEqualTotal(a: string, b: string)
    ensures LessOrEqual(a, b) || LessOrEqual(b, a)
  {
    if a != [] && b != [] && a[0] == b[0] {
      LessOrEqualTotal(a[1..], b[1..]);
    }
  }

  lemma {:induction false} LessOrEqualTransitive(a: string, b: string, c: string)
    requires LessOrEqual(a, b) && LessOrEqual(b, c)
    ensures LessOrEqual(a, c)
  {
    if a != [] && b != [] && c != [] && a[0] == b[0] == c[0] {
      LessOrEqualTransitive(a[1..], b[1..], c[1..]);
    }
  }
}
