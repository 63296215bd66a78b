/**
 * The first and second pieces of `s.split(sep)`, located by position in `s`:
 * the first piece runs up to the first separator, the second starts right
 * after it and runs up to the next one.
 */
module SplitPieces {
  import opened Wrappers
  import opened Strings

  /** An occurrence inside an occurrence is an occurrence in the whole string. */
  lemma OccursWithin(s: string, k: nat, p: string, t: string, i: nat)
    requires OccursAt(s, p, k) && OccursAt(p, t, i)
    ensures OccursAt(s, t, k + i)
  {
    forall m | 0 <= m < |t| ensures s[k + i + m] == t[m] {
      assert p[i + m] == s[k..k + |p|][i + m] == s[k + i + m];
      assert t[m] == p[i..i + |t|][m];
    }
    assert s[k + i..k + i + |t|] == t;
  }

  /** An occurrence in the suffix `s[k..]` is an occurrence in `s`, shifted by `k`, and back. */
  lemma OccursInSuffix(s: string, k: nat, t: string, i: nat)
    requires k <= |s|
    ensures OccursAt(s[k..], t, i) <==> OccursAt(s, t, k + i)
  {
    if i + |t| <= |s| - k {
      assert s[k..][i..i + |t|] == s[k + i..k + i + |t|];
    }
  }

  lemma NoSubstringInPrefix(s: string, n: nat, t: string)
    requires n <= |s| && !Contains(s, t)
    ensures !Contains(s[..n], t)
  {
    forall j | OccursAt(s[..n], t, j) ensures OccursAt(s, t, j) {
      assert s[..n][j..j + |t|] == s[j..j + |t|];
    }
  }

  /** `t.split(sep)[0]`: `t` up to its first `sep`, or all of `t` when it has none. */
  function Before(t: string, sep: string): (r: string)
    requires sep != []
    ensures OccursAt(t, r, 0) && !Contains(r, sep)
    ensures |r| == |t| || OccursAt(t, sep, |r|)
  {
    match Find(t, sep)
    case None =>
      assert t[0..|t|] == t;
      t
    case Some(j) =>
      PrefixHasNoEarlierOccurrence(t, sep, j);
      t[..j]
  }

  lemma BeforeIsFirstPiece(t: string, sep: string)
    requires sep != []
    ensures Before(t, sep) == Split(t, sep)[0]
  {
  }

  /** `s.split(sep)[1]` for an `s` that holds `sep`: the text after the first `sep`, up to the next one or the end. */
  function After(s: string, sep: string): (r: string)
    requires sep != [] && Contains(s, sep)
    ensures OccursAt(s, r, Find(s, sep).value + |sep|) && !Contains(r, sep)
  {
    var k := Find(s, sep).value + |sep|;
    var r := Before(s[k..], sep);
    OccursInSuffix(s, k, r, 0);
    r
  }

  /** After is the first piece of the text from `k`, right after the first `sep`. */
  lemma {:induction false} AfterAt(s: string, sep: string, k: nat)
    requires sep != [] && Contains(s, sep) && k == Find(s, sep).value + |sep|
    ensures After(s, sep) == Before(s[k..], sep)
  {
  }

  lemma AfterIsSecondPiece(s: string, sep: string)
    requires sep != [] && Contains(s, sep)
    ensures After(s, sep) == Split(s, sep)[1]
  {
    var i := Find(s, sep).value;
    var rest := s[i + |sep|..];
    assert Split(s, sep) == [s[..i]] + Split(rest, sep);
    BeforeIsFirstPiece(rest, sep);
  }

  /**
   * `s.split(sep)[1].split(term)[0]`: the text right after the first `sep`,
   * stopping at the first `term` or at the next `sep`, whichever comes first.
   */
  function TextAfter(s: string, sep: string, term: string): (r: string)
    requires sep != [] && term != [] && Contains(s, sep)
    ensures !Contains(r, term) && !Contains(r, sep)
  {
    var p := After(s, sep);
    var r := Before(p, term);
    NoSubstringInPrefix(p, |r|, sep);
    assert p[..|r|] == r by {
      assert p[0..|r|] == p[..|r|];
    }
    r
  }

  /** The text `r` after `sep` sits in `s` at `k`, right after the first `sep`. */
  lemma TextAfterPosition(s: string, sep: string, term: string, k: nat, r: string)
    requires sep != [] && term != [] && Contains(s, sep)
    requires k == Find(s, sep).value + |sep| && r == TextAfter(s, sep, term)
    ensures OccursAt(s, r, k)
  {
    var p := After(s, sep);
    assert r == Before(p, term);
    OccursWithin(s, k, p, r, 0);
  }

  /**
   * In the text `t` that follows the first `sep`, the piece `r` is followed by
   * the end of `t`, by `term` or by the next `sep`.
   */
  lemma TextAfterStops(s: string, sep: string, term: string, k: nat, t: string, r: string)
    requires sep != [] && term != [] && Contains(s, sep)
    requires k == Find(s, sep).value + |sep| && t == s[k..] && r == TextAfter(s, sep, term)
    ensures |r| == |t| || OccursAt(t, term, |r|) || OccursAt(t, sep, |r|)
  {
    var p := After(s, sep);
    assert r == Before(p, term);
    OccursInSuffix(s, k, p, 0);
    if |r| < |p| {
      OccursWithin(t, 0, p, term, |r|);
    } else {
      AfterAt(s, sep, k);
      assert p == Before(t, sep);
      assert |p| == |t| || OccursAt(t, sep, |p|);
    }
  }

  /** The same stop, located in `s`: the piece ends at the end of `s`, or `s` goes on with `term` or `sep`. */
  lemma TextAfterEnds(s: string, sep: string, term: string, k: nat, r: string, e: nat)
    requires sep != [] && term != [] && Contains(s, sep)
    requires k == Find(s, sep).value + |sep| && r == TextAfter(s, sep, term) && e == k + |r|
    ensures e <= |s|
    ensures e == |s| || StartsWith(s[e..], term) || StartsWith(s[e..], sep)
  {
    TextAfterPosition(s, sep, term, k, r);
    TextAfterStops(s, sep, term, k, s[k..], r);
    StopInWhole(s, k, r, term, sep);
  }

  /** A stop found in the suffix `s[k..]` is a stop in `s`. */
  lemma StopInWhole(s: string, k: nat, r: string, term: string, sep: string)
    requires k + |r| <= |s|
    requires |r| == |s[k..]| || OccursAt(s[k..], term, |r|) || OccursAt(s[k..], sep, |r|)
    ensures k + |r| == |s| || StartsWith(s[k + |r|..], term) || StartsWith(s[k + |r|..], sep)
  {
    if OccursAt(s[k..], term, |r|) {
      assert s[k..][|r|..|r| + |term|] == s[k + |r|..][..|term|];
    } else if OccursAt(s[k..], sep, |r|) {
      assert s[k..][|r|..|r| + |sep|] == s[k + |r|..][..|sep|];
    }
  }

  lemma TextAfterIsSplitPieces(s: string, sep: string, term: string)
    requires sep != [] && term != [] && Contains(s, sep)
    ensures TextAfter(s, sep, term) == Split(Split(s, sep)[1], term)[0]
  {
    AfterIsSecondPiece(s, sep);
    BeforeIsFirstPiece(After(s, sep), term);
  }
}
