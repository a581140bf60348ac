/**
 * The string normalisations the service applies to exercise names and set
 * notes: trimming surrounding white space (Go's `strings.TrimSpace`, Rust's
 * `str::trim`) and lower-casing (SQLite's `LOWER`, which folds ASCII only).
 * Only the ASCII white-space characters are modelled.
 */
module Text {

  /** ASCII white space: tab, line feed, vertical tab, form feed, carriage return, space. */
  predicate IsSpace(c: char) {
    c == ' ' || c == '\t' || c == '\n' || c == '\r' || c == '\U{0B}' || c == '\U{0C}'
  }

  /** Every character of `s` is white space. */
  predicate AllSpace(s: string) {
    forall i | 0 <= i < |s| :: IsSpace(s[i])
  }

  /** Drops the white space at the start of `s`. */
  function TrimLeft(s: string): (r: string)
    ensures |r| <= |s| && r == s[|s| - |r|..]
    ensures AllSpace(s[..|s| - |r|])
    ensures r == [] || !IsSpace(r[0])
  {
    if |s| > 0 && IsSpace(s[0]) then TrimLeft(s[1..]) else s
  }

  /** Drops the white space at the end of `s`. */
  function TrimRight(s: string): (r: string)
    ensures |r| <= |s| && r == s[..|r|]
    ensures AllSpace(s[|r|..])
    ensures r == [] || !IsSpace(r[|r| - 1])
  {
    if |s| > 0 && IsSpace(s[|s| - 1]) then
      var r := TrimRight(s[..|s| - 1]);
      assert s[|r|..] == s[..|s| - 1][|r|..] + [s[|s| - 1]];
      r
    else s
  }

  /**
   * `s` without its leading and trailing white space: a contiguous slice of
   * `s` that neither starts nor ends with white space, and only white space
   * was cut away around it.
   */
  function TrimSpace(s: string): (r: string)
    ensures exists i, j | 0 <= i <= j <= |s| :: r == s[i..j] && AllSpace(s[..i]) && AllSpace(s[j..])
    ensures r == [] || (!IsSpace(r[0]) && !IsSpace(r[|r| - 1]))
  {
    var l := TrimLeft(s);
    var i := |s| - |l|;
    TrimRightOfSuffix(s, i, l);
    TrimRight(l)
  }

  /**
   * Trimming the right end of the suffix `l == s[i..]` leaves a slice
   * `s[i..j]` with white space only before and after it.
   */
  lemma TrimRightOfSuffix(s: string, i: int, l: string)
    requires 0 <= i <= |s| && l == s[i..] && AllSpace(s[..i])
    ensures var j := i + |TrimRight(l)|;
      j <= |s| && TrimRight(l) == s[i..j] && AllSpace(s[..i]) && AllSpace(s[j..])
  {
    var r := TrimRight(l);
    var j := i + |r|;
    assert r == l[..|r|];
    assert l[..|r|] == s[i..j];
    forall k | 0 <= k < |s| - j ensures IsSpace(s[j..][k]) {
      assert s[j..][k] == l[|r|..][k];
    }
  }

  /** Trimming `s` surrounded by white space gives what trimming `s` gives. */
  lemma {:induction false} TrimLeftPadding(p: string, s: string)
    requires AllSpace(p)
    ensures TrimLeft(p + s) == TrimLeft(s)
    decreases |p|
  {
    if |p| > 0 {
      assert (p + s)[0] == p[0];
      assert (p + s)[1..] == p[1..] + s;
      assert TrimLeft(p + s) == TrimLeft(p[1..] + s);
      TrimLeftPadding(p[1..], s);
    } else {
      assert p + s == s;
    }
  }

  lemma {:induction false} TrimRightPadding(s: string, q: string)
    requires AllSpace(q)
    ensures TrimRight(s + q) == TrimRight(s)
    decreases |q|
  {
    if |q| > 0 {
      assert (s + q)[|s + q| - 1] == q[|q| - 1];
      assert (s + q)[..|s + q| - 1] == s + q[..|q| - 1];
      assert TrimRight(s + q) == TrimRight(s + q[..|q| - 1]);
      TrimRightPadding(s, q[..|q| - 1]);
    } else {
      assert s + q == s;
    }
  }

  /** TrimLeft keeps a trailing run of white space, so TrimRight can still cut it. */
  lemma {:induction false} TrimLeftSuffix(s: string, q: string)
    requires AllSpace(q)
    ensures TrimLeft(s + q) == TrimLeft(s) + q || (TrimLeft(s) == [] && TrimLeft(s + q) == [])
    decreases |s|
  {
    if |s| > 0 {
      assert (s + q)[0] == s[0];
      if IsSpace(s[0]) {
        assert (s + q)[1..] == s[1..] + q;
        TrimLeftSuffix(s[1..], q);
      }
    } else {
      assert s + q == q;
      TrimLeftPadding(q, []);
      assert q + [] == q;
    }
  }

  /** Leading and trailing white space does not change the trimmed string. */
  lemma TrimSpacePadding(p: string, s: string, q: string)
    requires AllSpace(p) && AllSpace(q)
    ensures TrimSpace(p + s + q) == TrimSpace(s)
  {
    assert p + s + q == p + (s + q);
    TrimLeftPadding(p, s + q);
    TrimLeftSuffix(s, q);
    if TrimLeft(s + q) == TrimLeft(s) + q {
      TrimRightPadding(TrimLeft(s), q);
    }
  }

  /** A string that neither starts nor ends with white space is left as it is. */
  lemma TrimSpaceUnpadded(s: string)
    requires s == [] || (!IsSpace(s[0]) && !IsSpace(s[|s| - 1]))
    ensures TrimSpace(s) == s
  {
    var i, j :| 0 <= i <= j <= |s| && TrimSpace(s) == s[i..j] && AllSpace(s[..i]) && AllSpace(s[j..]);
    if i > 0 {
      assert s[..i][0] == s[0];
    }
    if j < |s| {
      assert s[j..][|s| - 1 - j] == s[|s| - 1];
    }
    assert s[0..|s|] == s;
  }

  /** Trimming twice is trimming once. */
  lemma TrimSpaceIdempotent(s: string)
    ensures TrimSpace(TrimSpace(s)) == TrimSpace(s)
  {
    var t := TrimSpace(s);
    assert TrimLeft(t) == t;
    assert TrimRight(t) == t;
  }

  /** ASCII lower-casing of one character. */
  function LowerChar(c: char): (r: char)
    ensures 'A' <= c <= 'Z' ==> r as int == c as int + 32
    ensures !('A' <= c <= 'Z') ==> r == c
  {
    if 'A' <= c <= 'Z' then (c as int + 32) as char else c
  }

  /** SQLite's `LOWER`: ASCII upper-case letters become lower-case, nothing else changes. */
  function Lower(s: string): (r: string)
    ensures |r| == |s| && forall i | 0 <= i < |s| :: r[i] == LowerChar(s[i])
  {
    seq(|s|, i requires 0 <= i < |s| => LowerChar(s[i]))
  }

  /** Lower-casing an already lower-cased string changes nothing. */
  lemma LowerIdempotent(s: string)
    ensures Lower(Lower(s)) == Lower(s)
  {
  }

  /** Lower-casing keeps white space where it is, so it commutes with trimming. */
  lemma {:induction false} LowerTrimLeft(s: string)
    ensures Lower(TrimLeft(s)) == TrimLeft(Lower(s))
    decreases |s|
  {
    if |s| > 0 {
      var ls := Lower(s);
      assert ls[0] == LowerChar(s[0]);
      assert IsSpace(ls[0]) == IsSpace(s[0]);
      if IsSpace(s[0]) {
        assert ls[1..] == Lower(s[1..]);
        LowerTrimLeft(s[1..]);
      }
    }
  }

  lemma {:induction false} LowerTrimRight(s: string)
    ensures Lower(TrimRight(s)) == TrimRight(Lower(s))
    decreases |s|
  {
    if |s| > 0 {
      var ls := Lower(s);
      assert ls[|s| - 1] == LowerChar(s[|s| - 1]);
      assert IsSpace(ls[|s| - 1]) == IsSpace(s[|s| - 1]);
      if IsSpace(s[|s| - 1]) {
        assert ls[..|s| - 1] == Lower(s[..|s| - 1]);
        LowerTrimRight(s[..|s| - 1]);
      }
    }
  }

  /** A character lowers to white space exactly when it is white space. */
  lemma LowerCharKeepsSpace(c: char)
    ensures IsSpace(LowerChar(c)) <==> IsSpace(c)
  {
  }

  /** Lower-casing keeps white space: a padded string never lowers to the lowered form of a trimmed one. */
  lemma PaddedNeverLowersToTrimmed(n: string, p: string, s: string, q: string)
    requires TrimSpace(n) == n && AllSpace(p) && AllSpace(q) && p + q != []
    ensures Lower(n) != Lower(p + s + q)
  {
    var padded := p + s + q;
    var ln, lp := Lower(n), Lower(padded);
    if |n| == |padded| {
      var k := if p != [] then 0 else |padded| - 1;
      assert IsSpace(padded[k]);
      assert !IsSpace(n[k]);
      LowerCharKeepsSpace(n[k]);
      LowerCharKeepsSpace(padded[k]);
      assert ln[k] != lp[k];
    }
  }

  lemma LowerTrimSpace(s: string)
    ensures Lower(TrimSpace(s)) == TrimSpace(Lower(s))
  {
    LowerTrimLeft(s);
    LowerTrimRight(TrimLeft(s));
  }
}
