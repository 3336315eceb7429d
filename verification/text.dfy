/**
 * Character and string notions the service relies on: ASCII digits for the
 * phone-number pattern, the byte-wise (code point) ordering SQLite uses to
 * compare TEXT columns, and the SQL LIKE matcher behind the `q` filter.
 */
module Text {

  predicate IsAsciiDigit(c: char) {
    '0' <= c <= '9'
  }

  predicate IsAsciiChar(c: char) {
    (c as int) < 128
  }

  predicate IsAscii(s: string) {
    forall i :: 0 <= i < |s| ==> IsAsciiChar(s[i])
  }

  // ---------------------------------------------------------------------------
  // Lexicographic order on code points. SQLite's default BINARY collation
  // compares the UTF-8 encodings byte by byte, which orders strings exactly as
  // their code point sequences; a proper prefix sorts first.
  // ---------------------------------------------------------------------------

  predicate LexLess(a: string, b: string)
  {
    if |a| == 0 then |b| > 0
    else if |b| == 0 then false
    else a[0] < b[0] || (a[0] == b[0] && LexLess(a[1..], b[1..]))
  }

  lemma {:induction false} LexLessIrreflexive(a: string)
    ensures !LexLess(a, a)
  {
    if |a| > 0 {
      LexLessIrreflexive(a[1..]);
    }
  }

  lemma {:induction false} LexLessTransitive(a: string, b: string, c: string)
    requires LexLess(a, b) && LexLess(b, c)
    ensures LexLess(a, c)
  {
    if |a| > 0 && |b| > 0 && |c| > 0 && a[0] == b[0] && b[0] == c[0] {
      LexLessTransitive(a[1..], b[1..], c[1..]);
    }
  }

  /** Any two different strings are ordered one way or the other. */
  lemma {:induction false} LexLessTotal(a: string, b: string)
    requires a != b
    ensures LexLess(a, b) || LexLess(b, a)
  {
    if |a| > 0 && |b| > 0 && a[0] == b[0] {
      assert a == [a[0]] + a[1..] && b == [b[0]] + b[1..];
      LexLessTotal(a[1..], b[1..]);
    }
  }

  lemma {:induction false} LexLessAsymmetric(a: string, b: string)
    requires LexLess(a, b)
    ensures !LexLess(b, a)
  {
    if |a| > 0 && |b| > 0 && a[0] == b[0] {
      LexLessAsymmetric(a[1..], b[1..]);
    }
  }

  // ---------------------------------------------------------------------------
  // SQL LIKE as SQLite evaluates `lower(text) LIKE lower(pattern)`: `%` matches
  // any run of characters, `_` exactly one, and every other character matches
  // itself up to ASCII case (SQLite folds ASCII letters only).
  // ---------------------------------------------------------------------------

  function FoldAscii(c: char): (d: char)
    ensures 'A' <= c <= 'Z' ==> 'a' <= d <= 'z' && d as int == c as int + 32
    ensures !('A' <= c <= 'Z') ==> d == c
  {
    if 'A' <= c <= 'Z' then (c as int + 32) as char else c
  }

  predicate Like(pattern: string, s: string)
    decreases |pattern| + |s|
  {
    if |pattern| == 0 then |s| == 0
    else if pattern[0] == '%' then Like(pattern[1..], s) || (|s| > 0 && Like(pattern, s[1..]))
    else |s| > 0 && (pattern[0] == '_' || FoldAscii(pattern[0]) == FoldAscii(s[0])) && Like(pattern[1..], s[1..])
  }

  predicate NoWildcards(q: string) {
    forall k :: 0 <= k < |q| ==> q[k] != '%' && q[k] != '_'
  }

  /** `q` occurs in `s` at position `i`, ignoring ASCII case. */
  predicate OccursAt(s: string, q: string, i: int) {
    && 0 <= i
    && i + |q| <= |s|
    && forall k :: 0 <= k < |q| ==> FoldAscii(s[i + k]) == FoldAscii(q[k])
  }

  /** `q` is a substring of `s`, ignoring ASCII case. */
  predicate ContainsIgnoringCase(s: string, q: string) {
    exists i | 0 <= i <= |s| :: OccursAt(s, q, i)
  }

  lemma {:induction false} LikeTrailingPercent(s: string)
    ensures Like("%", s)
    decreases |s|
  {
    if |s| > 0 {
      LikeTrailingPercent(s[1..]);
    }
  }

  /** Without wildcards, `q%` matches exactly the strings that start with `q`. */
  lemma {:induction false} LikePrefix(q: string, s: string)
    requires NoWildcards(q)
    ensures Like(q + "%", s) <==> OccursAt(s, q, 0)
    decreases |q|
  {
    if |q| == 0 {
      assert q + "%" == "%";
      LikeTrailingPercent(s);
    } else {
      var p := q + "%";
      assert p[0] == q[0] && p[1..] == q[1..] + "%";
      assert q[0] != '%' && q[0] != '_';
      if |s| > 0 {
        LikePrefix(q[1..], s[1..]);
        if OccursAt(s, q, 0) {
          assert OccursAt(s[1..], q[1..], 0) by {
            forall k | 0 <= k < |q[1..]|
              ensures FoldAscii(s[1..][k]) == FoldAscii(q[1..][k])
            {
              assert s[1..][k] == s[k + 1] && q[1..][k] == q[k + 1];
            }
          }
        }
        if FoldAscii(q[0]) == FoldAscii(s[0]) && OccursAt(s[1..], q[1..], 0) {
          forall k | 0 <= k < |q|
            ensures FoldAscii(s[k]) == FoldAscii(q[k])
          {
            if k > 0 {
              assert s[1..][k - 1] == s[k] && q[1..][k - 1] == q[k];
            }
          }
        }
      }
    }
  }

  lemma OccursShift(s: string, q: string, i: int)
    requires |s| > 0 && 0 <= i
    ensures OccursAt(s[1..], q, i) <==> OccursAt(s, q, i + 1)
  {
    if OccursAt(s[1..], q, i) {
      forall k | 0 <= k < |q|
        ensures FoldAscii(s[i + 1 + k]) == FoldAscii(q[k])
      {
        assert s[1..][i + k] == s[i + 1 + k];
      }
    }
    if OccursAt(s, q, i + 1) {
      forall k | 0 <= k < |q|
        ensures FoldAscii(s[1..][i + k]) == FoldAscii(q[k])
      {
        assert s[1..][i + k] == s[i + 1 + k];
      }
    }
  }

  /**
   * The `q` filter's pattern `%q%` selects exactly the texts containing `q`
   * (ignoring ASCII case) when `q` carries no wildcard of its own.
   */
  lemma {:induction false} LikeSubstring(q: string, s: string)
    requires NoWildcards(q)
    ensures Like("%" + q + "%", s) <==> ContainsIgnoringCase(s, q)
    decreases |s|
  {
    var p := "%" + q + "%";
    assert p[0] == '%' && p[1..] == q + "%";
    LikePrefix(q, s);
    if |s| == 0 {
      if ContainsIgnoringCase(s, q) {
        var i :| 0 <= i <= |s| && OccursAt(s, q, i);
        assert i == 0;
      }
    } else {
      LikeSubstring(q, s[1..]);
      if Like(p, s[1..]) {
        var i :| 0 <= i <= |s[1..]| && OccursAt(s[1..], q, i);
        OccursShift(s, q, i);
      }
      if ContainsIgnoringCase(s, q) && !OccursAt(s, q, 0) {
        var i :| 0 <= i <= |s| && OccursAt(s, q, i);
        assert i >= 1;
        OccursShift(s, q, i - 1);
        assert ContainsIgnoringCase(s[1..], q);
      }
    }
  }
}
