/**
 * The two pieces of PostgreSQL semantics the task query relies on: the order
 * of `dueDate` values (dates written YYYY-MM-DD, which order exactly as their
 * strings do) and the `ILIKE` pattern match used for the name search.
 */
module SqlSemantics {

  /** Lexicographic order on strings: `a` sorts before or equal to `b`. */
  predicate LexLe(a: string, b: string)
    ensures a == b ==> LexLe(a, b)
    ensures LexLe(a, b) && b == [] ==> a == []
  {
    a == [] || (b != [] && (a[0] < b[0] || (a[0] == b[0] && LexLe(a[1..], b[1..]))))
  }

  lemma {:induction false} LexLeTotal(a: string, b: string)
    ensures LexLe(a, b) || LexLe(b, a)
  {
    if a != [] && b != [] && a[0] == b[0] {
      LexLeTotal(a[1..], b[1..]);
    }
  }

  lemma {:induction false} LexLeAntisymmetric(a: string, b: string)
    requires LexLe(a, b) && LexLe(b, a)
    ensures a == b
  {
    if a != [] && b != [] {
      LexLeAntisymmetric(a[1..], b[1..]);
    }
  }

  lemma {:induction false} LexLeTransitive(a: string, b: string, c: string)
    requires LexLe(a, b) && LexLe(b, c)
    ensures LexLe(a, c)
  {
    if a != [] && b != [] && c != [] && a[0] == b[0] && b[0] == c[0] {
      LexLeTransitive(a[1..], b[1..], c[1..]);
    }
  }

  /** A common prefix does not change the order of two strings. */
  lemma {:induction false} LexLeCommonPrefix(c: string, a: string, b: string)
    ensures LexLe(c + a, c + b) <==> LexLe(a, b)
  {
    if c != [] {
      assert (c + a)[0] == c[0] == (c + b)[0];
      assert (c + a)[1..] == c[1..] + a && (c + b)[1..] == c[1..] + b;
      LexLeCommonPrefix(c[1..], a, b);
    } else {
      assert c + a == a && c + b == b;
    }
  }

  /**
   * The case folding `ILIKE` applies before comparing (ASCII letters only; the
   * database's collation may fold further).
   */
  function Fold(c: char): char {
    if 'A' <= c <= 'Z' then (c as int + 32) as char else c
  }

  /** `a` and `b` are the same string ignoring case. */
  predicate EqualIgnoringCase(a: string, b: string) {
    |a| == |b| && forall i :: 0 <= i < |a| ==> Fold(a[i]) == Fold(b[i])
  }

  /** `needle` occurs in `hay` at position i, ignoring case. */
  predicate OccursAt(hay: string, needle: string, i: int) {
    0 <= i <= |hay| - |needle| && EqualIgnoringCase(hay[i..i + |needle|], needle)
  }

  /** `needle` occurs in `hay` ignoring case. */
  predicate ContainsIgnoringCase(hay: string, needle: string) {
    exists i :: 0 <= i <= |hay| - |needle| && OccursAt(hay, needle, i)
  }

  /**
   * `s ILIKE p`: `%` matches any run of characters, `_` any one character, a
   * backslash makes the next pattern character literal, and every other
   * character matches itself ignoring case. (A pattern ending in a lone
   * backslash is an error in PostgreSQL; here it matches nothing.)
   */
  predicate ILike(s: string, p: string)
    ensures p == "%" ==> ILike(s, p)
    ensures Plain(p) && ILike(s, p) ==> |s| == |p|
    decreases |p|, |s|
  {
    if p == [] then s == []
    else if p[0] == '%' then ILike(s, p[1..]) || (s != [] && ILike(s[1..], p))
    else if p[0] == '_' then s != [] && ILike(s[1..], p[1..])
    else if p[0] == '\\' then
      |p| >= 2 && s != [] && Fold(s[0]) == Fold(p[1]) && ILike(s[1..], p[2..])
    else s != [] && Fold(s[0]) == Fold(p[0]) && ILike(s[1..], p[1..])
  }

  /** A search text holding none of the characters `ILIKE` treats specially. */
  predicate Plain(q: string) {
    forall i :: 0 <= i < |q| ==> q[i] != '%' && q[i] != '_' && q[i] != '\\'
  }

  lemma {:induction false} ILikeAnything(s: string)
    ensures ILike(s, "%")
  {
    if s != [] {
      ILikeAnything(s[1..]);
    }
  }

  /** With a plain text `q`, `q%` matches exactly the strings that start with `q` ignoring case. */
  lemma {:induction false} ILikePrefix(s: string, q: string)
    requires Plain(q)
    ensures ILike(s, q + "%") <==> |q| <= |s| && EqualIgnoringCase(s[..|q|], q)
  {
    if q == [] {
      assert q + "%" == "%";
      ILikeAnything(s);
    } else {
      assert (q + "%")[0] == q[0] && (q + "%")[1..] == q[1..] + "%";
      assert Plain(q[1..]) by {
        assert forall i :: 0 <= i < |q[1..]| ==> q[1..][i] == q[i + 1];
      }
      if s != [] {
        ILikePrefix(s[1..], q[1..]);
        if |q| <= |s| {
          var a, b := s[..|q|], s[1..][..|q| - 1];
          assert b == a[1..];
          assert EqualIgnoringCase(a, q) <==> Fold(a[0]) == Fold(q[0]) && EqualIgnoringCase(b, q[1..]) by {
            if Fold(a[0]) == Fold(q[0]) && EqualIgnoringCase(b, q[1..]) {
              forall i | 0 <= i < |a| ensures Fold(a[i]) == Fold(q[i]) {
                if i > 0 { assert a[i] == b[i - 1] && q[i] == q[1..][i - 1]; }
              }
            }
          }
        }
      }
    }
  }

  /** In an empty string only the empty text occurs. */
  lemma ContainsInEmpty(q: string)
    ensures ContainsIgnoringCase([], q) <==> q == []
  {
    if q == [] {
      assert OccursAt([], q, 0);
    }
  }

  /** An occurrence in the tail of `s` at `i` is an occurrence in `s` at `i + 1`, and back. */
  lemma OccursInTail(s: string, q: string, i: int)
    requires s != [] && 0 <= i
    ensures OccursAt(s[1..], q, i) <==> OccursAt(s, q, i + 1)
  {
    if i + |q| <= |s| - 1 {
      var a, b := s[1..][i..i + |q|], s[i + 1..i + 1 + |q|];
      forall k | 0 <= k < |q| ensures a[k] == b[k] {
        assert a[k] == s[i + 1 + k];
      }
      assert a == b;
    }
  }

  /** `q` occurs in a non-empty `s` exactly when `s` starts with it or its tail contains it. */
  lemma ContainsCons(s: string, q: string)
    requires s != []
    ensures ContainsIgnoringCase(s, q) <==>
      (|q| <= |s| && EqualIgnoringCase(s[..|q|], q)) || ContainsIgnoringCase(s[1..], q)
  {
    if ContainsIgnoringCase(s, q) {
      var i :| 0 <= i <= |s| - |q| && OccursAt(s, q, i);
      if i == 0 {
        assert s[0..|q|] == s[..|q|];
      } else {
        OccursInTail(s, q, i - 1);
      }
    }
    if ContainsIgnoringCase(s[1..], q) {
      var i :| 0 <= i <= |s[1..]| - |q| && OccursAt(s[1..], q, i);
      OccursInTail(s, q, i);
    }
    if |q| <= |s| && EqualIgnoringCase(s[..|q|], q) {
      assert s[0..|q|] == s[..|q|];
      assert OccursAt(s, q, 0);
    }
  }

  /**
   * The search condition `name ILIKE '%' || q || '%'`, for a plain text `q`,
   * holds exactly when `q` occurs in the name ignoring case.
   */
  lemma {:induction false} ILikeContains(s: string, q: string)
    requires Plain(q)
    ensures ILike(s, "%" + q + "%") <==> ContainsIgnoringCase(s, q)
  {
    var p := "%" + q + "%";
    assert p[0] == '%' && p[1..] == q + "%";
    ILikePrefix(s, q);
    if s == [] {
      ContainsInEmpty(q);
    } else {
      ILikeContains(s[1..], q);
      ContainsCons(s, q);
    }
  }

  /** `_` and `%` in a search text are wildcards: "a_c" finds "abc", which does not contain it. */
  lemma UnderscoreIsWildcard()
    ensures ILike("abc", "%" + "a_c" + "%")
    ensures !ContainsIgnoringCase("abc", "a_c")
  {
    assert "%" + "a_c" + "%" == "%a_c%";
    assert ILike("", "%");
    assert ILike("c", "c%");
    assert ILike("bc", "_c%");
    assert ILike("abc", "a_c%");
    assert !OccursAt("abc", "a_c", 0) by {
      assert "abc"[0..3] == "abc";
      assert Fold("abc"[1]) != Fold("a_c"[1]);
    }
  }
}
