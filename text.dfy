/** Strings as the store sees them: Java's `toUpperCase()`, SQL `LOWER(...)`,
    SQL `LIKE` with its `%` and `_` wildcards, and the ordering of `ORDER BY code`.
    Case mapping covers the ASCII letters only. */
module Text {

  predicate IsLowerAscii(c: char) { 'a' <= c <= 'z' }

  predicate IsUpperAscii(c: char) { 'A' <= c <= 'Z' }

  function UpperChar(c: char): char
  {
    if IsLowerAscii(c) then (c as int - 32) as char else c
  }

  function LowerChar(c: char): char
  {
    if IsUpperAscii(c) then (c as int + 32) as char else c
  }

  /** `String.toUpperCase()` on ASCII text. */
  function ToUpper(s: string): (r: string)
    ensures |r| == |s|
    ensures forall i :: 0 <= i < |r| ==> !IsLowerAscii(r[i])
    ensures forall i :: 0 <= i < |r| ==> LowerChar(r[i]) == LowerChar(s[i])
  {
    seq(|s|, i requires 0 <= i < |s| => UpperChar(s[i]))
  }

  /** SQL `LOWER(...)` on ASCII text. */
  function ToLower(s: string): (r: string)
    ensures |r| == |s|
    ensures forall i :: 0 <= i < |r| ==> !IsUpperAscii(r[i])
    ensures forall i :: 0 <= i < |r| ==> UpperChar(r[i]) == UpperChar(s[i])
  {
    seq(|s|, i requires 0 <= i < |s| => LowerChar(s[i]))
  }

  /** Upper-casing twice is upper-casing once: a stored code is already normalised. */
  lemma ToUpperIdempotent(s: string)
    ensures ToUpper(ToUpper(s)) == ToUpper(s)
  {
  }

  lemma ToLowerAppend(a: string, b: string)
    ensures ToLower(a + b) == ToLower(a) + ToLower(b)
  {
  }

  predicate IsWhitespace(c: char) { c == ' ' || c == '\t' || c == '\n' || c == '\r' }

  /** `@NotBlank`: at least one character that is not white space. */
  predicate NotBlank(s: string)
  {
    exists i :: 0 <= i < |s| && !IsWhitespace(s[i])
  }

  /** The characters a LIKE pattern treats specially: the wildcards `%` and
      `_`, and the backslash, which the queries (written without an ESCAPE
      clause) leave as the database's default escape character. */
  predicate IsWildcard(c: char) { c == '%' || c == '_' || c == '\\' }

  predicate NoWildcards(s: string)
  {
    forall i :: 0 <= i < |s| ==> !IsWildcard(s[i])
  }

  /** `s LIKE p`: `%` matches any run of characters, `_` any single one,
      every other character itself. The backslash escape is not modelled here:
      a backslash is read as itself, so the facts below about patterns hold
      only for filters without one. */
  function Like(s: string, p: string): bool
    decreases |p|, |s|
  {
    if p == [] then s == []
    else if p[0] == '%' then Like(s, p[1..]) || (s != [] && Like(s[1..], p))
    else s != [] && (p[0] == '_' || p[0] == s[0]) && Like(s[1..], p[1..])
  }

  predicate IsSubstring(needle: string, s: string)
  {
    exists i :: 0 <= i <= |s| && needle <= s[i..]
  }

  /** A trailing `%` matches any rest. */
  lemma {:induction false} LikePercent(s: string)
    ensures Like(s, "%")
  {
    if s != [] {
      LikePercent(s[1..]);
    }
  }

  /** `s LIKE n%` is a prefix test when `n` holds no wildcard. */
  lemma {:induction false} LikePrefix(s: string, n: string)
    requires NoWildcards(n)
    ensures Like(s, n + "%") <==> n <= s
  {
    if n == [] {
      assert n + "%" == "%";
      LikePercent(s);
    } else {
      assert (n + "%")[0] == n[0] && (n + "%")[1..] == n[1..] + "%";
      if s != [] {
        LikePrefix(s[1..], n[1..]);
      }
    }
  }

  /** `s LIKE %n%` is a substring test when `n` holds no wildcard. */
  lemma {:induction false} LikeContains(s: string, n: string)
    requires NoWildcards(n)
    ensures Like(s, "%" + n + "%") <==> IsSubstring(n, s)
    decreases |s|
  {
    var p := "%" + n + "%";
    assert p[0] == '%' && p[1..] == n + "%";
    LikePrefix(s, n);
    if s == [] {
      assert IsSubstring(n, s) <==> n <= s by {
        if IsSubstring(n, s) {
          var i :| 0 <= i <= |s| && n <= s[i..];
          assert s[i..] == s;
        }
        if n <= s { assert s[0..] == s; }
      }
    } else {
      LikeContains(s[1..], n);
      if IsSubstring(n, s[1..]) {
        var i :| 0 <= i <= |s[1..]| && n <= s[1..][i..];
        assert s[1..][i..] == s[i + 1..];
      }
      if IsSubstring(n, s) && !(n <= s) {
        var i :| 0 <= i <= |s| && n <= s[i..];
        assert i != 0 by { assert s[0..] == s; }
        assert s[i..] == s[1..][i - 1..];
      }
      if n <= s { assert s[0..] == s; }
    }
  }

  /** The filter `LOWER(field) LIKE LOWER(CONCAT('%', f, '%'))`. */
  predicate LikeIgnoreCase(field: string, f: string)
  {
    Like(ToLower(field), ToLower("%" + f + "%"))
  }

  /** For a filter without wildcards the query is a case-insensitive substring test. */
  lemma LikeIgnoreCaseIsSubstring(field: string, f: string)
    requires NoWildcards(f)
    ensures LikeIgnoreCase(field, f) <==> IsSubstring(ToLower(f), ToLower(field))
  {
    ToLowerAppend("%" + f, "%");
    ToLowerAppend("%", f);
    assert ToLower("%") == "%";
    assert NoWildcards(ToLower(f));
    LikeContains(ToLower(field), ToLower(f));
  }

  /** Lexicographic order by character code: the order of `ORDER BY code`. */
  predicate CodeLe(a: string, b: string)
  {
    a == [] || (b != [] && (a[0] < b[0] || (a[0] == b[0] && CodeLe(a[1..], b[1..]))))
  }

  lemma {:induction false} CodeLeTotal(a: string, b: string)
    ensures CodeLe(a, b) || CodeLe(b, a)
  {
    if a != [] && b != [] && a[0] == b[0] {
      CodeLeTotal(a[1..], b[1..]);
    }
  }

  lemma {:induction false} CodeLeTransitive(a: string, b: string, c: string)
    requires CodeLe(a, b) && CodeLe(b, c)
    ensures CodeLe(a, c)
  {
    if a != [] && b != [] && c != [] && a[0] == b[0] && b[0] == c[0] {
      CodeLeTransitive(a[1..], b[1..], c[1..]);
    }
  }
}
