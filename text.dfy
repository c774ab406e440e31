/** Character and string helpers shared by the routes: ASCII case folding (what
    Python's `str.lower` does on the strings that matter here, and what SQLite's
    `lower` and `LIKE` do), decimal printing of integers as in f-strings, the
    byte-wise text ordering of SQLite's `ORDER BY`, and SQL `LIKE` matching. */
module Text {

  import opened Wrappers

  // ---------------------------------------------------------------------------
  // Case folding

  predicate IsUpper(c: char) { 'A' <= c <= 'Z' }

  function LowerChar(c: char): (d: char)
    ensures !IsUpper(d)
    ensures IsUpper(c) ==> d as int == c as int + 32
    ensures !IsUpper(c) ==> d == c
  {
    if IsUpper(c) then (c as int + 32) as char else c
  }

  /** `s.lower()`, restricted to the ASCII letters. */
  function Lower(s: string): (r: string)
    ensures |r| == |s|
    ensures forall i :: 0 <= i < |s| ==> r[i] == LowerChar(s[i])
  {
    if s == [] then [] else [LowerChar(s[0])] + Lower(s[1..])
  }

  lemma {:induction false} LowerIdempotent(s: string)
    ensures Lower(Lower(s)) == Lower(s)
  {
    if s != [] {
      LowerIdempotent(s[1..]);
      assert Lower(s)[1..] == Lower(s[1..]);
    }
  }

  lemma {:induction false} LowerConcat(a: string, b: string)
    ensures Lower(a + b) == Lower(a) + Lower(b)
  {
    if a != [] {
      assert (a + b)[1..] == a[1..] + b;
      LowerConcat(a[1..], b);
    }
  }

  // ---------------------------------------------------------------------------
  // Decimal numerals

  predicate IsDigit(c: char) { '0' <= c <= '9' }

  function DigitChar(d: nat): (c: char)
    requires d < 10
    ensures IsDigit(c) && c as int - '0' as int == d
  {
    ('0' as int + d) as char
  }

  /** `str(n)` for a non-negative integer: decimal digits, no sign, no leading zero. */
  function NatToString(n: nat): (s: string)
    ensures |s| >= 1
    ensures forall i :: 0 <= i < |s| ==> IsDigit(s[i])
    ensures |s| > 1 ==> s[0] != '0'
  {
    if n < 10 then [DigitChar(n)] else NatToString(n / 10) + [DigitChar(n % 10)]
  }

  /** The value of a string of decimal digits, most significant first. */
  function DigitsValue(s: string): nat
    requires forall i :: 0 <= i < |s| ==> IsDigit(s[i])
  {
    if s == [] then 0
    else
      assert IsDigit(s[|s| - 1]);
      DigitsValue(s[..|s| - 1]) * 10 + (s[|s| - 1] as int - '0' as int)
  }

  lemma {:induction false} DigitsValueOfNatToString(n: nat)
    ensures DigitsValue(NatToString(n)) == n
  {
    if n >= 10 {
      var s := NatToString(n);
      assert s[..|s| - 1] == NatToString(n / 10);
      DigitsValueOfNatToString(n / 10);
    }
  }

  /** Number of leading decimal digits of `s`. */
  function DigitRun(s: string): (k: nat)
    ensures k <= |s|
    ensures forall i :: 0 <= i < k ==> IsDigit(s[i])
    ensures k < |s| ==> !IsDigit(s[k])
  {
    if s == [] || !IsDigit(s[0]) then 0 else 1 + DigitRun(s[1..])
  }

  /** Reads the non-empty run of digits at the start of `s`: its value and the rest. */
  function ReadNat(s: string): Option<(nat, string)>
  {
    var k := DigitRun(s);
    if k == 0 then None else Some((DigitsValue(s[..k]), s[k..]))
  }

  lemma {:induction false} DigitRunOfDigits(d: string, rest: string)
    requires forall i :: 0 <= i < |d| ==> IsDigit(d[i])
    requires rest == [] || !IsDigit(rest[0])
    ensures DigitRun(d + rest) == |d|
  {
    if d != [] {
      assert (d + rest)[1..] == d[1..] + rest;
      DigitRunOfDigits(d[1..], rest);
    }
  }

  /** Printing a number and reading it back gives the number and leaves what follows. */
  lemma ReadNatAfterPrint(n: nat, rest: string)
    requires rest == [] || !IsDigit(rest[0])
    ensures ReadNat(NatToString(n) + rest) == Some((n, rest))
  {
    var s := NatToString(n);
    DigitRunOfDigits(s, rest);
    assert (s + rest)[..|s|] == s;
    assert (s + rest)[|s|..] == rest;
    DigitsValueOfNatToString(n);
  }

  lemma NatToStringInjective(m: nat, n: nat)
    requires NatToString(m) == NatToString(n)
    ensures m == n
  {
    DigitsValueOfNatToString(m);
    DigitsValueOfNatToString(n);
  }

  // ---------------------------------------------------------------------------
  // Text order: SQLite compares TEXT with memcmp on UTF-8, which orders strings
  // lexicographically by code point.

  predicate LexLe(a: string, b: string)
  {
    a == [] || (b != [] && (a[0] < b[0] || (a[0] == b[0] && LexLe(a[1..], b[1..]))))
  }

  lemma {:induction false} LexLeTotal(a: string, b: string)
    ensures LexLe(a, b) || LexLe(b, a)
  {
    if a != [] && b != [] && a[0] == b[0] {
      LexLeTotal(a[1..], b[1..]);
    }
  }

  lemma {:induction false} LexLeAntisymmetric(a: string, b: string)
    requires LexLe(a, b) && LexLe(b, a)
    ensures a == b
  {
    if a != [] && b != [] {
      LexLeAntisymmetric(a[1..], b[1..]);
      assert a == [a[0]] + a[1..];
      assert b == [b[0]] + b[1..];
    }
  }

  lemma {:induction false} LexLeTransitive(a: string, b: string, c: string)
    requires LexLe(a, b) && LexLe(b, c)
    ensures LexLe(a, c)
  {
    if a != [] && b != [] && c != [] && a[0] == b[0] == c[0] {
      LexLeTransitive(a[1..], b[1..], c[1..]);
    }
  }

  // ---------------------------------------------------------------------------
  // SQL LIKE as SQLite evaluates `lower(x) LIKE lower(p)`: `%` matches any run of
  // characters, `_` any one character, every other character itself up to ASCII case.

  predicate Like(t: string, p: string)
    decreases |p| + |t|
  {
    if p == [] then t == []
    else if p[0] == '%' then Like(t, p[1..]) || (t != [] && Like(t[1..], p))
    else t != [] && (p[0] == '_' || LowerChar(p[0]) == LowerChar(t[0])) && Like(t[1..], p[1..])
  }

  predicate NoWildcards(s: string)
  {
    forall i :: 0 <= i < |s| ==> s[i] != '%' && s[i] != '_'
  }

  /** `lower(s)` occurs in `lower(t)` starting at position `i`. */
  predicate OccursAt(s: string, t: string, i: nat)
  {
    i + |s| <= |t| && Lower(t[i..i + |s|]) == Lower(s)
  }

  lemma {:induction false} LikeTrailingPercent(t: string)
    ensures Like(t, "%")
  {
    if t != [] { LikeTrailingPercent(t[1..]); }
  }

  /** Without wildcards, `s%` matches exactly the texts that start with `s` up to case. */
  lemma {:induction false} LikePrefix(t: string, s: string)
    requires NoWildcards(s)
    ensures Like(t, s + "%") <==> OccursAt(s, t, 0)
  {
    if s == [] {
      assert s + "%" == "%";
      LikeTrailingPercent(t);
      assert t[0..0] == [];
    } else {
      assert (s + "%")[1..] == s[1..] + "%";
      if t != [] {
        LikePrefix(t[1..], s[1..]);
        if |s| <= |t| {
          assert t[1..][0..|s| - 1] == t[1..|s|];
          assert t[0..|s|] == [t[0]] + t[1..|s|];
          assert s == [s[0]] + s[1..];
          assert Lower(t[0..|s|]) == [LowerChar(t[0])] + Lower(t[1..|s|]);
          assert Lower(s) == [LowerChar(s[0])] + Lower(s[1..]);
        }
      }
    }
  }

  /** A leading `%` lets the rest of the pattern match any suffix. */
  lemma {:induction false} LikeLeadingPercent(t: string, q: string)
    ensures Like(t, "%" + q) <==> exists i :: 0 <= i <= |t| && Like(t[i..], q)
  {
    var p := "%" + q;
    assert p[1..] == q;
    if t == [] {
      assert t[0..] == t;
    } else {
      LikeLeadingPercent(t[1..], q);
      if Like(t, p) {
        if !Like(t, q) {
          var i :| 0 <= i <= |t[1..]| && Like(t[1..][i..], q);
          assert t[1..][i..] == t[i + 1..];
        } else {
          assert t[0..] == t;
        }
      } else {
        forall i | 0 <= i <= |t| ensures !Like(t[i..], q) {
          if i == 0 {
            assert t[0..] == t;
          } else {
            assert t[1..][i - 1..] == t[i..];
          }
        }
      }
    }
  }

  /** Regrouping a concatenation of three strings, stated over variables so that no
      literal is unfolded character by character. */
  lemma ConcatAssoc(a: string, b: string, c: string)
    ensures a + (b + c) == a + b + c
  {
  }

  /** `name ILIKE '%search%'` holds exactly when the search text occurs in the name,
      ignoring ASCII case, provided the search text holds no wildcard. */
  lemma ContainsLike(t: string, s: string)
    requires NoWildcards(s)
    ensures Like(t, "%" + s + "%") <==> exists i :: 0 <= i <= |t| && OccursAt(s, t, i)
  {
    ConcatAssoc("%", s, "%");
    LikeLeadingPercent(t, s + "%");
    forall i | 0 <= i <= |t|
      ensures Like(t[i..], s + "%") <==> OccursAt(s, t, i)
    {
      LikePrefix(t[i..], s);
      if i + |s| <= |t| {
        assert t[i..][0..|s|] == t[i..i + |s|];
      }
    }
  }

  // ---------------------------------------------------------------------------
  // Removing a substring

  /** `s.replace(pat, '')`: every occurrence of `pat`, found left to right. */
  function RemoveAll(s: string, pat: string): string
    requires pat != []
    decreases |s|
  {
    if |s| < |pat| then s
    else if s[..|pat|] == pat then RemoveAll(s[|pat|..], pat)
    else [s[0]] + RemoveAll(s[1..], pat)
  }

  /** Text before which the pattern cannot start is kept as it is. */
  lemma {:induction false} RemoveAllKeepsPrefix(a: string, b: string, pat: string)
    requires pat != [] && pat[0] !in a
    ensures RemoveAll(a + b, pat) == a + RemoveAll(b, pat)
    decreases |a|
  {
    if a != [] {
      var s := a + b;
      assert s[0] == a[0] && a[0] in a;
      assert s[1..] == a[1..] + b;
      assert pat[0] !in a[1..];
      RemoveAllKeepsPrefix(a[1..], b, pat);
      if |s| >= |pat| {
        assert s[..|pat|][0] != pat[0];
        RemoveAllMismatch(s, pat);
        calc {
          RemoveAll(s, pat);
          [a[0]] + RemoveAll(a[1..] + b, pat);
          [a[0]] + (a[1..] + RemoveAll(b, pat));
          { assert a == [a[0]] + a[1..]; }
          a + RemoveAll(b, pat);
        }
      } else {
        assert RemoveAll(b, pat) == b;
        assert RemoveAll(s, pat) == s;
      }
    } else {
      assert a + b == b;
    }
  }

  /** An occurrence at the front is dropped. */
  lemma RemoveAllLeading(pat: string, rest: string)
    requires pat != []
    ensures RemoveAll(pat + rest, pat) == RemoveAll(rest, pat)
  {
    assert (pat + rest)[..|pat|] == pat;
    assert (pat + rest)[|pat|..] == rest;
  }

  /** A front that is not an occurrence keeps its first character. */
  lemma RemoveAllMismatch(s: string, pat: string)
    requires pat != [] && |s| >= |pat| && s[..|pat|] != pat
    ensures RemoveAll(s, pat) == [s[0]] + RemoveAll(s[1..], pat)
  {
  }
}
