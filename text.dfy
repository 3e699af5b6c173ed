/** String primitives the backend relies on: JavaScript's `trim`, the case folding
    and wildcards of a case-insensitive `ILIKE '%x%'` match, and a total order on strings
    standing in for `localeCompare`. */
module Text {

  /** JavaScript's WhiteSpace and LineTerminator characters, which `trim` strips. */
  predicate IsSpace(c: char)
  {
    c == '\t' || c == '\n' || c == '\r' || c == '\U{000B}' || c == '\U{000C}' || c == ' '
    || c == '\U{00A0}' || c == '\U{1680}' || ('\U{2000}' <= c <= '\U{200A}')
    || c == '\U{2028}' || c == '\U{2029}' || c == '\U{202F}' || c == '\U{205F}'
    || c == '\U{3000}' || c == '\U{FEFF}'
  }

  predicate AllSpace(s: string)
  {
    forall i :: 0 <= i < |s| ==> IsSpace(s[i])
  }

  function TrimStart(s: string): string
  {
    if s != [] && IsSpace(s[0]) then TrimStart(s[1..]) else s
  }

  function TrimEnd(s: string): string
  {
    if s != [] && IsSpace(s[|s| - 1]) then TrimEnd(s[..|s| - 1]) else s
  }

  /** `s.trim()` */
  function Trim(s: string): string
  {
    TrimEnd(TrimStart(s))
  }

  /** `s && s.trim().length > 0`, where a missing string is modelled as "". */
  predicate HasText(s: string)
  {
    |Trim(s)| > 0
  }

  lemma {:induction false} TrimStartBlank(s: string)
    ensures TrimStart(s) == [] <==> AllSpace(s)
    ensures TrimStart(s) != [] ==> !IsSpace(TrimStart(s)[0])
    decreases |s|
  {
    if s != [] && IsSpace(s[0]) {
      TrimStartBlank(s[1..]);
      assert AllSpace(s) <==> AllSpace(s[1..]) by {
        if AllSpace(s[1..]) {
          forall i | 0 <= i < |s| ensures IsSpace(s[i]) {
            if i > 0 { assert s[i] == s[1..][i - 1]; }
          }
        }
        if AllSpace(s) {
          forall i | 0 <= i < |s[1..]| ensures IsSpace(s[1..][i]) {
            assert s[1..][i] == s[i + 1];
          }
        }
      }
    }
  }

  lemma {:induction false} TrimEndKeepsHead(s: string)
    requires s != [] && !IsSpace(s[0])
    ensures TrimEnd(s) != [] && TrimEnd(s)[0] == s[0]
    decreases |s|
  {
    if IsSpace(s[|s| - 1]) {
      assert |s| > 1;
      TrimEndKeepsHead(s[..|s| - 1]);
    }
  }

  /** A string trims to nothing exactly when every character is white space. */
  lemma TrimEmptyIffBlank(s: string)
    ensures !HasText(s) <==> AllSpace(s)
  {
    TrimStartBlank(s);
    if TrimStart(s) != [] {
      TrimEndKeepsHead(TrimStart(s));
    }
  }

  /** ASCII case folding, the part of ILIKE's folding that the model keeps. */
  function LowerChar(c: char): char
  {
    if 'A' <= c <= 'Z' then (c as int + 32) as char else c
  }

  function Lower(s: string): (r: string)
    ensures |r| == |s| && forall i :: 0 <= i < |s| ==> r[i] == LowerChar(s[i])
  {
    if s == [] then [] else [LowerChar(s[0])] + Lower(s[1..])
  }

  /** The characters a LIKE pattern treats specially: the two wildcards and the
      default escape character. */
  predicate IsLikeMeta(c: char)
  {
    c == '%' || c == '_' || c == '\\'
  }

  /** A pattern without wildcards or escapes. */
  predicate IsLiteral(p: string)
  {
    forall i :: 0 <= i < |p| ==> !IsLikeMeta(p[i])
  }

  /** SQL `s LIKE p`: `%` matches any run of characters, `_` any one character and `\`
      makes the next pattern character literal. A pattern ending in a lone `\` matches
      nothing here; the database rejects it. */
  predicate LikeMatch(s: string, p: string)
    decreases |p|, |s|
  {
    if p == [] then s == []
    else if p[0] == '%' then LikeMatch(s, p[1..]) || (s != [] && LikeMatch(s[1..], p))
    else if p[0] == '_' then s != [] && LikeMatch(s[1..], p[1..])
    else if p[0] == '\\' then |p| > 1 && s != [] && s[0] == p[1] && LikeMatch(s[1..], p[2..])
    else s != [] && s[0] == p[0] && LikeMatch(s[1..], p[1..])
  }

  /** `column ILIKE '%term%'`: both sides case-folded, the term keeping its wildcards. */
  predicate ContainsIgnoringCase(s: string, term: string)
  {
    LikeMatch(Lower(s), "%" + Lower(term) + "%")
  }

  lemma {:induction false} PercentMatchesAll(s: string)
    ensures LikeMatch(s, "%")
    decreases |s|
  {
    assert "%"[1..] == [];
    if s != [] {
      PercentMatchesAll(s[1..]);
    }
  }

  /** A literal pattern followed by `%` matches exactly the strings it begins. */
  lemma {:induction false} LiteralThenPercent(s: string, q: string)
    requires IsLiteral(q)
    ensures LikeMatch(s, q + "%") <==> q <= s
    decreases |q|
  {
    if q == [] {
      assert q + "%" == "%";
      PercentMatchesAll(s);
    } else {
      var p := q + "%";
      assert p[0] == q[0] && !IsLikeMeta(q[0]);
      assert p[1..] == q[1..] + "%";
      assert IsLiteral(q[1..]) by {
        forall i | 0 <= i < |q[1..]| ensures !IsLikeMeta(q[1..][i]) {
          assert q[1..][i] == q[i + 1];
        }
      }
      if s != [] {
        LiteralThenPercent(s[1..], q[1..]);
        assert q <= s <==> q[0] == s[0] && q[1..] <= s[1..];
      }
    }
  }

  /** A leading `%` lets the rest of the pattern match any suffix. */
  lemma {:induction false} PercentThen(s: string, r: string)
    ensures LikeMatch(s, "%" + r) <==> exists i :: 0 <= i <= |s| && LikeMatch(s[i..], r)
    decreases |s|
  {
    var p := "%" + r;
    assert p[0] == '%' && p[1..] == r;
    assert s[0..] == s;
    if s != [] {
      PercentThen(s[1..], r);
      if LikeMatch(s, p) && !LikeMatch(s, r) {
        var j :| 0 <= j <= |s[1..]| && LikeMatch(s[1..][j..], r);
        assert s[1..][j..] == s[j + 1..];
      }
      if exists i :: 0 <= i <= |s| && LikeMatch(s[i..], r) {
        var i :| 0 <= i <= |s| && LikeMatch(s[i..], r);
        if i > 0 {
          assert s[1..][i - 1..] == s[i..];
        }
      }
    }
  }

  /** `sub` occurs somewhere in `s`. */
  predicate IsSubstring(sub: string, s: string)
  {
    exists i :: 0 <= i <= |s| && sub <= s[i..]
  }

  /** `%q%` with a literal `q` matches exactly the strings that contain `q`. */
  lemma {:induction false} LiteralInPercents(ls: string, q: string)
    requires IsLiteral(q)
    ensures LikeMatch(ls, "%" + q + "%") <==> IsSubstring(q, ls)
  {
    assert "%" + q + "%" == "%" + (q + "%");
    PercentThen(ls, q + "%");
    if LikeMatch(ls, "%" + (q + "%")) {
      var i :| 0 <= i <= |ls| && LikeMatch(ls[i..], q + "%");
      LiteralThenPercent(ls[i..], q);
    }
    if exists i :: 0 <= i <= |ls| && q <= ls[i..] {
      var i :| 0 <= i <= |ls| && q <= ls[i..];
      LiteralThenPercent(ls[i..], q);
    }
  }

  lemma LowerKeepsLiteral(term: string)
    requires IsLiteral(term)
    ensures IsLiteral(Lower(term))
  {
    var q := Lower(term);
    forall i | 0 <= i < |q| ensures !IsLikeMeta(q[i]) {
      assert !IsLikeMeta(term[i]);
    }
  }

  /** With a term free of wildcards and escapes, the search is a case-insensitive
      substring test. */
  lemma LiteralTermIsSubstring(s: string, term: string)
    requires IsLiteral(term)
    ensures ContainsIgnoringCase(s, term) <==> IsSubstring(Lower(term), Lower(s))
  {
    LowerKeepsLiteral(term);
    LiteralInPercents(Lower(s), Lower(term));
  }

  /** An `_` in the term stands for any one character: "a_c" finds "ABC". */
  lemma UnderscoreIsWildcard()
    ensures ContainsIgnoringCase("ABC", "a_c")
  {
    var ls, q := Lower("ABC"), Lower("a_c");
    assert ls == "abc" && q == "a_c";
    var p := "%" + q + "%";
    assert p == "%a_c%";
    assert LikeMatch("", "%") by { PercentMatchesAll(""); }
    assert LikeMatch("c", "c%");
    assert LikeMatch("bc", "_c%");
    assert LikeMatch("abc", "a_c%");
  }

  /** Lexicographic order on code units. */
  predicate StrLe(a: string, b: string)
  {
    if a == [] then true
    else if b == [] then false
    else if a[0] != b[0] then a[0] < b[0]
    else StrLe(a[1..], b[1..])
  }

  lemma {:induction false} StrLeTotal(a: string, b: string)
    ensures StrLe(a, b) || StrLe(b, a)
    decreases |a|
  {
    if a != [] && b != [] && a[0] == b[0] {
      StrLeTotal(a[1..], b[1..]);
    }
  }

  lemma {:induction false} StrLeTrans(a: string, b: string, c: string)
    requires StrLe(a, b) && StrLe(b, c)
    ensures StrLe(a, c)
    decreases |a|
  {
    if a != [] && b != [] && c != [] && a[0] == b[0] && b[0] == c[0] {
      StrLeTrans(a[1..], b[1..], c[1..]);
    }
  }
}
