/** The text primitives the backend and frontend lean on: JavaScript's
    `String.prototype.trim` and `endsWith`, and SQLite's `LIKE` operator and
    BINARY collation order. */
module Strings {

  /** WhiteSpace and LineTerminator code points, the characters that
      `String.prototype.trim` removes (ECMAScript 2023, sections 12.2 and 12.3). */
  predicate IsTrimmable(c: char) {
    || c == '\t' || c == '\n' || c == '\U{000B}' || c == '\U{000C}' || c == '\r' || c == ' '
    || c == '\U{00A0}' || c == '\U{1680}' || ('\U{2000}' <= c <= '\U{200A}')
    || c == '\U{2028}' || c == '\U{2029}' || c == '\U{202F}' || c == '\U{205F}'
    || c == '\U{3000}' || c == '\U{FEFF}'
  }

  predicate AllTrimmable(s: string) {
    forall i :: 0 <= i < |s| ==> IsTrimmable(s[i])
  }

  /** Drops the leading whitespace of `s`. */
  function TrimStart(s: string): (r: string)
    ensures |r| <= |s| && r == s[|s| - |r|..]
    ensures AllTrimmable(s[..|s| - |r|])
    ensures r != [] ==> !IsTrimmable(r[0])
  {
    if s != [] && IsTrimmable(s[0]) then
      var r := TrimStart(s[1..]);
      assert s[..|s| - |r|] == [s[0]] + s[1..][..|s| - 1 - |r|];
      r
    else
      s
  }

  /** Drops the trailing whitespace of `s`. */
  function TrimEnd(s: string): (r: string)
    ensures |r| <= |s| && r == s[..|r|]
    ensures AllTrimmable(s[|r|..])
    ensures r != [] ==> !IsTrimmable(r[|r| - 1])
  {
    if s != [] && IsTrimmable(s[|s| - 1]) then
      var r := TrimEnd(s[..|s| - 1]);
      assert s[|r|..] == s[..|s| - 1][|r|..] + [s[|s| - 1]];
      r
    else
      s
  }

  /** `r` is the piece of `s` that starts at index `i`, and everything of `s`
      before and after it is whitespace. */
  predicate TrimmedAt(r: string, s: string, i: int) {
    && 0 <= i && i + |r| <= |s| && s[i..i + |r|] == r
    && AllTrimmable(s[..i]) && AllTrimmable(s[i + |r|..])
  }

  /** `s.trim()`: the piece of `s` left once the whitespace at both ends is cut
      off, so it has no whitespace at either end, and is empty exactly when `s`
      is all whitespace. */
  function Trim(s: string): (r: string)
    ensures r == [] || (!IsTrimmable(r[0]) && !IsTrimmable(r[|r| - 1]))
    ensures r == [] <==> AllTrimmable(s)
    ensures exists i :: 0 <= i <= |s| && TrimmedAt(r, s, i)
  {
    var t := TrimStart(s);
    var r := TrimEnd(t);
    TrimPiece(s, t, r);
    assert TrimmedAt(r, s, |s| - |t|);
    r
  }

  /** Cutting leading whitespace off `s` to get `t` and then trailing
      whitespace off `t` to get `r` leaves the piece of `s` after its leading
      whitespace; nothing is left exactly when `s` is all whitespace. */
  lemma TrimPiece(s: string, t: string, r: string)
    requires |t| <= |s| && t == s[|s| - |t|..] && AllTrimmable(s[..|s| - |t|])
    requires t != [] ==> !IsTrimmable(t[0])
    requires |r| <= |t| && r == t[..|r|] && AllTrimmable(t[|r|..])
    requires r != [] ==> !IsTrimmable(r[|r| - 1])
    ensures TrimmedAt(r, s, |s| - |t|)
    ensures r == [] || (!IsTrimmable(r[0]) && !IsTrimmable(r[|r| - 1]))
    ensures r == [] <==> AllTrimmable(s)
  {
    assert s[|s| - |t| + |r|..] == t[|r|..];
  }

  /** The first non-whitespace character of `s` is at one index only. */
  lemma FirstNonWhitespace(s: string, i: int, j: int)
    requires 0 <= i < |s| && 0 <= j < |s|
    requires AllTrimmable(s[..i]) && !IsTrimmable(s[i])
    requires AllTrimmable(s[..j]) && !IsTrimmable(s[j])
    ensures i == j
  {
  }

  /** The last non-whitespace character of `s` is at one index only. */
  lemma LastNonWhitespace(s: string, i: int, j: int)
    requires 0 <= i < |s| && 0 <= j < |s|
    requires AllTrimmable(s[i + 1..]) && !IsTrimmable(s[i])
    requires AllTrimmable(s[j + 1..]) && !IsTrimmable(s[j])
    ensures i == j
  {
  }

  /** Such a piece is empty exactly when `s` is all whitespace. */
  lemma PieceEmptyIff(s: string, r: string, i: int)
    requires TrimmedAt(r, s, i)
    requires r == [] || (!IsTrimmable(r[0]) && !IsTrimmable(r[|r| - 1]))
    ensures r == [] <==> AllTrimmable(s)
  {
    if r == [] {
      assert s == s[..i] + s[i..];
    } else {
      assert s[i] == r[0];
    }
  }

  /** Two pieces of `s` with whitespace alone around them and no whitespace
      at either end are the same piece. */
  lemma SamePiece(s: string, r: string, i: int, t: string, k: int)
    requires TrimmedAt(r, s, i) && TrimmedAt(t, s, k)
    requires r == [] || (!IsTrimmable(r[0]) && !IsTrimmable(r[|r| - 1]))
    requires t == [] || (!IsTrimmable(t[0]) && !IsTrimmable(t[|t| - 1]))
    ensures r == t
  {
    PieceEmptyIff(s, r, i);
    PieceEmptyIff(s, t, k);
    if r != [] && t != [] {
      assert s[i] == r[0] && s[i + |r| - 1] == r[|r| - 1];
      assert s[k] == t[0] && s[k + |t| - 1] == t[|t| - 1];
      FirstNonWhitespace(s, i, k);
      LastNonWhitespace(s, i + |r| - 1, k + |t| - 1);
    }
  }

  /** `Trim` is the only piece of `s` that has whitespace alone around it and
      no whitespace at either end. */
  lemma TrimUnique(s: string, r: string, i: int)
    requires TrimmedAt(r, s, i)
    requires r == [] || (!IsTrimmable(r[0]) && !IsTrimmable(r[|r| - 1]))
    ensures r == Trim(s)
  {
    var t := Trim(s);
    var k :| 0 <= k <= |s| && TrimmedAt(t, s, k);
    SamePiece(s, r, i, t, k);
  }

  /** SQLite's default case folding for LIKE: only the ASCII letters fold. */
  function AsciiLower(c: char): char {
    if 'A' <= c <= 'Z' then (c as int + 32) as char else c
  }

  predicate SameIgnoringCase(a: char, b: char) {
    AsciiLower(a) == AsciiLower(b)
  }

  predicate EqualIgnoringCase(a: string, b: string) {
    |a| == |b| && forall i :: 0 <= i < |a| ==> SameIgnoringCase(a[i], b[i])
  }

  /** `t` occurs in `s` starting at index `i`, up to ASCII case. */
  predicate OccursAt(t: string, s: string, i: int) {
    0 <= i && i + |t| <= |s| && EqualIgnoringCase(s[i..i + |t|], t)
  }

  /** The substring search a user of the list endpoint expects. */
  predicate ContainsIgnoringCase(s: string, t: string) {
    exists i :: 0 <= i <= |s| - |t| && OccursAt(t, s, i)
  }

  /** Characters that LIKE reads as wildcards. */
  predicate HasWildcard(t: string) {
    '%' in t || '_' in t
  }

  /** SQLite's `s LIKE p` without an ESCAPE clause: `%` matches any run of
      characters, `_` any single character, and every other character itself
      up to ASCII case. */
  predicate Like(s: string, p: string)
    ensures !HasWildcard(p) ==> (Like(s, p) <==> EqualIgnoringCase(s, p))
    decreases |s| + |p|
  {
    if p == [] then s == []
    else if p[0] == '%' then Like(s, p[1..]) || (s != [] && Like(s[1..], p))
    else s != [] && (p[0] == '_' || SameIgnoringCase(s[0], p[0])) && Like(s[1..], p[1..])
  }

  lemma {:induction false} LikeTrailingPercent(s: string)
    ensures Like(s, "%")
  {
    if s != [] {
      LikeTrailingPercent(s[1..]);
    }
  }

  /** A wildcard-free pattern followed by `%` matches exactly the texts that
      start with it. */
  lemma {:induction false} LikePrefix(s: string, t: string)
    requires !HasWildcard(t)
    ensures Like(s, t + "%") <==> |t| <= |s| && EqualIgnoringCase(s[..|t|], t)
  {
    if t == [] {
      assert t + "%" == "%";
      LikeTrailingPercent(s);
    } else {
      var p := t + "%";
      assert p[0] == t[0] && p[1..] == t[1..] + "%";
      assert !HasWildcard(t[1..]) by {
        assert forall c :: c in t[1..] ==> c in t;
      }
      if s != [] {
        LikePrefix(s[1..], t[1..]);
        if |t| <= |s| {
          var a, b := s[..|t|], s[1..][..|t| - 1];
          assert a[1..] == b;
          if EqualIgnoringCase(b, t[1..]) && SameIgnoringCase(s[0], t[0]) {
            forall i | 0 <= i < |t| ensures SameIgnoringCase(a[i], t[i]) {
              if i > 0 {
                assert a[i] == b[i - 1] && t[i] == t[1..][i - 1];
              }
            }
          }
          if EqualIgnoringCase(a, t) {
            assert SameIgnoringCase(a[0], t[0]);
            forall i | 0 <= i < |t| - 1 ensures SameIgnoringCase(b[i], t[1..][i]) {
              assert b[i] == a[i + 1] && t[1..][i] == t[i + 1];
            }
          }
        }
      }
    }
  }

  /** A leading `%` lets the rest of the pattern match any suffix. */
  lemma {:induction false} LikeLeadingPercent(s: string, q: string)
    ensures Like(s, "%" + q) <==> exists i :: 0 <= i <= |s| && Like(s[i..], q)
  {
    var p := "%" + q;
    assert p[0] == '%' && p[1..] == q;
    assert s[0..] == s;
    if s != [] {
      LikeLeadingPercent(s[1..], q);
      if Like(s, p) && !Like(s, q) {
        assert Like(s[1..], p);
        var j :| 0 <= j <= |s| - 1 && Like(s[1..][j..], q);
        assert s[1..][j..] == s[j + 1..];
      }
      if exists i :: 0 <= i <= |s| && Like(s[i..], q) {
        var i :| 0 <= i <= |s| && Like(s[i..], q);
        if i > 0 {
          assert s[1..][i - 1..] == s[i..];
          assert Like(s[1..], p);
        }
      }
    }
  }

  /** With a wildcard-free term, `LIKE '%term%'` is case-insensitive
      substring search. */
  lemma LikeIsContains(s: string, t: string)
    requires !HasWildcard(t)
    ensures Like(s, "%" + t + "%") <==> ContainsIgnoringCase(s, t)
  {
    assert "%" + t + "%" == "%" + (t + "%");
    LikeLeadingPercent(s, t + "%");
    forall i | 0 <= i <= |s| ensures Like(s[i..], t + "%") <==> OccursAt(t, s, i) {
      LikePrefix(s[i..], t);
      if i + |t| <= |s| {
        assert s[i..][..|t|] == s[i..i + |t|];
      }
    }
  }

  /** The wildcards are live: a search for `_` matches any non-empty text,
      although the text holds no underscore. */
  lemma UnderscoreMatchesAnything()
    ensures Like("x", "%" + "_" + "%")
    ensures !ContainsIgnoringCase("x", "_")
  {
    assert "%" + "_" + "%" == "%_%";
    assert "%_%"[1..] == "_%" && "_%"[1..] == "%";
    LikeTrailingPercent([]);
    assert "x"[1..] == [];
    assert "x"[0..1] == "x";
    assert !EqualIgnoringCase("x", "_") by { assert "x"[0] == 'x' && "_"[0] == '_'; }
  }

  /** Byte-wise (SQLite BINARY collation) order on UTF-8 text, which is
      code-point order on the characters. */
  predicate LexLeq(a: string, b: string)
    ensures |a| <= |b| && b[..|a|] == a ==> LexLeq(a, b)
    ensures LexLeq(a, b) && a != [] ==> b != [] && a[0] <= b[0]
  {
    a == [] || (b != [] && (a[0] < b[0] || (a[0] == b[0] && LexLeq(a[1..], b[1..]))))
  }

  /** BINARY collation orders any two texts, and only equal texts both ways. */
  lemma {:induction false} LexLeqTotal(a: string, b: string)
    ensures LexLeq(a, b) || LexLeq(b, a)
    ensures LexLeq(a, b) && LexLeq(b, a) ==> a == b
    decreases |a|
  {
    if a != [] && b != [] && a[0] == b[0] {
      LexLeqTotal(a[1..], b[1..]);
      if LexLeq(a, b) && LexLeq(b, a) {
        assert a == [a[0]] + a[1..] && b == [b[0]] + b[1..];
      }
    }
  }

  /** BINARY collation is transitive. */
  lemma {:induction false} LexLeqTrans(a: string, b: string, c: string)
    requires LexLeq(a, b) && LexLeq(b, c)
    ensures LexLeq(a, c)
    decreases |a|
  {
    if a != [] && a[0] == b[0] && b[0] == c[0] {
      LexLeqTrans(a[1..], b[1..], c[1..]);
    }
  }

  /** A character JavaScript stores as a surrogate pair: one outside the Basic
      Multilingual Plane. */
  predicate IsAstral(c: char) {
    c > '\U{FFFF}'
  }

  /** JavaScript's `s.length`: UTF-16 code units, two for an astral character
      and one for any other. */
  function Utf16Length(s: string): (n: nat)
    ensures |s| <= n <= 2 * |s|
    ensures n == |s| <==> forall i :: 0 <= i < |s| ==> !IsAstral(s[i])
    decreases |s|
  {
    if s == [] then 0
    else
      var n := (if IsAstral(s[0]) then 2 else 1) + Utf16Length(s[1..]);
      assert forall i :: 1 <= i < |s| ==> s[1..][i - 1] == s[i];
      n
  }

  /** A text of astral characters only is twice as long to JavaScript. */
  lemma {:induction false} AstralLength(s: string)
    requires forall i :: 0 <= i < |s| ==> IsAstral(s[i])
    ensures Utf16Length(s) == 2 * |s|
    decreases |s|
  {
    if s != [] {
      assert forall i :: 0 <= i < |s[1..]| ==> s[1..][i] == s[i + 1];
      AstralLength(s[1..]);
    }
  }

  /** `s.endsWith(suffix)`. */
  predicate EndsWith(s: string, suffix: string) {
    |suffix| <= |s| && s[|s| - |suffix|..] == suffix
  }
}
