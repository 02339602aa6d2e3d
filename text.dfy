/** String helpers shared by the processor and the store: ASCII case folding,
    the regex word-character class, Python's whitespace set and `strip()`,
    and SQL `LIKE` pattern matching. */
module Text {

  /** The characters `\w` matches: letters, digits and underscore (ASCII). */
  predicate IsWordChar(c: char) {
    ('a' <= c <= 'z') || ('A' <= c <= 'Z') || ('0' <= c <= '9') || c == '_'
  }

  /** ASCII lower-casing of one character; every other character is kept. */
  function LowerChar(c: char): char {
    if 'A' <= c <= 'Z' then (c as int + 32) as char else c
  }

  function Lower(s: string): (r: string)
    ensures |r| == |s|
    ensures forall i :: 0 <= i < |s| ==> r[i] == LowerChar(s[i])
  {
    seq(|s|, i requires 0 <= i < |s| => LowerChar(s[i]))
  }

  lemma LowerAppend(a: string, b: string)
    ensures Lower(a + b) == Lower(a) + Lower(b)
  {
    assert forall i :: 0 <= i < |a + b| ==> Lower(a + b)[i] == (Lower(a) + Lower(b))[i];
  }

  /** A character whose lower-case form is a lower-case letter is a word character. */
  lemma LowerLetterIsWordChar(c: char)
    requires 'a' <= LowerChar(c) <= 'z'
    ensures IsWordChar(c)
  {
  }

  /** `str.isspace()` in Python: the characters `strip()` removes. */
  predicate IsSpace(c: char) {
    ('\t' <= c <= '\r') || ('\U{1C}' <= c <= '\U{1F}') || c == ' ' || c == '\U{85}' || c == '\U{A0}'
    || c == '\U{1680}' || ('\U{2000}' <= c <= '\U{200A}') || c == '\U{2028}' || c == '\U{2029}'
    || c == '\U{202F}' || c == '\U{205F}' || c == '\U{3000}'
  }

  /** `s` without its leading characters of the class `ws`. */
  function TrimStart(s: string, ws: char -> bool): (r: string)
    ensures |r| <= |s| && r == s[|s| - |r|..]
    ensures forall k :: 0 <= k < |s| - |r| ==> ws(s[k])
    ensures r != [] ==> !ws(r[0])
  {
    if s != [] && ws(s[0]) then TrimStart(s[1..], ws) else s
  }

  /** `s` without its trailing characters of the class `ws`. */
  function TrimEnd(s: string, ws: char -> bool): (r: string)
    ensures |r| <= |s| && r == s[..|r|]
    ensures forall k :: |r| <= k < |s| ==> ws(s[k])
    ensures r != [] ==> !ws(r[|r| - 1])
  {
    if s != [] && ws(s[|s| - 1]) then TrimEnd(s[..|s| - 1], ws) else s
  }

  /** `r` is the slice of `s` starting at `i`, and only characters of the
      class `ws` lie outside it. */
  predicate StrippedAt(s: string, i: int, r: string, ws: char -> bool) {
    0 <= i <= |s| - |r| && r == s[i..i + |r|]
    && (forall k :: 0 <= k < i ==> ws(s[k]))
    && (forall k :: i + |r| <= k < |s| ==> ws(s[k]))
  }

  /** A prefix `r` of a suffix `t` of `s`, with only `ws` characters cut
      off on either side, is a stripped slice of `s`. */
  lemma StrippedOfTrims(s: string, ws: char -> bool, t: string, r: string)
    requires |t| <= |s| && t == s[|s| - |t|..]
    requires forall k :: 0 <= k < |s| - |t| ==> ws(s[k])
    requires |r| <= |t| && r == t[..|r|]
    requires forall k :: |r| <= k < |t| ==> ws(t[k])
    ensures StrippedAt(s, |s| - |t|, r, ws)
  {
    var i := |s| - |t|;
    assert r == s[i..i + |r|];
    forall k | i + |r| <= k < |s|
      ensures ws(s[k])
    {
      assert s[k] == t[k - i];
    }
  }

  /** Trimming both ends leaves a slice with only `ws` characters outside it. */
  lemma TrimmedIsStripped(s: string, ws: char -> bool)
    ensures StrippedAt(s, |s| - |TrimStart(s, ws)|, TrimEnd(TrimStart(s, ws), ws), ws)
  {
    StrippedOfTrims(s, ws, TrimStart(s, ws), TrimEnd(TrimStart(s, ws), ws));
  }

  /** Python's `str.strip()` with no argument. The result is the slice of `s`
      left once every leading and trailing whitespace character is removed. */
  function Strip(s: string): (r: string)
    ensures exists i :: StrippedAt(s, i, r, IsSpace)
    ensures r != [] ==> !IsSpace(r[0]) && !IsSpace(r[|r| - 1])
  {
    TrimmedIsStripped(s, IsSpace);
    var t := TrimStart(s, IsSpace);
    assert TrimEnd(t, IsSpace) != [] ==> TrimEnd(t, IsSpace)[0] == t[0];
    TrimEnd(t, IsSpace)
  }

  /** A stripped slice of two or more characters starts and ends outside the
      class `ws`. */
  lemma StrippedLongHasTwo(s: string, ws: char -> bool, i: int, r: string)
    requires StrippedAt(s, i, r, ws) && |r| >= 2
    requires !ws(r[0]) && !ws(r[|r| - 1])
    ensures exists a, b :: 0 <= a < b < |s| && !ws(s[a]) && !ws(s[b])
  {
    assert s[i] == r[0] && s[i + |r| - 1] == r[|r| - 1];
  }

  /** Two characters outside the class `ws` both lie inside a stripped slice,
      so that slice holds at least two characters. */
  lemma TwoInsideStripped(s: string, ws: char -> bool, i: int, r: string, a: int, b: int)
    requires StrippedAt(s, i, r, ws)
    requires 0 <= a < b < |s| && !ws(s[a]) && !ws(s[b])
    ensures |r| >= 2
  {
    assert i <= a;
    assert b < i + |r|;
  }

  /** A stripped slice holds at least two characters exactly when `s`
      holds two characters outside the class `ws`. */
  lemma StrippedLengthAtLeastTwo(s: string, ws: char -> bool, i: int, r: string)
    requires StrippedAt(s, i, r, ws)
    requires r != [] ==> !ws(r[0]) && !ws(r[|r| - 1])
    ensures |r| >= 2 <==> exists a, b :: 0 <= a < b < |s| && !ws(s[a]) && !ws(s[b])
  {
    if |r| >= 2 {
      StrippedLongHasTwo(s, ws, i, r);
    }
    if exists a, b :: 0 <= a < b < |s| && !ws(s[a]) && !ws(s[b]) {
      var a, b :| 0 <= a < b < |s| && !ws(s[a]) && !ws(s[b]);
      TwoInsideStripped(s, ws, i, r, a, b);
    }
  }

  /** The stripped text is at least two characters long exactly when the text
      holds two non-whitespace characters. */
  lemma StripLengthAtLeastTwo(s: string)
    ensures |Strip(s)| >= 2 <==> exists a, b :: 0 <= a < b < |s| && !IsSpace(s[a]) && !IsSpace(s[b])
  {
    var r := Strip(s);
    var i :| StrippedAt(s, i, r, IsSpace);
    StrippedLengthAtLeastTwo(s, IsSpace, i, r);
  }

  /** SQL `LIKE` without an escape character: `%` matches any run of
      characters, `_` any single character, everything else itself. */
  function Like(s: string, p: string): bool
    decreases |s| + |p|
  {
    if p == [] then s == []
    else if p[0] == '%' then Like(s, p[1..]) || (s != [] && Like(s[1..], p))
    else s != [] && (p[0] == '_' || p[0] == s[0]) && Like(s[1..], p[1..])
  }

  predicate NoWildcards(q: string) {
    forall k :: 0 <= k < |q| ==> q[k] != '%' && q[k] != '_'
  }

  /** `q` occurs in `s` starting at index `i`. */
  predicate OccursAt(s: string, i: int, q: string) {
    0 <= i <= |s| - |q| && s[i..i + |q|] == q
  }

  predicate IsSubstring(q: string, s: string) {
    exists i :: 0 <= i <= |s| && OccursAt(s, i, q)
  }

  lemma {:induction false} LikeAnything(s: string)
    ensures Like(s, "%")
  {
    if s != [] {
      LikeAnything(s[1..]);
    }
  }

  /** `q%` matches exactly the texts that begin with `q`, for a literal `q`. */
  lemma {:induction false} LikePrefix(s: string, q: string)
    requires NoWildcards(q)
    ensures Like(s, q + "%") <==> (|q| <= |s| && s[..|q|] == q)
  {
    if q == [] {
      assert q + "%" == "%";
      LikeAnything(s);
    } else {
      assert (q + "%")[1..] == q[1..] + "%";
      if s != [] {
        LikePrefix(s[1..], q[1..]);
        if |q| <= |s| && s[..|q|] == q {
          assert s[1..][..|q| - 1] == s[..|q|][1..];
        }
        if |q| - 1 <= |s| - 1 && s[1..][..|q| - 1] == q[1..] && s[0] == q[0] {
          assert s[..|q|] == [s[0]] + s[1..][..|q| - 1];
        }
      }
    }
  }

  /** `%r` matches exactly the texts with a suffix that `r` matches. */
  lemma {:induction false} LikeLeadingPercent(s: string, r: string)
    ensures Like(s, "%" + r) <==> exists i :: 0 <= i <= |s| && Like(s[i..], r)
  {
    var p := "%" + r;
    assert p[1..] == r;
    if s == [] {
      assert s[0..] == s;
    } else {
      LikeLeadingPercent(s[1..], r);
      if Like(s, p) {
        if Like(s, r) {
          assert s[0..] == s;
        } else {
          var i :| 0 <= i <= |s[1..]| && Like(s[1..][i..], r);
          assert s[1..][i..] == s[i + 1..];
        }
      }
      if exists i :: 0 <= i <= |s| && Like(s[i..], r) {
        var i :| 0 <= i <= |s| && Like(s[i..], r);
        if i == 0 {
          assert s[i..] == s;
        } else {
          assert s[1..][i - 1..] == s[i..];
        }
      }
    }
  }

  /** The pattern `%q%` built from a literal `q` is a plain substring test. */
  lemma LikeContains(s: string, q: string)
    requires NoWildcards(q)
    ensures Like(s, "%" + q + "%") <==> IsSubstring(q, s)
  {
    assert "%" + q + "%" == "%" + (q + "%");
    LikeLeadingPercent(s, q + "%");
    if Like(s, "%" + q + "%") {
      var i :| 0 <= i <= |s| && Like(s[i..], q + "%");
      LikePrefix(s[i..], q);
      assert OccursAt(s, i, q) by {
        assert s[i..i + |q|] == s[i..][..|q|];
      }
    }
    if IsSubstring(q, s) {
      var i :| 0 <= i <= |s| && OccursAt(s, i, q);
      LikePrefix(s[i..], q);
      assert s[i..][..|q|] == s[i..i + |q|];
    }
  }
}
