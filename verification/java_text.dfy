/**
 * The few operations of java.lang.String that the application's decisions rest on:
 * `trim`, `isEmpty` after `trim`, `toLowerCase` / `equalsIgnoreCase` on ASCII letters,
 * and `replace(CharSequence, CharSequence)`.
 */
module JavaText {

  /** `String.trim()` strips every leading and trailing char whose code is at most U+0020. */
  predicate IsTrimmable(c: char) {
    c <= ' '
  }

  function TrimStart(s: string): (r: string)
    ensures |r| <= |s| && r == s[|s| - |r|..]
    ensures forall i :: 0 <= i < |s| - |r| ==> IsTrimmable(s[i])
    ensures r != [] ==> !IsTrimmable(r[0])
  {
    if s != [] && IsTrimmable(s[0]) then TrimStart(s[1..]) else s
  }

  function TrimEnd(s: string): (r: string)
    ensures |r| <= |s| && r == s[..|r|]
    ensures forall i :: |r| <= i < |s| ==> IsTrimmable(s[i])
    ensures r != [] ==> !IsTrimmable(r[|r| - 1])
  {
    if s != [] && IsTrimmable(s[|s| - 1]) then TrimEnd(s[..|s| - 1]) else s
  }

  /** `s.trim()`: empty exactly when every char of `s` is trimmable, otherwise it starts and ends with a non-trimmable char. */
  function Trim(s: string): (r: string)
    ensures |r| <= |s|
    ensures r == [] <==> forall i :: 0 <= i < |s| ==> IsTrimmable(s[i])
    ensures r != [] ==> !IsTrimmable(r[0]) && !IsTrimmable(r[|r| - 1])
    decreases |s|
  {
    if s != [] && IsTrimmable(s[0]) then Trim(s[1..]) else TrimEnd(s)
  }

  /**
   * `r` is the slice of `s` that starts at `a`, and every char of `s` outside that slice
   * is trimmable.
   */
  ghost predicate TrimmedAt(s: string, r: string, a: int) {
    0 <= a && a + |r| <= |s| && r == s[a..a + |r|] &&
    (forall i :: 0 <= i < a ==> IsTrimmable(s[i])) &&
    (forall i :: a + |r| <= i < |s| ==> IsTrimmable(s[i]))
  }

  /** `s.trim()` is the part of `s` left after removing the trimmable chars at both ends. */
  lemma {:induction false} TrimSlice(s: string)
    ensures exists a :: TrimmedAt(s, Trim(s), a)
    decreases |s|
  {
    var r := Trim(s);
    if s != [] && IsTrimmable(s[0]) {
      var t := s[1..];
      assert r == Trim(t);
      TrimSlice(t);
      var a :| TrimmedAt(t, r, a);
      assert t[a..a + |r|] == s[a + 1..a + 1 + |r|];
      assert TrimmedAt(s, r, a + 1);
    } else {
      assert r == TrimEnd(s);
      assert TrimmedAt(s, r, 0);
    }
  }

  /** `s.trim().isEmpty()` */
  predicate IsBlank(s: string) {
    Trim(s) == []
  }

  lemma TrimIdempotent(s: string)
    ensures Trim(Trim(s)) == Trim(s)
  {
    var r := Trim(s);
    if r != [] {
      assert TrimStart(r) == r;
      assert TrimEnd(r) == r;
    }
  }

  /** A string whose first char is not trimmable is not blank. */
  lemma NotBlankWhenFirstVisible(s: string)
    requires s != [] && !IsTrimmable(s[0])
    ensures !IsBlank(s)
  {
  }

  function LowerChar(c: char): char {
    if 'A' <= c <= 'Z' then (c as int + 32) as char else c
  }

  /** `toLowerCase()` restricted to ASCII letters. */
  function ToLower(s: string): (r: string)
    ensures |r| == |s|
  {
    seq(|s|, i requires 0 <= i < |s| => LowerChar(s[i]))
  }

  /** `a.equalsIgnoreCase(b)` restricted to ASCII letters. */
  predicate EqualsIgnoreCase(a: string, b: string) {
    ToLower(a) == ToLower(b)
  }

  /**
   * `s.replace(pat, rep)`: one left-to-right pass that replaces each non-overlapping
   * occurrence of `pat` found in `s`; text produced by a replacement is not scanned again.
   */
  function Replace(s: string, pat: string, rep: string): string
    requires pat != []
    decreases |s|
  {
    if |s| < |pat| then s
    else if s[..|pat|] == pat then rep + Replace(s[|pat|..], pat, rep)
    else [s[0]] + Replace(s[1..], pat, rep)
  }

  /** Replacing a char by text that does not contain it leaves no occurrence of it. */
  lemma {:induction false} ReplaceCharGone(s: string, c: char, rep: string)
    requires c !in rep
    ensures c !in Replace(s, [c], rep)
    decreases |s|
  {
    if |s| >= 1 {
      ReplaceCharGone(s[1..], c, rep);
      if s[..1] == [c] {
        assert s[1..] == s[|[c]|..];
      }
    }
  }

  /** Any other char occurs in the result iff it occurs in the input or in the replacement text (when used). */
  lemma {:induction false} ReplaceCharKeeps(s: string, c: char, rep: string, d: char)
    requires d != c && d !in rep
    ensures d in Replace(s, [c], rep) <==> d in s
    decreases |s|
  {
    if |s| >= 1 {
      ReplaceCharKeeps(s[1..], c, rep, d);
      assert s == [s[0]] + s[1..];
      if s[..1] == [c] {
        assert s[1..] == s[|[c]|..];
      }
    }
  }

  /** A pattern whose first char does not occur in `s` leaves `s` unchanged. */
  lemma {:induction false} ReplaceAbsent(s: string, pat: string, rep: string)
    requires pat != [] && pat[0] !in s
    ensures Replace(s, pat, rep) == s
    decreases |s|
  {
    if |s| >= |pat| {
      assert s[..|pat|][0] == s[0] != pat[0];
      ReplaceAbsent(s[1..], pat, rep);
      assert [s[0]] + s[1..] == s;
    }
  }

  /** A leading char that cannot start the pattern is copied, and the scan goes on after it. */
  lemma ReplaceSkipsChar(c: char, s: string, pat: string, rep: string)
    requires pat != [] && c != pat[0]
    ensures Replace([c] + s, pat, rep) == [c] + Replace(s, pat, rep)
  {
    var t := [c] + s;
    if |t| >= |pat| {
      assert t[..|pat|][0] == c;
      assert t[1..] == s;
    }
  }

  /** A leading occurrence of the pattern is replaced, and the scan goes on after it. */
  lemma ReplaceHead(pat: string, s: string, rep: string)
    requires pat != []
    ensures Replace(pat + s, pat, rep) == rep + Replace(s, pat, rep)
  {
    assert (pat + s)[..|pat|] == pat;
    assert (pat + s)[|pat|..] == s;
  }
}
