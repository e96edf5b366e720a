/**
 * The parts of `java.lang.String` and Apache `StringUtils` that the Play reader relies on,
 * written out with the JDK's semantics: prefix and suffix tests, `indexOf`, `replaceFirst`
 * with a literal pattern, `trim`, `split` with its trailing-empty rule, and ASCII case
 * folding for `equalsIgnoreCase` and `toLowerCase`.
 */
module JavaString {
  import opened Wrappers

  /** `s.startsWith(p)`. */
  predicate StartsWith(s: string, p: string) {
    |p| <= |s| && s[..|p|] == p
  }

  /** `s.endsWith(p)`. */
  predicate EndsWith(s: string, p: string) {
    |p| <= |s| && s[|s| - |p|..] == p
  }

  /** `s.startsWith(p, offset)`: false when `p` does not fit after `offset`. */
  predicate StartsWithAt(s: string, p: string, offset: int) {
    0 <= offset && offset + |p| <= |s| && s[offset..offset + |p|] == p
  }

  /** `StringUtils.isEmpty`: null (None) or the empty string. */
  predicate IsEmpty(s: Option<string>) {
    s.None? || s.value == ""
  }

  /** `p` occurs in `s` starting at position `i`. */
  predicate OccursAt(s: string, p: string, i: nat) {
    i + |p| <= |s| && s[i..i + |p|] == p
  }

  /** The first position at or after `from` where `p` occurs in `s`. */
  function IndexFrom(s: string, p: string, from: nat): (r: Option<nat>)
    requires from <= |s|
    ensures r.Some? ==> from <= r.value && OccursAt(s, p, r.value)
    ensures r.Some? ==> forall j :: from <= j < r.value ==> !OccursAt(s, p, j)
    ensures r.None? ==> forall j :: from <= j <= |s| ==> !OccursAt(s, p, j)
    decreases |s| - from
  {
    if OccursAt(s, p, from) then Some(from)
    else if from == |s| then None
    else IndexFrom(s, p, from + 1)
  }

  /** `s.indexOf(p)`, with None for -1. */
  function IndexOf(s: string, p: string): (r: Option<nat>)
    ensures r.Some? ==> OccursAt(s, p, r.value) && forall j :: 0 <= j < r.value ==> !OccursAt(s, p, j)
    ensures r.None? <==> forall j :: 0 <= j <= |s| ==> !OccursAt(s, p, j)
  {
    IndexFrom(s, p, 0)
  }

  /** The characters that `java.util.regex.Pattern` gives a meaning outside a character class. */
  predicate RegexLiteral(p: string) {
    forall i :: 0 <= i < |p| ==> p[i] !in "\\^$.|?*+()[]{}"
  }

  /**
   * `s.replaceFirst(p, "")` when `p` holds no regex metacharacter, so that the pattern
   * matches exactly its own text: the first occurrence of `p` is cut out. The empty
   * pattern matches at position 0 and changes nothing.
   */
  function ReplaceFirst(s: string, p: string): string {
    match IndexOf(s, p)
    case Some(i) => s[..i] + s[i + |p|..]
    case None => s
  }

  /** `String.trim` treats every character up to U+0020 as white space. */
  predicate IsTrimmable(c: char) {
    c <= ' '
  }

  /** `s` without its leading white space. */
  function TrimStart(s: string): string {
    if |s| > 0 && IsTrimmable(s[0]) then TrimStart(s[1..]) else s
  }

  /** `s` without its trailing white space. */
  function TrimEnd(s: string): string {
    if |s| > 0 && IsTrimmable(s[|s| - 1]) then TrimEnd(s[..|s| - 1]) else s
  }

  /** `s.trim()`. */
  function Trim(s: string): string {
    TrimEnd(TrimStart(s))
  }

  /** Every piece of `s` between occurrences of `sep`, empty pieces included. */
  function SplitAll(s: string, sep: char): (r: seq<string>)
    ensures |r| >= 1
    ensures forall k :: 0 <= k < |r| ==> sep !in r[k]
  {
    if s == [] then [[]]
    else
      var rest := SplitAll(s[1..], sep);
      if s[0] == sep then [[]] + rest else [[s[0]] + rest[0]] + rest[1..]
  }

  /** The pieces written back with `sep` between them. */
  function Join(ps: seq<string>, sep: char): string {
    if |ps| == 0 then []
    else if |ps| == 1 then ps[0]
    else ps[0] + [sep] + Join(ps[1..], sep)
  }

  /** Drops the empty pieces at the end, as `split` does when its limit is 0. */
  function DropTrailingEmpty(ps: seq<string>): (r: seq<string>)
    ensures |r| <= |ps| && r == ps[..|r|]
    ensures forall k :: |r| <= k < |ps| ==> ps[k] == []
    ensures r == [] || r[|r| - 1] != []
  {
    if |ps| > 0 && ps[|ps| - 1] == [] then DropTrailingEmpty(ps[..|ps| - 1]) else ps
  }

  /**
   * `s.split(sep)` for a one-character separator that is no regex metacharacter: a string
   * without the separator comes back whole, otherwise the pieces with the empty ones at
   * the end removed.
   */
  function Split(s: string, sep: char): seq<string> {
    if sep !in s then [s] else DropTrailingEmpty(SplitAll(s, sep))
  }

  /** `Character.toLowerCase` on the ASCII letters; every other character is kept. */
  function LowerChar(c: char): char {
    if 'A' <= c <= 'Z' then (c as int + 32) as char else c
  }

  /** `s.toLowerCase()` on ASCII letters. */
  function ToLower(s: string): (r: string)
    ensures |r| == |s|
    ensures forall i :: 0 <= i < |s| ==> r[i] == LowerChar(s[i])
  {
    seq(|s|, i requires 0 <= i < |s| => LowerChar(s[i]))
  }

  /** No ASCII upper-case letter in `s`. */
  predicate IsLowerCase(s: string) {
    forall i :: 0 <= i < |s| ==> !('A' <= s[i] <= 'Z')
  }

  /** `a.equalsIgnoreCase(b)` for ASCII letters. */
  predicate EqualsIgnoreCase(a: string, b: string) {
    |a| == |b| && forall i :: 0 <= i < |a| ==> LowerChar(a[i]) == LowerChar(b[i])
  }

  // ---------------------------------------------------------------------------
  // Properties of the string operations
  // ---------------------------------------------------------------------------

  /** `toLowerCase` leaves no upper-case letter and is idempotent. */
  lemma ToLowerIsLower(s: string)
    ensures IsLowerCase(ToLower(s))
    ensures ToLower(ToLower(s)) == ToLower(s)
  {
  }

  /** Comparing against a lower-case word ignoring case is comparing the lowered text. */
  lemma EqualsIgnoreCaseLowered(word: string, s: string)
    requires IsLowerCase(word)
    ensures EqualsIgnoreCase(word, s) <==> ToLower(s) == word
  {
    if EqualsIgnoreCase(word, s) {
      assert forall i :: 0 <= i < |s| ==> ToLower(s)[i] == word[i];
    }
  }

  /** `TrimStart` keeps a suffix of `s`, drops only white space, and stops at a visible character. */
  lemma {:induction false} TrimStartShape(s: string)
    ensures |TrimStart(s)| <= |s| && TrimStart(s) == s[|s| - |TrimStart(s)|..]
    ensures forall k :: 0 <= k < |s| - |TrimStart(s)| ==> IsTrimmable(s[k])
    ensures TrimStart(s) == [] || !IsTrimmable(TrimStart(s)[0])
  {
    if |s| > 0 && IsTrimmable(s[0]) {
      TrimStartShape(s[1..]);
      assert forall k :: 1 <= k < |s| ==> s[1..][k - 1] == s[k];
    }
  }

  /** `TrimEnd` keeps a prefix of `s`, drops only white space, and stops at a visible character. */
  lemma {:induction false} TrimEndShape(s: string)
    ensures |TrimEnd(s)| <= |s| && TrimEnd(s) == s[..|TrimEnd(s)|]
    ensures forall k :: |TrimEnd(s)| <= k < |s| ==> IsTrimmable(s[k])
    ensures TrimEnd(s) == [] || !IsTrimmable(TrimEnd(s)[|TrimEnd(s)| - 1])
  {
    if |s| > 0 && IsTrimmable(s[|s| - 1]) {
      TrimEndShape(s[..|s| - 1]);
    }
  }

  /**
   * `trim` removes exactly the white space at both ends: the result is the part of `s`
   * between position `|s| - |TrimStart(s)|` and the next `|Trim(s)|` characters, everything outside it is white space,
   * and the result begins and ends with a visible character.
   */
  lemma TrimShape(s: string)
    ensures |Trim(s)| <= |TrimStart(s)| <= |s|
    ensures Trim(s) == s[|s| - |TrimStart(s)|..|s| - |TrimStart(s)| + |Trim(s)|]
    ensures forall k :: 0 <= k < |s| - |TrimStart(s)| ==> IsTrimmable(s[k])
    ensures forall k :: |s| - |TrimStart(s)| + |Trim(s)| <= k < |s| ==> IsTrimmable(s[k])
    ensures Trim(s) == [] || (!IsTrimmable(Trim(s)[0]) && !IsTrimmable(Trim(s)[|Trim(s)| - 1]))
  {
    var u := TrimStart(s);
    var t := TrimEnd(u);
    var i := |s| - |u|;
    TrimStartShape(s);
    TrimEndShape(u);
    TrimIsSlice(s, u, t, i);
    TrimDropsTrailingWhite(s, u, t, i);
    TrimEndsVisible(u, t);
  }

  lemma TrimIsSlice(s: string, u: string, t: string, i: int)
    requires u == TrimStart(s) && t == TrimEnd(u) && i == |s| - |u|
    requires |t| <= |u| <= |s|
    ensures t == s[i..i + |t|]
  {
    TrimStartShape(s);
    TrimEndShape(u);
    SliceOfSlice(s, u, t, i);
  }

  lemma TrimDropsTrailingWhite(s: string, u: string, t: string, i: int)
    requires u == TrimStart(s) && t == TrimEnd(u) && i == |s| - |u|
    requires |t| <= |u| <= |s|
    ensures forall k :: i + |t| <= k < |s| ==> IsTrimmable(s[k])
  {
    TrimStartShape(s);
    TrimEndShape(u);
    assert u == s[i..];
    forall k | i + |t| <= k < |s| ensures IsTrimmable(s[k]) {
      assert s[k] == u[k - i];
    }
  }

  lemma TrimEndsVisible(u: string, t: string)
    requires u == [] || !IsTrimmable(u[0])
    requires t == TrimEnd(u)
    ensures t == [] || (!IsTrimmable(t[0]) && !IsTrimmable(t[|t| - 1]))
  {
    TrimEndShape(u);
    if t != [] {
      assert t[0] == u[0];
    }
  }

  lemma SliceOfSlice(s: string, u: string, t: string, i: int)
    requires 0 <= i <= |s| && u == s[i..] && |t| <= |u| && t == u[..|t|]
    ensures t == s[i..i + |t|]
  {
  }

  /** Concatenation is associative (stated once so that proofs can cite it cheaply). */
  lemma ConcatAssoc<T>(a: seq<T>, b: seq<T>, c: seq<T>)
    ensures a + b + c == a + (b + c)
  {
  }

  /** Writing the pieces back together gives the original text. */
  lemma {:induction false} JoinSplitAll(s: string, sep: char)
    ensures Join(SplitAll(s, sep), sep) == s
  {
    if s != [] {
      var rest := SplitAll(s[1..], sep);
      JoinSplitAll(s[1..], sep);
      if s[0] == sep {
        assert SplitAll(s, sep) == [[]] + rest;
        assert ([[]] + rest)[1..] == rest;
      } else {
        var r := [[s[0]] + rest[0]] + rest[1..];
        assert SplitAll(s, sep) == r;
        if |rest| == 1 {
          assert r == [[s[0]] + rest[0]];
        } else {
          assert r[1..] == rest[1..];
          assert Join(rest, sep) == rest[0] + [sep] + Join(rest[1..], sep);
        }
      }
    }
  }

  /** Splitting a text without separator gives the text alone. */
  lemma {:induction false} SplitAllNoSep(p: string, sep: char)
    requires sep !in p
    ensures SplitAll(p, sep) == [p]
  {
    if p != [] {
      SplitAllNoSep(p[1..], sep);
      assert [p[0]] + p[1..] == p;
    }
  }

  /** A separator-free piece followed by the separator splits off as one piece. */
  lemma {:induction false} SplitAllAfterPiece(p: string, sep: char, t: string)
    requires sep !in p
    ensures SplitAll(p + [sep] + t, sep) == [p] + SplitAll(t, sep)
  {
    if p == [] {
      assert p + [sep] + t == [sep] + t;
      assert ([sep] + t)[1..] == t;
    } else {
      var s := p + [sep] + t;
      assert s[0] == p[0];
      assert s[1..] == p[1..] + [sep] + t;
      SplitAllAfterPiece(p[1..], sep, t);
      assert [p[0]] + p[1..] == p;
    }
  }

  /** Splitting undoes joining separator-free pieces: `SplitAll` and `Join` are inverse. */
  lemma {:induction false} SplitAllJoin(ps: seq<string>, sep: char)
    requires |ps| >= 1
    requires forall k :: 0 <= k < |ps| ==> sep !in ps[k]
    ensures SplitAll(Join(ps, sep), sep) == ps
  {
    if |ps| == 1 {
      SplitAllNoSep(ps[0], sep);
    } else {
      SplitAllJoin(ps[1..], sep);
      SplitAllAfterPiece(ps[0], sep, Join(ps[1..], sep));
      assert [ps[0]] + ps[1..] == ps;
    }
  }

  /** Appending a piece appends the separator and the piece. */
  lemma {:induction false} JoinSnoc(qs: seq<string>, p: string, sep: char)
    requires |qs| >= 1
    ensures Join(qs + [p], sep) == Join(qs, sep) + [sep] + p
  {
    if |qs| == 1 {
      assert (qs + [p])[1..] == [p];
    } else {
      assert (qs + [p])[1..] == qs[1..] + [p];
      JoinSnoc(qs[1..], p, sep);
    }
  }

  /** Dropping empty trailing pieces drops only separators from the end of the joined text. */
  lemma {:induction false} JoinDropTrailingEmpty(ps: seq<string>, sep: char)
    requires |ps| >= 1
    ensures StartsWith(Join(ps, sep), Join(DropTrailingEmpty(ps), sep))
    ensures forall i :: |Join(DropTrailingEmpty(ps), sep)| <= i < |Join(ps, sep)| ==> Join(ps, sep)[i] == sep
  {
    if ps[|ps| - 1] == [] {
      var qs := ps[..|ps| - 1];
      assert DropTrailingEmpty(ps) == DropTrailingEmpty(qs);
      if |qs| >= 1 {
        assert ps == qs + [[]];
        JoinSnoc(qs, [], sep);
        JoinDropTrailingEmpty(qs, sep);
      }
    }
  }

  /**
   * What `split` promises: no piece holds the separator, the last piece is not empty
   * (unless the text has no separator at all), and the pieces written back together are
   * the text with only separators missing at its end.
   */
  lemma SplitSpec(s: string, sep: char)
    ensures forall k :: 0 <= k < |Split(s, sep)| ==> sep !in Split(s, sep)[k]
    ensures sep in s ==> Split(s, sep) == [] || Split(s, sep)[|Split(s, sep)| - 1] != []
    ensures sep !in s ==> Split(s, sep) == [s]
    ensures StartsWith(s, Join(Split(s, sep), sep))
    ensures forall i :: |Join(Split(s, sep), sep)| <= i < |s| ==> s[i] == sep
  {
    if sep in s {
      JoinSplitAll(s, sep);
      JoinDropTrailingEmpty(SplitAll(s, sep), sep);
    }
  }
}
