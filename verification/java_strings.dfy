/**
 * The few `java.lang.String` operations the correlation core relies on, stated
 * for strings as sequences of characters: `indexOf`, `split` with a literal
 * delimiter, `trim`, `replace` of one character, ASCII lower-casing and the
 * decimal rendering of a non-negative `int`.
 */
module JavaStrings {

  /** `t` occurs in `s` starting at position `i`. */
  predicate OccursAt(s: string, t: string, i: int) {
    0 <= i && i + |t| <= |s| && s[i..i + |t|] == t
  }

  /** `s.indexOf(t, from)`: the first position at or after `from` where `t` occurs, or -1. */
  function IndexOf(s: string, t: string, from: nat): (r: int)
    requires |t| > 0
    ensures r == -1 || (from <= r && OccursAt(s, t, r))
    ensures forall i :: from <= i && (r == -1 || i < r) ==> !OccursAt(s, t, i)
    decreases |s| - from
  {
    if from + |t| > |s| then -1
    else if s[from..from + |t|] == t then from
    else IndexOf(s, t, from + 1)
  }

  /** A one-character needle occurs exactly where that character sits. */
  lemma OccursAtChar(s: string, c: char, i: int)
    ensures OccursAt(s, [c], i) <==> 0 <= i < |s| && s[i] == c
  {
    if 0 <= i < |s| && s[i] == c {
      assert s[i..i + 1] == [c];
    }
  }

  /** `s.indexOf(c)` for a single character is -1 exactly when `c` is absent. */
  lemma IndexOfCharAbsent(s: string, c: char, from: nat)
    ensures IndexOf(s, [c], from) == -1 <==> forall i :: from <= i < |s| ==> s[i] != c
    ensures IndexOf(s, [c], from) != -1 ==> s[IndexOf(s, [c], from)] == c
  {
    var r := IndexOf(s, [c], from);
    if r == -1 {
      forall i | from <= i < |s|
        ensures s[i] != c
      {
        OccursAtChar(s, c, i);
      }
    } else {
      OccursAtChar(s, c, r);
    }
  }

  /** `s.indexOf(c, from)` for a single character: its first position at or after `from`, or -1. */
  function IndexOfChar(s: string, c: char, from: nat): (r: int)
    ensures r == -1 || (from <= r < |s| && s[r] == c)
    ensures forall i :: from <= i < |s| && (r == -1 || i < r) ==> s[i] != c
    decreases |s| - from
  {
    if from >= |s| then -1
    else if s[from] == c then from
    else IndexOfChar(s, c, from + 1)
  }

  /** Searching for a one-character string is searching for that character. */
  lemma {:induction false} IndexOfCharAgrees(s: string, c: char, from: nat)
    ensures IndexOfChar(s, c, from) == IndexOf(s, [c], from)
    decreases |s| - from
  {
    OccursAtChar(s, c, from);
    if from < |s| && s[from] != c {
      IndexOfCharAgrees(s, c, from + 1);
    }
  }

  /**
   * The pieces of `s` around every occurrence of `d`, found left to right and
   * without overlap, keeping empty pieces. Never empty.
   */
  function Pieces(s: string, d: string): (r: seq<string>)
    requires |d| > 0
    ensures |r| >= 1
    decreases |s|
  {
    var i := IndexOf(s, d, 0);
    if i < 0 then [s] else [s[..i]] + Pieces(s[i + |d|..], d)
  }

  /** Concatenation of `parts` with `d` between consecutive parts (`String.join`). */
  function Join(parts: seq<string>, d: string): string
  {
    if |parts| == 0 then ""
    else if |parts| == 1 then parts[0]
    else parts[0] + d + Join(parts[1..], d)
  }

  /** Splitting and re-joining with the same delimiter gives the original string back. */
  lemma {:induction false} JoinPieces(s: string, d: string)
    requires |d| > 0
    ensures Join(Pieces(s, d), d) == s
    decreases |s|
  {
    var i := IndexOf(s, d, 0);
    if i >= 0 {
      var rest := s[i + |d|..];
      var tail := Pieces(rest, d);
      JoinPieces(rest, d);
      var p := [s[..i]] + tail;
      assert Pieces(s, d) == p;
      assert p[0] == s[..i] && p[1..] == tail;
      assert Join(p, d) == s[..i] + d + Join(tail, d);
      assert s == s[..i] + d + rest by {
        assert s[i..i + |d|] == d;
        assert s == s[..i] + s[i..i + |d|] + s[i + |d|..];
      }
    }
  }

  /** No piece contains the delimiter. */
  lemma {:induction false} PiecesAvoidDelimiter(s: string, d: string)
    requires |d| > 0
    ensures forall k, j :: 0 <= k < |Pieces(s, d)| ==> !OccursAt(Pieces(s, d)[k], d, j)
    decreases |s|
  {
    var i := IndexOf(s, d, 0);
    var p := Pieces(s, d);
    if i < 0 {
      assert p == [s];
    } else {
      var rest := s[i + |d|..];
      PiecesAvoidDelimiter(rest, d);
      assert p == [s[..i]] + Pieces(rest, d);
      forall k, j | 0 <= k < |p|
        ensures !OccursAt(p[k], d, j)
      {
        if k == 0 && OccursAt(s[..i], d, j) {
          assert s[..i][j..j + |d|] == s[j..j + |d|];
          assert OccursAt(s, d, j);
        } else if k > 0 {
          assert p[k] == Pieces(rest, d)[k - 1];
        }
      }
    }
  }

  /** Joining parts free of the one-character delimiter `c` and splitting again gives the parts back. */
  lemma {:induction false} PiecesOfJoin(ps: seq<string>, c: char)
    requires |ps| >= 1
    requires forall k, i :: 0 <= k < |ps| && 0 <= i < |ps[k]| ==> ps[k][i] != c
    ensures Pieces(Join(ps, [c]), [c]) == ps
    decreases |ps|
  {
    if |ps| == 1 {
      IndexOfCharAgrees(ps[0], c, 0);
      assert Join(ps, [c]) == ps[0];
    } else {
      var tail := ps[1..];
      forall k, i | 0 <= k < |tail| && 0 <= i < |tail[k]|
        ensures tail[k][i] != c
      {
        assert tail[k] == ps[k + 1];
      }
      assert forall i :: 0 <= i < |ps[0]| ==> ps[0][i] != c;
      PiecesOfJoin(tail, c);
      assert Join(ps, [c]) == ps[0] + [c] + Join(tail, [c]);
      CutAtFirst(ps[0], Join(tail, [c]), c);
      assert ps == [ps[0]] + tail;
    }
  }

  /** The first cut of `p + [c] + rest`, when `p` is free of `c`, is right after `p`. */
  lemma CutAtFirst(p: string, rest: string, c: char)
    requires forall i :: 0 <= i < |p| ==> p[i] != c
    ensures Pieces(p + [c] + rest, [c]) == [p] + Pieces(rest, [c])
  {
    var s := p + [c] + rest;
    IndexOfCharAgrees(s, c, 0);
    assert s[|p|] == c;
    assert forall i :: 0 <= i < |p| ==> s[i] == p[i];
    assert IndexOfChar(s, c, 0) == |p|;
    assert s[..|p|] == p;
    assert s[|p| + 1..] == rest;
  }

  /** Drops empty strings from the end of `p`. */
  function DropTrailingEmpty(p: seq<string>): (r: seq<string>)
    ensures |r| <= |p| && r == p[..|r|]
    ensures forall i :: |r| <= i < |p| ==> p[i] == ""
    ensures r == [] || r[|r| - 1] != ""
  {
    if |p| == 0 then p
    else if p[|p| - 1] == "" then DropTrailingEmpty(p[..|p| - 1])
    else p
  }

  /**
   * `s.split(d)` for a delimiter without regular-expression meta characters:
   * with no occurrence of `d` the result is `[s]` (even for the empty string);
   * otherwise the pieces with trailing empty pieces removed (possibly none left).
   */
  function Split(s: string, d: string): (r: seq<string>)
    requires |d| > 0
    ensures |Pieces(s, d)| == 1 ==> r == [s]
    ensures |r| <= |Pieces(s, d)| && r == Pieces(s, d)[..|r|]
    ensures |Pieces(s, d)| > 1 ==>
              (r == [] || r[|r| - 1] != "") &&
              forall i :: |r| <= i < |Pieces(s, d)| ==> Pieces(s, d)[i] == ""
  {
    var p := Pieces(s, d);
    if |p| == 1 then p else DropTrailingEmpty(p)
  }

  /** Java's `trim` removes every character whose code is at most that of a space. */
  predicate IsTrimmable(c: char) {
    c <= ' '
  }

  /** `s.trim().isEmpty()`. */
  predicate IsBlank(s: string) {
    forall i :: 0 <= i < |s| ==> IsTrimmable(s[i])
  }

  /** The first position at or after `from` whose character `trim` keeps, or `|s|`. */
  function TrimFrom(s: string, from: nat): (i: nat)
    requires from <= |s|
    ensures from <= i <= |s|
    ensures forall k :: from <= k < i ==> IsTrimmable(s[k])
    ensures i < |s| ==> !IsTrimmable(s[i])
    decreases |s| - from
  {
    if from < |s| && IsTrimmable(s[from]) then TrimFrom(s, from + 1) else from
  }

  /** `hi` lowered past the characters `trim` removes, but not below `lo`. */
  function TrimTo(s: string, lo: nat, hi: nat): (j: nat)
    requires lo <= hi <= |s|
    ensures lo <= j <= hi
    ensures forall k :: j <= k < hi ==> IsTrimmable(s[k])
    ensures j > lo ==> !IsTrimmable(s[j - 1])
    decreases hi - lo
  {
    if hi > lo && IsTrimmable(s[hi - 1]) then TrimTo(s, lo, hi - 1) else hi
  }

  /** Neither end of `s` is a character `trim` removes. */
  predicate Trimmed(s: string) {
    s == [] || (!IsTrimmable(s[0]) && !IsTrimmable(s[|s| - 1]))
  }

  /**
   * `s.trim()`: the part of `s` between the first and the last character
   * whose code is above that of a space.
   */
  function Trim(s: string): (r: string)
    ensures r == "" <==> IsBlank(s)
    ensures Trimmed(r)
    ensures forall c :: c in r ==> c in s
  {
    var start := TrimFrom(s, 0);
    var end := TrimTo(s, start, |s|);
    var r := s[start..end];
    assert r != "" ==> r[0] == s[start] && r[|r| - 1] == s[end - 1];
    r
  }

  /** The strings `trim` leaves unchanged are exactly the trimmed ones. */
  lemma TrimmedFixed(s: string)
    ensures Trim(s) == s <==> Trimmed(s)
  {
    if Trimmed(s) {
      assert TrimFrom(s, 0) == 0;
      assert TrimTo(s, 0, |s|) == |s|;
      assert s[0..|s|] == s;
    }
  }

  /** Trimming twice is trimming once. */
  lemma TrimIdempotent(s: string)
    ensures Trim(Trim(s)) == Trim(s)
  {
    TrimmedFixed(Trim(s));
  }

  /** One leading space before an already trimmed string is trimmed away. */
  lemma TrimLeadingSpace(name: string)
    requires Trimmed(name)
    ensures Trim(" " + name) == name
  {
    var s := " " + name;
    assert TrimFrom(s, 1) == 1;
    assert TrimFrom(s, 0) == 1;
    assert TrimTo(s, 1, |s|) == |s|;
    assert s[1..|s|] == name;
  }

  /** `s.replace(String.valueOf(c), "")`. */
  function RemoveChar(s: string, c: char): (r: string)
    ensures forall i :: 0 <= i < |r| ==> r[i] != c
    ensures |r| <= |s|
  {
    if |s| == 0 then ""
    else if s[0] == c then RemoveChar(s[1..], c)
    else [s[0]] + RemoveChar(s[1..], c)
  }

  /** Lower-casing of the ASCII letters; every other character is kept. */
  function ToLowerAscii(s: string): (r: string)
    ensures |r| == |s|
    ensures forall i :: 0 <= i < |s| ==> ('A' <= s[i] <= 'Z' ==> r[i] as int == s[i] as int + 32)
    ensures forall i :: 0 <= i < |s| ==> (!('A' <= s[i] <= 'Z') ==> r[i] == s[i])
  {
    if |s| == 0 then ""
    else
      var c := if 'A' <= s[0] <= 'Z' then (s[0] as int + 32) as char else s[0];
      [c] + ToLowerAscii(s[1..])
  }

  predicate StartsWith(s: string, prefix: string) {
    |prefix| <= |s| && s[..|prefix|] == prefix
  }

  predicate IsDigit(c: char) {
    '0' <= c <= '9'
  }

  function DigitChar(d: nat): (c: char)
    requires d < 10
    ensures IsDigit(c) && c as int - '0' as int == d
  {
    ('0' as int + d) as char
  }

  /** The decimal rendering of `n` (`String.valueOf(int)` for a non-negative value). */
  function NatToString(n: nat): (r: string)
    ensures |r| >= 1
    ensures forall i :: 0 <= i < |r| ==> IsDigit(r[i])
  {
    if n < 10 then [DigitChar(n)] else NatToString(n / 10) + [DigitChar(n % 10)]
  }

  /** The number a string of decimal digits denotes. */
  function DigitsValue(s: string): nat
    requires forall i :: 0 <= i < |s| ==> IsDigit(s[i])
  {
    if |s| == 0 then 0
    else
      var last := s[|s| - 1];
      assert IsDigit(last);
      DigitsValue(s[..|s| - 1]) * 10 + (last as int - '0' as int)
  }

  /** Reading back the decimal rendering of `n` gives `n`. */
  lemma {:induction false} DigitsValueOfNatToString(n: nat)
    ensures DigitsValue(NatToString(n)) == n
  {
    if n >= 10 {
      var s := NatToString(n);
      assert s[..|s| - 1] == NatToString(n / 10);
      DigitsValueOfNatToString(n / 10);
    }
  }

  /** Different numbers have different decimal renderings. */
  lemma NatToStringInjective(a: nat, b: nat)
    requires NatToString(a) == NatToString(b)
    ensures a == b
  {
    DigitsValueOfNatToString(a);
    DigitsValueOfNatToString(b);
  }
}
