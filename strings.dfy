/**
 * The java.lang.String and java.lang.Integer operations the program relies on,
 * written out with Java's semantics: trim, indexOf/contains, split (with a
 * limit of 0 and of 2), toLowerCase as far as ASCII keywords can tell,
 * decimal rendering and Integer.parseInt.
 */
module JavaStrings {
  import opened Wrappers

  // ---------------------------------------------------------------- trim

  /** String.trim removes every character whose code is at most U+0020. */
  predicate IsTrimmable(c: char)
  {
    c <= ' '
  }

  /** True when every character of s is removed by trim. */
  predicate AllTrimmable(s: string)
  {
    forall i :: 0 <= i < |s| ==> IsTrimmable(s[i])
  }

  /** s has no trimmable character at either end. */
  predicate Trimmed(s: string)
  {
    s == [] || (!IsTrimmable(s[0]) && !IsTrimmable(s[|s| - 1]))
  }

  /** s without its trailing trimmable characters. */
  function TrimEnd(s: string): (r: string)
    ensures |r| <= |s|
    decreases |s|
  {
    if |s| > 0 && IsTrimmable(s[|s| - 1]) then TrimEnd(s[..|s| - 1]) else s
  }

  /** Java's String.trim: the leading and the trailing trimmable characters removed. */
  function Trim(s: string): (r: string)
    ensures |r| <= |s|
    decreases |s|
  {
    if |s| > 0 && IsTrimmable(s[0]) then Trim(s[1..]) else TrimEnd(s)
  }

  lemma {:induction false} TrimEndFacts(s: string)
    ensures var r := TrimEnd(s);
      && r == s[..|r|] && AllTrimmable(s[|r|..])
      && (r == [] || !IsTrimmable(r[|r| - 1]))
    decreases |s|
  {
    if |s| > 0 && IsTrimmable(s[|s| - 1]) {
      var p := s[..|s| - 1];
      TrimEndFacts(p);
      var r := TrimEnd(p);
      assert s[..|r|] == p[..|r|];
      assert s[|r|..] == p[|r|..] + [s[|s| - 1]];
    }
  }

  /**
   * What trim keeps: a string with no trimmable character at either end,
   * made of characters of s, and empty exactly when every character of s is
   * trimmable.
   */
  lemma {:induction false} TrimFacts(s: string)
    ensures Trimmed(Trim(s))
    ensures forall c :: c in Trim(s) ==> c in s
    ensures Trim(s) == [] <==> AllTrimmable(s)
    decreases |s|
  {
    if |s| > 0 && IsTrimmable(s[0]) {
      TrimFacts(s[1..]);
      assert forall c :: c in s[1..] ==> c in s;
      assert AllTrimmable(s) <==> AllTrimmable(s[1..]) by {
        assert forall i :: 1 <= i < |s| ==> s[i] == s[1..][i - 1];
      }
    } else {
      TrimEndFacts(s);
      var r := TrimEnd(s);
      assert forall c :: c in r ==> c in s by {
        assert r == s[..|r|];
      }
      if r != [] {
        assert r[0] == s[0];
      } else {
        assert s[|r|..] == s;
      }
    }
  }

  /** A string with no trimmable character at either end is its own trim. */
  lemma TrimOfTrimmed(s: string)
    requires Trimmed(s)
    ensures Trim(s) == s
  {
  }

  /** Trimming twice is trimming once. */
  lemma TrimIdempotent(s: string)
    ensures Trim(Trim(s)) == Trim(s)
  {
    TrimFacts(s);
    TrimOfTrimmed(Trim(s));
  }

  /** Blank characters in front of s do not change its trim. */
  lemma {:induction false} TrimBlankPrefix(u: string, s: string)
    requires AllTrimmable(u)
    ensures Trim(u + s) == Trim(s)
    decreases |u|
  {
    if u != [] {
      assert (u + s)[0] == u[0];
      assert (u + s)[1..] == u[1..] + s;
      TrimBlankPrefix(u[1..], s);
    } else {
      assert u + s == s;
    }
  }

  /** Blank characters after a string that ends in a kept character are all removed. */
  lemma {:induction false} TrimEndBlankSuffix(x: string, v: string)
    requires AllTrimmable(v)
    requires x == [] || !IsTrimmable(x[|x| - 1])
    ensures TrimEnd(x + v) == x
    decreases |v|
  {
    if v != [] {
      var w := v[..|v| - 1];
      assert (x + v)[|x + v| - 1] == v[|v| - 1];
      assert (x + v)[..|x + v| - 1] == x + w;
      TrimEndBlankSuffix(x, w);
    } else {
      assert x + v == x;
    }
  }

  /** trim of a trimmed, non-empty string with blanks around it is that string. */
  lemma TrimAround(u: string, x: string, v: string)
    requires AllTrimmable(u) && AllTrimmable(v)
    requires Trimmed(x) && x != []
    ensures Trim(u + x + v) == x
  {
    assert u + x + v == u + (x + v);
    TrimBlankPrefix(u, x + v);
    assert (x + v)[0] == x[0];
    TrimEndBlankSuffix(x, v);
  }

  // ------------------------------------------------------------ indexOf

  /** d occurs in s starting at index j. */
  predicate OccursAt(s: string, d: string, j: nat)
  {
    j + |d| <= |s| && s[j..j + |d|] == d
  }

  /** The first index at or after k at which d occurs in s. */
  function IndexFrom(s: string, d: string, k: nat): (r: Option<nat>)
    requires d != []
    ensures r.Some? ==> k <= r.value && OccursAt(s, d, r.value)
    ensures r.Some? ==> forall j: nat :: k <= j < r.value ==> !OccursAt(s, d, j)
    ensures r.None? ==> forall j: nat :: k <= j ==> !OccursAt(s, d, j)
    decreases |s| - k
  {
    if k + |d| > |s| then None
    else if s[k..k + |d|] == d then Some(k)
    else IndexFrom(s, d, k + 1)
  }

  /** The first index at which d occurs in s (String.indexOf), or None. */
  function IndexOf(s: string, d: string): (r: Option<nat>)
    requires d != []
    ensures r.Some? ==> OccursAt(s, d, r.value)
    ensures r.Some? ==> forall j: nat :: j < r.value ==> !OccursAt(s, d, j)
    ensures r.None? ==> forall j: nat :: !OccursAt(s, d, j)
  {
    IndexFrom(s, d, 0)
  }

  /** String.contains. */
  predicate Contains(s: string, d: string)
    requires d != []
  {
    IndexOf(s, d).Some?
  }

  /** A single character occurs in s exactly when the one-character string does. */
  lemma {:induction false} ContainsChar(s: string, c: char)
    ensures Contains(s, [c]) <==> c in s
  {
    if c in s {
      var j :| 0 <= j < |s| && s[j] == c;
      assert s[j..j + 1] == [c];
      assert OccursAt(s, [c], j);
    } else {
      forall j: nat ensures !OccursAt(s, [c], j) {
        if j + 1 <= |s| {
          assert s[j..j + 1] == [s[j]];
        }
      }
    }
  }

  // -------------------------------------------------------------- split

  /**
   * The pieces between consecutive non-overlapping occurrences of d, scanning
   * left to right, keeping every piece (one more piece than occurrences).
   */
  function Pieces(s: string, d: string): (r: seq<string>)
    requires d != []
    ensures |r| >= 1
    decreases |s|
  {
    match IndexOf(s, d)
    case None => [s]
    case Some(i) => [s[..i]] + Pieces(s[i + |d|..], d)
  }

  /** ps without its trailing empty strings. */
  function DropTrailingEmpty(ps: seq<string>): (r: seq<string>)
    ensures |r| <= |ps| && r == ps[..|r|]
    ensures r == [] || r[|r| - 1] != []
    ensures forall i :: |r| <= i < |ps| ==> ps[i] == []
  {
    if ps != [] && ps[|ps| - 1] == [] then DropTrailingEmpty(ps[..|ps| - 1]) else ps
  }

  /**
   * Java's String.split(d) with a literal delimiter and limit 0: without an
   * occurrence the result is [s]; otherwise all pieces with the trailing
   * empty ones removed (so "a|b|" has two pieces and "|" none).
   */
  function Split(s: string, d: string): seq<string>
    requires d != []
  {
    if !Contains(s, d) then [s] else DropTrailingEmpty(Pieces(s, d))
  }

  /** Java's String.split(d, 2): the text before the first occurrence and everything after it. */
  function SplitLimit2(s: string, d: string): (r: seq<string>)
    requires d != []
    ensures 1 <= |r| <= 2
  {
    match IndexOf(s, d)
    case None => [s]
    case Some(i) => [s[..i], s[i + |d|..]]
  }

  /**
   * The first piece of split(c, 2) is the text before the first c, or all
   * of s when c does not occur.
   */
  lemma SplitLimit2FirstPiece(s: string, c: char)
    ensures var w := SplitLimit2(s, [c])[0];
      && |w| <= |s| && w == s[..|w|] && c !in w
      && (|w| == |s| || s[|w|] == c)
  {
    ContainsChar(s, c);
    match IndexOf(s, [c])
    case None =>
      assert s[..|s|] == s;
    case Some(i) =>
      assert OccursAt(s, [c], i);
      assert s[i] == s[i..i + 1][0];
      if c in s[..i] {
        var j :| 0 <= j < i && s[..i][j] == c;
        assert s[j..j + 1] == [c];
        assert OccursAt(s, [c], j);
      }
  }

  /** The strings of fs with d between consecutive ones. */
  function Join(fs: seq<string>, d: string): string
  {
    if |fs| == 0 then ""
    else if |fs| == 1 then fs[0]
    else fs[0] + d + Join(fs[1..], d)
  }

  /** Join puts the separator after the first string when more follow. */
  lemma JoinCons(f: string, fs: seq<string>, d: string)
    requires fs != []
    ensures Join([f] + fs, d) == f + d + Join(fs, d)
  {
    assert ([f] + fs)[1..] == fs;
  }

  /** Join of three strings, written out. */
  lemma JoinThree(a: string, b: string, c: string, d: string)
    ensures Join([a, b, c], d) == a + d + b + d + c
  {
    JoinCons(b, [c], d);
    assert [b] + [c] == [b, c];
    JoinCons(a, [b, c], d);
    assert [a] + [b, c] == [a, b, c];
  }

  /** Join of four strings, written out. */
  lemma JoinFour(a: string, b: string, c: string, e: string, d: string)
    ensures Join([a, b, c, e], d) == a + d + b + d + c + d + e
  {
    JoinThree(b, c, e, d);
    JoinCons(a, [b, c, e], d);
    assert [a] + [b, c, e] == [a, b, c, e];
  }

  /** Join of five strings, written out. */
  lemma JoinFive(a: string, b: string, c: string, e: string, g: string, d: string)
    ensures Join([a, b, c, e, g], d) == a + d + b + d + c + d + e + d + g
  {
    JoinFour(b, c, e, g, d);
    JoinCons(a, [b, c, e, g], d);
    assert [a] + [b, c, e, g] == [a, b, c, e, g];
  }

  /** Joining the pieces back together restores the split string. */
  lemma {:induction false} JoinPieces(s: string, d: string)
    requires d != []
    ensures Join(Pieces(s, d), d) == s
    decreases |s|
  {
    match IndexOf(s, d)
    case None =>
    case Some(i) =>
      var rest := s[i + |d|..];
      var ps := Pieces(rest, d);
      JoinPieces(rest, d);
      assert Pieces(s, d) == [s[..i]] + ps;
      assert ([s[..i]] + ps)[1..] == ps;
      assert Join(Pieces(s, d), d) == s[..i] + d + Join(ps, d);
      assert s[i..i + |d|] == d;
      assert s == s[..i] + s[i..i + |d|] + rest;
  }

  /** No piece contains the delimiter. */
  lemma {:induction false} PiecesFree(s: string, d: string)
    requires d != []
    ensures forall k :: 0 <= k < |Pieces(s, d)| ==> !Contains(Pieces(s, d)[k], d)
    decreases |s|
  {
    match IndexOf(s, d)
    case None =>
    case Some(i) =>
      var rest := s[i + |d|..];
      PiecesFree(rest, d);
      var p := s[..i];
      forall j: nat | OccursAt(p, d, j)
        ensures OccursAt(s, d, j)
      {
        assert p[j..j + |d|] == s[j..j + |d|];
      }
      assert !Contains(p, d);
      assert Pieces(s, d) == [p] + Pieces(rest, d);
  }

  /** The prefix of s before index k holds no copy of c but s[k] is c: indexOf finds k. */
  lemma IndexOfChar(s: string, c: char, k: nat)
    requires k < |s| && s[k] == c
    requires c !in s[..k]
    ensures IndexOf(s, [c]) == Some(k)
  {
    assert s[k..k + 1] == [c];
    assert OccursAt(s, [c], k);
    forall j: nat | j < k
      ensures !OccursAt(s, [c], j)
    {
      assert s[j..j + 1] == [s[..k][j]];
    }
  }

  /**
   * Splitting a join on a one-character delimiter that occurs in none of the
   * strings gives those strings back.
   */
  lemma {:induction false} PiecesOfJoin(fs: seq<string>, c: char)
    requires |fs| >= 1
    requires forall k :: 0 <= k < |fs| ==> c !in fs[k]
    ensures Pieces(Join(fs, [c]), [c]) == fs
    decreases |fs|
  {
    var s := Join(fs, [c]);
    if |fs| == 1 {
      ContainsChar(s, c);
    } else {
      var p := fs[0];
      var rest := Join(fs[1..], [c]);
      assert s == p + [c] + rest;
      assert s[..|p|] == p;
      IndexOfChar(s, c, |p|);
      assert s[|p| + 1..] == rest;
      PiecesOfJoin(fs[1..], c);
      assert Pieces(s, [c]) == [p] + Pieces(rest, [c]);
    }
  }

  /**
   * The round trip the storage format relies on: splitting a join of at
   * least two strings, none containing c, gives those strings back up to the
   * trailing empty ones, which split drops; so all of them when the last one
   * is not empty.
   */
  lemma SplitOfJoin(fs: seq<string>, c: char)
    requires |fs| >= 2
    requires forall k :: 0 <= k < |fs| ==> c !in fs[k]
    ensures Split(Join(fs, [c]), [c]) == DropTrailingEmpty(fs)
    ensures fs[|fs| - 1] != [] ==> Split(Join(fs, [c]), [c]) == fs
  {
    var s := Join(fs, [c]);
    PiecesOfJoin(fs, c);
    assert s == fs[0] + [c] + Join(fs[1..], [c]);
    assert s[|fs[0]|] == c;
    ContainsChar(s, c);
  }

  /** A string without the delimiter's first character does not contain the delimiter. */
  lemma NoMarker(s: string, d: string)
    requires d != [] && d[0] !in s
    ensures !Contains(s, d)
  {
    forall j: nat ensures !OccursAt(s, d, j) {
      if j + |d| <= |s| {
        assert s[j..j + |d|][0] == s[j];
      }
    }
  }

  /** The delimiter occurs in any text built around it. */
  lemma OccursIn(a: string, d: string, x: string)
    requires d != []
    ensures Contains(a + d + x, d)
  {
    var s := a + d + x;
    assert s[|a|..|a| + |d|] == d;
    assert OccursAt(s, d, |a|);
  }

  /**
   * Splitting text with one occurrence of the delimiter, the first character
   * of which occurs nowhere before it, gives the text before and after it.
   */
  lemma SplitAtMarker(a: string, d: string, x: string)
    requires d != [] && d[0] !in a && !Contains(x, d)
    ensures Contains(a + d + x, d)
    ensures Pieces(a + d + x, d) == [a, x]
    ensures x != [] ==> Split(a + d + x, d) == [a, x]
  {
    var s := a + d + x;
    assert s[|a|..|a| + |d|] == d;
    assert OccursAt(s, d, |a|);
    forall j: nat | j < |a|
      ensures !OccursAt(s, d, j)
    {
      if j + |d| <= |s| {
        assert s[j..j + |d|][0] == a[j];
      }
    }
    var i := IndexOf(s, d).value;
    assert s[..i] == a;
    assert s[i + |d|..] == x;
  }

  /** The first piece of a split is the text before the first occurrence. */
  lemma SplitFirstPiece(s: string, d: string)
    requires d != []
    requires Contains(s, d) && |Split(s, d)| >= 1
    ensures Split(s, d)[0] == s[..IndexOf(s, d).value]
  {
  }

  /** The text before the first occurrence of d. */
  function Before(s: string, d: string): string
    requires d != [] && Contains(s, d)
  {
    s[..IndexOf(s, d).value]
  }

  /** The text after the first occurrence of d. */
  function After(s: string, d: string): string
    requires d != [] && Contains(s, d)
  {
    s[IndexOf(s, d).value + |d|..]
  }

  /** The text before the first occurrence of d, or all of s when d does not occur. */
  function UpTo(s: string, d: string): string
    requires d != []
  {
    if Contains(s, d) then Before(s, d) else s
  }

  /** s is nothing but copies of d, zero or more of them. */
  predicate Repeats(s: string, d: string)
    requires d != []
    decreases |s|
  {
    s == [] || (OccursAt(s, d, 0) && Repeats(s[|d|..], d))
  }

  /**
   * split(d) yields at least two pieces: d occurs, and something other than
   * further copies of d follows its first occurrence.
   */
  predicate SplitsInTwo(s: string, d: string)
    requires d != []
  {
    Contains(s, d) && !Repeats(After(s, d), d)
  }

  /** The second piece of split(d): what follows the first d, up to the next one. */
  function SecondPiece(s: string, d: string): string
    requires d != [] && Contains(s, d)
  {
    UpTo(After(s, d), d)
  }

  /** Every string of ps is empty. */
  predicate AllEmpty(ps: seq<string>)
  {
    forall k :: 0 <= k < |ps| ==> ps[k] == []
  }

  lemma AllEmptyCons(x: string, qs: seq<string>)
    ensures AllEmpty([x] + qs) <==> x == [] && AllEmpty(qs)
  {
    var ps := [x] + qs;
    assert ps[0] == x;
    assert forall k :: 0 <= k < |qs| ==> ps[k + 1] == qs[k];
  }

  /** The pieces of s are all empty exactly when s is copies of d. */
  lemma {:induction false} EmptyPieces(s: string, d: string)
    requires d != []
    ensures AllEmpty(Pieces(s, d)) <==> Repeats(s, d)
    decreases |s|
  {
    match IndexOf(s, d)
    case None =>
      assert Pieces(s, d) == [s];
      assert s != [] ==> !OccursAt(s, d, 0);
      AllEmptyCons(s, []);
    case Some(i) =>
      var rest := s[i + |d|..];
      EmptyPieces(rest, d);
      assert Pieces(s, d) == [s[..i]] + Pieces(rest, d);
      AllEmptyCons(s[..i], Pieces(rest, d));
      if i == 0 {
        assert s[|d|..] == rest;
      } else {
        assert s[..i] != [];
      }
  }

  /** A list keeps at least two elements once its trailing empty strings are dropped exactly when one after the first is non-empty. */
  lemma DropKeepsTwo(ps: seq<string>)
    ensures |DropTrailingEmpty(ps)| >= 2 <==> exists j :: 1 <= j < |ps| && ps[j] != []
  {
    var r := DropTrailingEmpty(ps);
    if |r| >= 2 {
      assert ps[|r| - 1] == r[|r| - 1];
    }
  }

  /**
   * split(d) has at least two pieces exactly when SplitsInTwo holds, and then
   * they are the text before the first d and the text up to the next.
   */
  lemma SplitTwoPieces(s: string, d: string)
    requires d != []
    ensures |Split(s, d)| >= 2 <==> SplitsInTwo(s, d)
    ensures SplitsInTwo(s, d) ==> Split(s, d)[0] == Before(s, d) && Split(s, d)[1] == SecondPiece(s, d)
  {
    if Contains(s, d) {
      var ps := Pieces(s, d);
      var qs := Pieces(After(s, d), d);
      assert ps == [Before(s, d)] + qs;
      EmptyPieces(After(s, d), d);
      DropKeepsTwo(ps);
      assert forall k :: 0 <= k < |qs| ==> ps[k + 1] == qs[k];
      assert qs[0] == SecondPiece(s, d);
    }
  }

  /** Every piece of a split is made of characters of the split string. */
  lemma SplitChars(s: string, d: string)
    requires d != []
    ensures forall k, c :: 0 <= k < |Split(s, d)| && c in Split(s, d)[k] ==> c in s
  {
    PiecesChars(s, d);
  }

  lemma {:induction false} PiecesChars(s: string, d: string)
    requires d != []
    ensures forall k, c :: 0 <= k < |Pieces(s, d)| && c in Pieces(s, d)[k] ==> c in s
    decreases |s|
  {
    match IndexOf(s, d)
    case None =>
    case Some(i) =>
      assert forall x :: x in s[i + |d|..] ==> x in s;
      PiecesChars(s[i + |d|..], d);
      assert forall x :: x in s[..i] ==> x in s;
  }

  /** No piece of a split on a single character holds that character. */
  lemma SplitFree(s: string, c: char)
    ensures forall k :: 0 <= k < |Split(s, [c])| ==> c !in Split(s, [c])[k]
  {
    ContainsChar(s, c);
    PiecesFree(s, [c]);
    forall k | 0 <= k < |Pieces(s, [c])|
      ensures c !in Pieces(s, [c])[k]
    {
      ContainsChar(Pieces(s, [c])[k], c);
    }
  }

  // --------------------------------------------------------- toLowerCase

  /**
   * The lower case of c as Java's String.toLowerCase gives it, exact for
   * ASCII and for KELVIN SIGN (U+212A), the one other character that
   * lower-cases to an ASCII letter; other characters are kept as they are.
   */
  function LowerChar(c: char): char
  {
    if 'A' <= c <= 'Z' then (c as int + 32) as char
    else if c == '\U{212A}' then 'k'
    else c
  }

  function ToLower(s: string): (r: string)
    ensures |r| == |s|
    ensures forall i :: 0 <= i < |s| ==> r[i] == LowerChar(s[i])
  {
    seq(|s|, i requires 0 <= i < |s| => LowerChar(s[i]))
  }

  /** Lower-casing neither creates nor removes trimmable characters. */
  lemma LowerKeepsTrimmable(s: string)
    ensures AllTrimmable(ToLower(s)) <==> AllTrimmable(s)
  {
    assert forall i :: 0 <= i < |s| ==> (IsTrimmable(LowerChar(s[i])) <==> IsTrimmable(s[i]));
  }

  // ------------------------------------------------------------- numbers

  predicate IsDigit(c: char)
  {
    '0' <= c <= '9'
  }

  predicate AllDigits(s: string)
  {
    forall i :: 0 <= i < |s| ==> IsDigit(s[i])
  }

  function DigitChar(k: nat): (c: char)
    requires k < 10
    ensures IsDigit(c)
  {
    ('0' as int + k) as char
  }

  /** The number an ASCII digit string denotes. */
  function DigitsValue(s: string): nat
    requires AllDigits(s)
  {
    if s == [] then 0 else DigitsValue(s[..|s| - 1]) * 10 + (s[|s| - 1] as int - '0' as int)
  }

  function Pow10(w: nat): nat
  {
    if w == 0 then 1 else 10 * Pow10(w - 1)
  }

  /** n in decimal, without leading zeros (how Java prints an int that is not negative). */
  function NatToString(n: nat): (r: string)
    ensures r != [] && AllDigits(r)
  {
    if n < 10 then [DigitChar(n)] else NatToString(n / 10) + [DigitChar(n % 10)]
  }

  /** The last w decimal digits of n, padded with zeros on the left. */
  function Fixed(n: nat, w: nat): (r: string)
    ensures |r| == w && AllDigits(r)
  {
    if w == 0 then "" else Fixed(n / 10, w - 1) + [DigitChar(n % 10)]
  }

  lemma {:induction false} NatToStringValue(n: nat)
    ensures DigitsValue(NatToString(n)) == n
    ensures NatToString(n)[0] != '0' || n == 0
  {
    var r := NatToString(n);
    if n >= 10 {
      NatToStringValue(n / 10);
      assert r[..|r| - 1] == NatToString(n / 10);
    }
  }

  lemma {:induction false} FixedValue(n: nat, w: nat)
    requires n < Pow10(w)
    ensures DigitsValue(Fixed(n, w)) == n
  {
    if w > 0 {
      FixedValue(n / 10, w - 1);
      var r := Fixed(n, w);
      assert r[..|r| - 1] == Fixed(n / 10, w - 1);
    }
  }

  lemma {:induction false} FixedOfDigits(s: string)
    requires AllDigits(s)
    ensures Fixed(DigitsValue(s), |s|) == s
  {
    if s != [] {
      var p := s[..|s| - 1];
      var v := DigitsValue(s);
      var last := s[|s| - 1] as int - '0' as int;
      assert v / 10 == DigitsValue(p) && v % 10 == last;
      FixedOfDigits(p);
      assert s == p + [s[|s| - 1]];
    }
  }

  lemma {:induction false} DigitsBound(s: string)
    requires AllDigits(s)
    ensures DigitsValue(s) < Pow10(|s|)
  {
    if s != [] {
      DigitsBound(s[..|s| - 1]);
    }
  }

  const MinInt: int := -0x8000_0000
  const MaxInt: int := 0x7FFF_FFFF

  /**
   * Integer.parseInt: an optional '+' or '-' followed by at least one ASCII
   * digit, denoting a value in the 32-bit range; anything else is None (the
   * NumberFormatException).
   */
  function ParseInt(s: string): (r: Option<int>)
    ensures r.Some? ==> MinInt <= r.value <= MaxInt
  {
    if s == [] then None
    else if s[0] == '-' || s[0] == '+' then
      if |s| == 1 || !AllDigits(s[1..]) then None
      else
        var v: int := if s[0] == '-' then -(DigitsValue(s[1..]) as int) else DigitsValue(s[1..]);
        if MinInt <= v <= MaxInt then Some(v) else None
    else if AllDigits(s) && DigitsValue(s) <= MaxInt then Some(DigitsValue(s))
    else None
  }

  /** parseInt reads back every int the program prints. */
  lemma ParseIntOfNatToString(n: nat)
    requires n <= MaxInt
    ensures ParseInt(NatToString(n)) == Some(n)
  {
    NatToStringValue(n);
  }

  /** A string without any digit is not a number. */
  lemma ParseIntNeedsDigit(s: string)
    requires forall i :: 0 <= i < |s| ==> !IsDigit(s[i])
    ensures ParseInt(s) == None
  {
    if |s| >= 2 {
      assert !IsDigit(s[1..][0]);
    } else if |s| == 1 {
      assert !IsDigit(s[0]);
    }
  }
}
