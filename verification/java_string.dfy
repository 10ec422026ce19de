/** The part of java.lang.String that the browser classifier relies on, with
    Java's behaviour at the edges: -1 for a missing substring, an exception
    for an out-of-range substring start, split(" ") dropping trailing empty
    tokens, and compareTo's sign. Characters are lower-cased in ASCII only. */
module JavaString {

  /** The unchecked exceptions that the classifier can raise. */
  datatype Exception = IllegalArgument | ArrayIndexOutOfBounds | StringIndexOutOfBounds

  /** A value, or the exception thrown while computing it. */
  datatype Result<+T> = Ok(value: T) | Thrown(ex: Exception)

  // ---------------------------------------------------------------------
  // toLowerCase

  function LowerChar(c: char): (d: char)
    ensures 'A' <= c <= 'Z' ==> 'a' <= d <= 'z' && d as int == c as int + 32
    ensures !('A' <= c <= 'Z') ==> d == c
  {
    if 'A' <= c <= 'Z' then (c as int + 32) as char else c
  }

  /** String.toLowerCase, restricted to the ASCII letters. */
  function Lower(s: string): (r: string)
    ensures |r| == |s|
    ensures forall i :: 0 <= i < |s| ==> r[i] == LowerChar(s[i])
  {
    if s == [] then [] else [LowerChar(s[0])] + Lower(s[1..])
  }

  lemma LowerIdempotent(s: string)
    ensures Lower(Lower(s)) == Lower(s)
  {
    assert forall i :: 0 <= i < |s| ==> Lower(Lower(s))[i] == Lower(s)[i];
  }

  // ---------------------------------------------------------------------
  // indexOf, lastIndexOf

  /** t occurs in s at index k. */
  predicate IsAt(s: string, t: string, k: int)
  {
    0 <= k && k + |t| <= |s| && s[k..k + |t|] == t
  }

  /** Java clamps a search start into [0, |s|]. */
  function Clamp(from: int, n: nat): (k: nat)
    ensures k <= n
    ensures 0 <= from <= n ==> k == from
  {
    if from < 0 then 0 else if from > n then n else from
  }

  /** String.indexOf(t, from): the first occurrence at or after from, or -1. */
  function IndexOfFrom(s: string, t: string, from: int): (r: int)
    ensures r == -1 || (Clamp(from, |s|) <= r && IsAt(s, t, r))
    ensures r != -1 ==> forall k :: Clamp(from, |s|) <= k < r ==> !IsAt(s, t, k)
    ensures r == -1 ==> forall k :: Clamp(from, |s|) <= k ==> !IsAt(s, t, k)
    decreases |s| - Clamp(from, |s|)
  {
    var start := Clamp(from, |s|);
    if start + |t| > |s| then -1
    else if s[start..start + |t|] == t then start
    else IndexOfFrom(s, t, start + 1)
  }

  /** String.indexOf(t): the first occurrence, or -1. */
  function IndexOf(s: string, t: string): (r: int)
    ensures r == -1 || IsAt(s, t, r)
    ensures forall k :: 0 <= k < r ==> !IsAt(s, t, k)
    ensures r == -1 ==> forall k :: !IsAt(s, t, k)
  {
    IndexOfFrom(s, t, 0)
  }

  function LastIndexOfUpTo(s: string, t: string, k: int): (r: int)
    ensures r == -1 || (r <= k && IsAt(s, t, r))
    ensures forall j :: r < j <= k ==> !IsAt(s, t, j)
    decreases k + 1
  {
    if k < 0 then -1
    else if IsAt(s, t, k) then k
    else LastIndexOfUpTo(s, t, k - 1)
  }

  /** String.lastIndexOf(t): the last occurrence, or -1. */
  function LastIndexOf(s: string, t: string): (r: int)
    ensures r == -1 || IsAt(s, t, r)
    ensures forall j :: r < j ==> !IsAt(s, t, j)
  {
    LastIndexOfUpTo(s, t, |s| - |t|)
  }

  /** indexOf(t) != -1 */
  predicate Contains(s: string, t: string)
  {
    IndexOf(s, t) != -1
  }

  lemma ContainsAt(s: string, t: string, k: int)
    requires IsAt(s, t, k)
    ensures Contains(s, t)
  {
  }

  lemma ContainsLength(s: string, t: string)
    requires Contains(s, t)
    ensures |t| <= |s|
  {
  }

  // ---------------------------------------------------------------------
  // startsWith, substring

  predicate StartsWith(s: string, prefix: string)
  {
    |prefix| <= |s| && s[..|prefix|] == prefix
  }

  /** String.substring(begin): StringIndexOutOfBoundsException outside [0, |s|]. */
  function Substring(s: string, begin: int): (r: Result<string>)
    ensures r.Ok? <==> 0 <= begin <= |s|
    ensures r.Ok? ==> |r.value| == |s| - begin && r.value == s[begin..]
    ensures r.Thrown? ==> r.ex == StringIndexOutOfBounds
  {
    if 0 <= begin <= |s| then Ok(s[begin..]) else Thrown(StringIndexOutOfBounds)
  }

  // ---------------------------------------------------------------------
  // split(" ")

  /** The text between consecutive spaces, every piece kept. */
  function Pieces(s: string): (r: seq<string>)
    ensures |r| >= 1
    ensures forall i :: 0 <= i < |r| ==> ' ' !in r[i]
  {
    if s == [] then [""]
    else
      var rest := Pieces(s[1..]);
      if s[0] == ' ' then [""] + rest else [[s[0]] + rest[0]] + rest[1..]
  }

  /** Glue pieces back together with one space between neighbours. */
  function Join(parts: seq<string>): string
  {
    if |parts| == 0 then ""
    else if |parts| == 1 then parts[0]
    else parts[0] + " " + Join(parts[1..])
  }

  lemma {:induction false} JoinPieces(s: string)
    ensures Join(Pieces(s)) == s
  {
    if s != [] {
      var rest := Pieces(s[1..]);
      JoinPieces(s[1..]);
      if s[0] == ' ' {
        assert Pieces(s) == [""] + rest;
        assert ([""] + rest)[1..] == rest;
        assert Join(Pieces(s)) == "" + " " + Join(rest);
        assert s == [s[0]] + s[1..];
      } else {
        var p := [[s[0]] + rest[0]] + rest[1..];
        assert Pieces(s) == p;
        if |rest| == 1 {
          assert Join(p) == [s[0]] + rest[0];
        } else {
          assert p[1..] == rest[1..];
          assert Join(p) == [s[0]] + rest[0] + " " + Join(rest[1..]);
        }
        assert s == [s[0]] + s[1..];
      }
    }
  }

  lemma {:induction false} PiecesWithoutSpace(s: string)
    requires ' ' !in s
    ensures Pieces(s) == [s]
  {
    if s != [] {
      assert ' ' !in s[1..] by {
        forall i | 0 <= i < |s[1..]| ensures s[1..][i] != ' ' { assert s[1..][i] == s[i + 1]; }
      }
      PiecesWithoutSpace(s[1..]);
      assert s == [s[0]] + s[1..];
    }
  }

  lemma {:induction false} PiecesOfSpaces(s: string)
    requires forall i :: 0 <= i < |s| ==> s[i] == ' '
    ensures |Pieces(s)| == |s| + 1
    ensures forall i :: 0 <= i < |Pieces(s)| ==> Pieces(s)[i] == ""
  {
    if s != [] {
      PiecesOfSpaces(s[1..]);
    }
  }

  /** The removal of trailing empty strings that split(regex) performs. */
  function DropTrailingEmpty(parts: seq<string>): (r: seq<string>)
    ensures r <= parts
    ensures |r| > 0 ==> r[|r| - 1] != ""
    ensures forall i :: |r| <= i < |parts| ==> parts[i] == ""
  {
    if |parts| == 0 || parts[|parts| - 1] != "" then parts
    else DropTrailingEmpty(parts[..|parts| - 1])
  }

  /** String.split(" "): a string without a space is returned whole (even
      the empty string); otherwise the pieces minus trailing empty ones. */
  function Split(s: string): (r: seq<string>)
    ensures forall i :: 0 <= i < |r| ==> ' ' !in r[i]
  {
    if ' ' !in s then [s] else DropTrailingEmpty(Pieces(s))
  }

  /** Splitting keeps the leading pieces and only drops empty ones. */
  lemma SplitIsPiecesPrefix(s: string)
    requires ' ' in s
    ensures Split(s) <= Pieces(s)
    ensures forall i :: |Split(s)| <= i < |Pieces(s)| ==> Pieces(s)[i] == ""
    ensures |Split(s)| > 0 ==> Split(s)[|Split(s)| - 1] != ""
  {
  }

  lemma SplitWithoutSpace(s: string)
    requires ' ' !in s
    ensures Split(s) == [s]
    ensures Split(s) == Pieces(s)
  {
    PiecesWithoutSpace(s);
  }

  lemma SplitOfSpaces(s: string)
    requires |s| > 0
    requires forall i :: 0 <= i < |s| ==> s[i] == ' '
    ensures Split(s) == []
  {
    assert s[0] == ' ';
    PiecesOfSpaces(s);
  }

  // ---------------------------------------------------------------------
  // compareTo

  /** The sign of String.compareTo: the first differing character decides,
      otherwise the shorter string is smaller. */
  function Compare(a: string, b: string): (r: int)
    ensures -1 <= r <= 1
    ensures r == 0 <==> a == b
  {
    if a == [] && b == [] then 0
    else if a == [] then -1
    else if b == [] then 1
    else if a[0] < b[0] then -1
    else if a[0] > b[0] then 1
    else
      var r := Compare(a[1..], b[1..]);
      assert r == 0 ==> a == [a[0]] + a[1..] == [b[0]] + b[1..] == b;
      r
  }

  lemma {:induction false} CompareAntisymmetric(a: string, b: string)
    ensures Compare(a, b) == -Compare(b, a)
  {
    if a != [] && b != [] && a[0] == b[0] {
      CompareAntisymmetric(a[1..], b[1..]);
    }
  }

  /** The first differing position decides. */
  lemma {:induction false} CompareFirstDifference(a: string, b: string, k: nat)
    requires k < |a| && k < |b|
    requires a[..k] == b[..k]
    requires a[k] != b[k]
    ensures Compare(a, b) == (if a[k] < b[k] then -1 else 1)
  {
    if k > 0 {
      assert a[0] == a[..k][0] == b[..k][0] == b[0];
      assert a[1..][..k - 1] == a[1..k] == a[..k][1..];
      assert b[1..][..k - 1] == b[1..k] == b[..k][1..];
      CompareFirstDifference(a[1..], b[1..], k - 1);
    }
  }

  /** A proper prefix is smaller. */
  lemma {:induction false} ComparePrefix(a: string, b: string)
    requires a <= b && a != b
    ensures Compare(a, b) == -1
  {
    if a != [] {
      assert a[0] == b[0];
      assert a[1..] <= b[1..];
      ComparePrefix(a[1..], b[1..]);
    }
  }

  /** Versions compare as text: "9" is after "10". */
  lemma VersionsCompareAsText()
    ensures Compare("9", "10") == 1 && Compare("10", "9") == -1
  {
    CompareFirstDifference("9", "10", 0);
    CompareAntisymmetric("9", "10");
  }
}
