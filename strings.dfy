/**
 * The two functions of Go's `strings` package that the connection handler
 * uses on the request line and on header lines: `TrimSpace` and `Split` with
 * the separator " ". White space is restricted to ASCII (see README).
 */
module Strings {

  /** ASCII white space as Go's `unicode.IsSpace` sees it: '\t', '\n', '\v', '\f', '\r', ' '. */
  predicate IsSpace(c: char) {
    c == ' ' || c == '\t' || c == '\n' || c == '\U{000B}' || c == '\U{000C}' || c == '\r'
  }

  predicate AllSpace(s: string) {
    forall i :: 0 <= i < |s| ==> IsSpace(s[i])
  }

  /** s without its leading white space. */
  function TrimLeft(s: string): (r: string)
    ensures |r| <= |s| && r == s[|s| - |r|..]
    ensures AllSpace(s[..|s| - |r|])
    ensures r == [] || !IsSpace(r[0])
  {
    if s != [] && IsSpace(s[0]) then TrimLeft(s[1..]) else s
  }

  /** s without its trailing white space. */
  function TrimRight(s: string): (r: string)
    ensures |r| <= |s| && r == s[..|r|]
    ensures AllSpace(s[|r|..])
    ensures r == [] || !IsSpace(r[|r| - 1])
  {
    if s != [] && IsSpace(s[|s| - 1]) then
      var r := TrimRight(s[..|s| - 1]);
      assert s[|r|..] == s[..|s| - 1][|r|..] + [s[|s| - 1]];
      r
    else
      s
  }

  /** strings.TrimSpace: s without leading and trailing white space. */
  function TrimSpace(s: string): (r: string)
    ensures r == [] <==> AllSpace(s)
    ensures r != [] ==> !IsSpace(r[0]) && !IsSpace(r[|r| - 1])
  {
    TrimRight(TrimLeft(s))
  }

  /** s[..i] and s[j..] are white space and s[i..j] is empty or begins and ends with a visible character. */
  predicate TrimsTo(s: string, i: nat, j: nat) {
    && i <= j <= |s|
    && AllSpace(s[..i]) && AllSpace(s[j..])
    && (i < j ==> !IsSpace(s[i]) && !IsSpace(s[j - 1]))
  }

  /**
   * TrimSpace cuts exactly at the first and the last non-space character:
   * whenever s[..i] and s[j..] are white space and s[i..j] is empty or
   * begins and ends with a non-space character, TrimSpace(s) is s[i..j].
   */
  lemma TrimSpaceIs(s: string, i: nat, j: nat)
    requires TrimsTo(s, i, j)
    ensures TrimSpace(s) == s[i..j]
  {
    if i == j {
      AllSpaceAround(s, i);
    } else {
      TrimLeftIs(s, i);
      TrimRightAfter(s, i, j);
    }
  }

  /** TrimRight of s[i..] stops at j, the end of its visible part. */
  lemma TrimRightAfter(s: string, i: nat, j: nat)
    requires i < j <= |s| && AllSpace(s[j..]) && !IsSpace(s[j - 1])
    ensures TrimRight(s[i..]) == s[i..j]
  {
    var l := s[i..];
    assert l[j - i..] == s[j..] && l[j - i - 1] == s[j - 1];
    TrimRightIs(l, j - i);
    assert l[..j - i] == s[i..j];
  }

  /** White space on both sides of a cut is white space throughout. */
  lemma AllSpaceAround(s: string, i: nat)
    requires i <= |s| && AllSpace(s[..i]) && AllSpace(s[i..])
    ensures AllSpace(s)
  {
    forall k | 0 <= k < |s| ensures IsSpace(s[k]) {
      if k < i { assert s[..i][k] == s[k]; } else { assert s[i..][k - i] == s[k]; }
    }
  }

  /** TrimLeft stops at the first non-space character. */
  lemma TrimLeftIs(s: string, i: nat)
    requires i < |s| && AllSpace(s[..i]) && !IsSpace(s[i])
    ensures TrimLeft(s) == s[i..]
  {
    var a := |s| - |TrimLeft(s)|;
    SpacesBefore(s, i);
    SpacesBefore(s, a);
    assert a == i;
  }

  /** On a string with something visible in it, TrimRight keeps a non-empty prefix ending in a visible character. */
  lemma TrimRightVisible(s: string)
    requires !AllSpace(s)
    ensures var r := TrimRight(s);
      0 < |r| <= |s| && s[..|r|] == r && AllSpace(s[|r|..]) && !IsSpace(s[|r| - 1])
  {
    SpacesFrom(s, |TrimRight(s)|);
  }

  /** A white-space prefix, character by character. */
  lemma SpacesBefore(s: string, n: nat)
    requires n <= |s| && AllSpace(s[..n])
    ensures forall k :: 0 <= k < n ==> IsSpace(s[k])
  {
    forall k | 0 <= k < n ensures IsSpace(s[k]) {
      assert s[..n][k] == s[k];
    }
  }

  /** A white-space suffix, character by character. */
  lemma SpacesFrom(s: string, n: nat)
    requires n <= |s| && AllSpace(s[n..])
    ensures forall k :: n <= k < |s| ==> IsSpace(s[k])
  {
    forall k | n <= k < |s| ensures IsSpace(s[k]) {
      assert s[n..][k - n] == s[k];
    }
  }

  /** TrimRight stops after the last non-space character. */
  lemma TrimRightIs(s: string, j: nat)
    requires 0 < j <= |s| && AllSpace(s[j..]) && !IsSpace(s[j - 1])
    ensures TrimRight(s) == s[..j]
  {
    SpacesFrom(s, j);
    SpacesFrom(s, |TrimRight(s)|);
  }

  /** The position of the first c in s (Go's strings.Index for a one-character separator). */
  function IndexOf(s: string, c: char): (i: nat)
    requires c in s
    ensures i < |s| && s[i] == c && c !in s[..i]
  {
    if s[0] == c then 0 else 1 + IndexOf(s[1..], c)
  }

  /** The parts joined back with single spaces: the inverse of Split. */
  function Join(parts: seq<string>): string {
    if |parts| == 0 then ""
    else if |parts| == 1 then parts[0]
    else parts[0] + " " + Join(parts[1..])
  }

  /**
   * strings.Split(s, " "): the pieces of s between single spaces. Every space
   * separates, so n spaces always give n + 1 pieces, and two adjacent spaces
   * give an empty piece.
   */
  function Split(s: string): (parts: seq<string>)
    ensures |parts| == multiset(s)[' '] + 1
    ensures forall k :: 0 <= k < |parts| ==> ' ' !in parts[k]
    ensures Join(parts) == s
    decreases |s|
  {
    if ' ' !in s then
      assert multiset(s)[' '] == 0;
      [s]
    else
      var m := IndexOf(s, ' ');
      var rest := Split(s[m + 1..]);
      FirstSpace(s, m);
      [s[..m]] + rest
  }

  /** Cutting s at its first space: the pieces around it, and one space fewer after it. */
  lemma FirstSpace(s: string, m: nat)
    requires m < |s| && s[m] == ' ' && ' ' !in s[..m]
    ensures s == s[..m] + " " + s[m + 1..]
    ensures multiset(s)[' '] == multiset(s[m + 1..])[' '] + 1
  {
    assert s == s[..m] + [' '] + s[m + 1..];
    assert multiset(s) == multiset(s[..m]) + multiset([' ']) + multiset(s[m + 1..]);
    assert multiset(s[..m])[' '] == 0;
  }

  /** With three pieces or more, s begins with the first piece, a space, the second piece and a space. */
  lemma SplitPrefix(s: string)
    requires |Split(s)| >= 3
    ensures var parts := Split(s);
      s == parts[0] + " " + parts[1] + " " + Join(parts[2..])
  {
    JoinPrefix(Split(s));
  }

  lemma JoinPrefix(parts: seq<string>)
    requires |parts| >= 3
    ensures Join(parts) == parts[0] + " " + parts[1] + " " + Join(parts[2..])
  {
    var p0, p1, rest := parts[0], parts[1], Join(parts[2..]);
    assert parts[1..][1..] == parts[2..];
    assert Join(parts[1..]) == p1 + " " + rest;
    Associative(p0 + " ", p1 + " ", rest);
    Associative(p0 + " ", p1, " ");
  }

  lemma Associative(a: string, b: string, c: string)
    ensures a + (b + c) == a + b + c
  {
  }

  /** Splitting at a first space that follows a space-free piece. */
  lemma SplitCons(a: string, b: string)
    requires ' ' !in a
    ensures Split(a + " " + b) == [a] + Split(b)
  {
    var s := a + " " + b;
    assert s[|a|] == ' ';
    assert s[..|a|] == a;
    assert IndexOf(s, ' ') == |a|;
    assert s[|a| + 1..] == b;
  }

  /** Split undoes Join: a non-empty list of space-free pieces comes back unchanged. */
  lemma {:induction false} SplitJoin(parts: seq<string>)
    requires |parts| >= 1
    requires forall k :: 0 <= k < |parts| ==> ' ' !in parts[k]
    ensures Split(Join(parts)) == parts
    decreases |parts|
  {
    if |parts| == 1 {
      assert Split(parts[0]) == [parts[0]];
    } else {
      SplitJoin(parts[1..]);
      SplitCons(parts[0], Join(parts[1..]));
      assert [parts[0]] + parts[1..] == parts;
    }
  }
}
