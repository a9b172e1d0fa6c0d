/**
 * The part of Go's `bufio.Reader` the handler uses: `ReadString('\n')` over
 * a connection whose whole input is a finite string, end of input standing
 * for the read error.
 */
module Bufio {
  import opened Wrappers
  import opened Strings

  /**
   * One call of ReadString('\n') on the unread input s: the prefix up to and
   * including the first '\n' and what follows it, or None when s holds no
   * '\n' (the call meets end of input first).
   */
  function ReadLine(s: string): (r: Option<(string, string)>)
    ensures r.None? <==> '\n' !in s
    ensures r.Some? ==> s == r.value.0 + r.value.1 && r.value.1 == s[|r.value.0|..]
    ensures r.Some? ==> IsLine(r.value.0)
  {
    if '\n' in s then
      var i := IndexOf(s, '\n');
      assert s == s[..i + 1] + s[i + 1..];
      assert s[..i + 1][..i] == s[..i];
      Some((s[..i + 1], s[i + 1..]))
    else
      None
  }

  /** A complete line: non-empty, ending in its only '\n'. */
  predicate IsLine(line: string) {
    line != [] && line[|line| - 1] == '\n' && '\n' !in line[..|line| - 1]
  }

  /** A complete line is exactly what ReadLine returns, whatever follows it. */
  lemma ReadLineAt(line: string, rest: string)
    requires IsLine(line)
    ensures ReadLine(line + rest) == Some((line, rest))
  {
    var s, n := line + rest, |line| - 1;
    assert s[n] == '\n';
    assert s[..n] == line[..n];
    assert IndexOf(s, '\n') == n;
    assert s[..n + 1] == line;
    assert s[n + 1..] == rest;
  }

  /** Text without a '\n', followed by one, is a complete line. */
  lemma LineOf(text: string)
    requires '\n' !in text
    ensures IsLine(text + "\n")
  {
    assert (text + "\n")[..|text|] == text;
  }

  /** A reader over a connection's input, with a cursor at the first unread character. */
  class Reader {
    const data: string
    var pos: nat

    ghost predicate Valid()
      reads this
    {
      pos <= |data|
    }

    /** What the connection has not yet delivered through this reader. */
    function Unread(): string
      reads this
      requires Valid()
    {
      data[pos..]
    }

    constructor (input: string)
      ensures Valid() && data == input && Unread() == input
    {
      data := input;
      pos := 0;
    }

    /**
     * ReadString('\n'): returns the next line and moves the cursor past it;
     * at end of input it returns None and the cursor is at the end.
     */
    method ReadString() returns (line: Option<string>)
      requires Valid()
      modifies this
      ensures Valid()
      ensures match ReadLine(old(Unread()))
        case None => line == None && Unread() == []
        case Some((l, rest)) => line == Some(l) && Unread() == rest
    {
      var r := ReadLine(data[pos..]);
      match r
      case None =>
        line := None;
        pos := |data|;
      case Some((l, rest)) =>
        assert data[pos..][|l|..] == data[pos + |l|..];
        line := Some(l);
        pos := pos + |l|;
    }
  }
}
