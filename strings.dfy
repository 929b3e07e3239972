/**
 * The string operations the Morse engine takes from QString: upper-casing,
 * `trimmed`, `split(" ")`, and the two ways the engine glues tokens
 * together (each followed by a space, or separated by single spaces).
 */
module Strings {

  /** Upper-case one character (ASCII only). */
  function UpperChar(c: char): (u: char)
    ensures 'a' <= c <= 'z' ==> 'A' <= u <= 'Z' && u as int == c as int - 32
    ensures !('a' <= c <= 'z') ==> u == c
  {
    if 'a' <= c <= 'z' then (c as int - 32) as char else c
  }

  /** `QString::toUpper`, folded character by character. */
  function Upper(s: string): (u: string)
    ensures |u| == |s|
    ensures forall i :: 0 <= i < |s| ==> u[i] == UpperChar(s[i])
  {
    seq(|s|, i requires 0 <= i < |s| => UpperChar(s[i]))
  }

  /** The whitespace `QString::trimmed` removes. */
  predicate IsSpace(c: char)
  {
    c == ' ' || '\t' <= c <= '\r' || c == '\U{0085}' || c == '\U{00A0}'
  }

  predicate NoSpace(s: string)
  {
    forall i :: 0 <= i < |s| ==> !IsSpace(s[i])
  }

  function TrimStart(s: string): string
  {
    if s != [] && IsSpace(s[0]) then TrimStart(s[1..]) else s
  }

  function TrimEnd(s: string): string
  {
    if s != [] && IsSpace(s[|s| - 1]) then TrimEnd(s[..|s| - 1]) else s
  }

  /** `QString::trimmed`: whitespace removed from both ends. */
  function Trimmed(s: string): (r: string)
    ensures |r| <= |s|
    ensures r == [] || (!IsSpace(r[0]) && !IsSpace(r[|r| - 1]))
  {
    TrimStartFacts(s);
    TrimEndFacts(TrimStart(s));
    TrimEnd(TrimStart(s))
  }

  /** `TrimStart` drops a prefix of whitespace only, and what it leaves does not begin with whitespace. */
  lemma {:induction false} TrimStartFacts(s: string)
    ensures |TrimStart(s)| <= |s| && TrimStart(s) == s[|s| - |TrimStart(s)|..]
    ensures TrimStart(s) == [] || !IsSpace(TrimStart(s)[0])
    ensures forall i :: 0 <= i < |s| - |TrimStart(s)| ==> IsSpace(s[i])
  {
    if s != [] && IsSpace(s[0]) {
      var rest := s[1..];
      TrimStartFacts(rest);
      assert TrimStart(s) == TrimStart(rest);
      forall i | 1 <= i < |s| - |TrimStart(s)|
        ensures IsSpace(s[i])
      {
        assert s[i] == rest[i - 1];
      }
    }
  }

  /** `TrimEnd` keeps a prefix, drops only whitespace, and what it keeps does not end with whitespace. */
  lemma {:induction false} TrimEndFacts(s: string)
    ensures |TrimEnd(s)| <= |s| && TrimEnd(s) == s[..|TrimEnd(s)|]
    ensures TrimEnd(s) == [] || !IsSpace(TrimEnd(s)[|TrimEnd(s)| - 1])
    ensures forall i :: |TrimEnd(s)| <= i < |s| ==> IsSpace(s[i])
  {
    if s != [] && IsSpace(s[|s| - 1]) {
      var init := s[..|s| - 1];
      TrimEndFacts(init);
      assert TrimEnd(s) == TrimEnd(init);
      forall i | |TrimEnd(s)| <= i < |s| - 1
        ensures IsSpace(s[i])
      {
        assert s[i] == init[i];
      }
    }
  }

  /**
   * `trimmed` keeps one contiguous middle part of the string: everything
   * in front of it and everything after it is whitespace.
   */
  lemma TrimmedInfix(s: string)
    ensures var k := |s| - |TrimStart(s)|;
      0 <= k && k + |Trimmed(s)| <= |s| && Trimmed(s) == s[k..k + |Trimmed(s)|] &&
      (forall i :: 0 <= i < k ==> IsSpace(s[i])) &&
      (forall i :: k + |Trimmed(s)| <= i < |s| ==> IsSpace(s[i]))
  {
    TrimStartFacts(s);
    TrimEndFacts(TrimStart(s));
    var k := |s| - |TrimStart(s)|;
    var t := TrimStart(s);
    forall i | k + |Trimmed(s)| <= i < |s|
      ensures IsSpace(s[i])
    {
      assert s[i] == t[i - k];
    }
  }

  /** Each token followed by one space, as the encoder's loop builds it. */
  function Spaced(ts: seq<string>): string
  {
    if ts == [] then "" else ts[0] + " " + Spaced(ts[1..])
  }

  /** The tokens separated by single spaces. */
  function Join(ts: seq<string>): string
  {
    if ts == [] then ""
    else if |ts| == 1 then ts[0]
    else ts[0] + " " + Join(ts[1..])
  }

  /** Number of space characters in `s`. */
  function Spaces(s: string): nat
  {
    if s == [] then 0 else (if s[0] == ' ' then 1 else 0) + Spaces(s[1..])
  }

  /**
   * `QString::split(" ")`: the pieces between single spaces, empty pieces
   * kept, so there is always one piece more than there are spaces.
   */
  function Split(s: string): (r: seq<string>)
    ensures |r| == Spaces(s) + 1
    ensures forall i :: 0 <= i < |r| ==> ' ' !in r[i]
  {
    if s == [] then [""]
    else
      var rest := Split(s[1..]);
      if s[0] == ' ' then [""] + rest
      else [[s[0]] + rest[0]] + rest[1..]
  }

  lemma {:induction false} SpacedAppend(a: seq<string>, b: seq<string>)
    ensures Spaced(a + b) == Spaced(a) + Spaced(b)
  {
    if a != [] {
      SpacedAppend(a[1..], b);
      assert (a + b)[1..] == a[1..] + b;
    } else {
      assert a + b == b;
    }
  }

  /** A non-empty spaced list is the joined list plus one trailing space. */
  lemma {:induction false} SpacedIsJoinPlusSpace(ts: seq<string>)
    requires ts != []
    ensures Spaced(ts) == Join(ts) + " "
  {
    if |ts| > 1 {
      SpacedIsJoinPlusSpace(ts[1..]);
    }
  }

  /** The last character of a join is the last character of the last token. */
  lemma {:induction false} JoinEnds(ts: seq<string>)
    requires ts != [] && forall i :: 0 <= i < |ts| ==> ts[i] != []
    ensures Join(ts) != [] && Join(ts)[0] == ts[0][0]
    ensures Join(ts)[|Join(ts)| - 1] == ts[|ts| - 1][|ts[|ts| - 1]| - 1]
  {
    if |ts| > 1 {
      JoinEnds(ts[1..]);
    }
  }

  /**
   * Trimming what the encoder builds removes exactly the trailing space,
   * provided no token is empty or begins or ends with whitespace.
   */
  lemma TrimmedSpaced(ts: seq<string>)
    requires forall i :: 0 <= i < |ts| ==> ts[i] != [] && NoSpace(ts[i])
    ensures Trimmed(Spaced(ts)) == Join(ts)
  {
    if ts != [] {
      SpacedIsJoinPlusSpace(ts);
      JoinEnds(ts);
      var j := Join(ts);
      assert !IsSpace(j[0]) && !IsSpace(j[|j| - 1]);
      TrimOneSpace(j);
    }
  }

  /** A string that neither begins nor ends with whitespace, plus one space, trims to itself. */
  lemma TrimOneSpace(j: string)
    requires j != [] && !IsSpace(j[0]) && !IsSpace(j[|j| - 1])
    ensures Trimmed(j + " ") == j
  {
    var s := j + " ";
    assert s[0] == j[0];
    assert TrimStart(s) == s;
    assert s[..|s| - 1] == j;
    assert TrimEnd(s) == TrimEnd(j);
  }

  /** Splitting a piece with no space in front of a space and a rest. */
  lemma {:induction false} SplitPrefix(x: string, rest: string)
    requires ' ' !in x
    ensures Split(x + " " + rest) == [x] + Split(rest)
  {
    if x != [] {
      SplitPrefix(x[1..], rest);
      var s := x + " " + rest;
      assert s[0] == x[0] && s[1..] == x[1..] + " " + rest;
      assert [x[0]] + x[1..] == x;
    } else {
      assert (x + " " + rest)[1..] == rest;
    }
  }

  /** A piece with no space splits to itself. */
  lemma {:induction false} SplitNoSpace(x: string)
    requires ' ' !in x
    ensures Split(x) == [x]
  {
    if x != [] {
      SplitNoSpace(x[1..]);
      assert x == [x[0]] + x[1..];
    }
  }

  /** Splitting undoes joining, for a non-empty list of space-free tokens. */
  lemma {:induction false} SplitJoin(ts: seq<string>)
    requires ts != []
    requires forall i :: 0 <= i < |ts| ==> ' ' !in ts[i]
    ensures Split(Join(ts)) == ts
  {
    if |ts| == 1 {
      SplitNoSpace(ts[0]);
    } else {
      SplitJoin(ts[1..]);
      SplitPrefix(ts[0], Join(ts[1..]));
    }
  }

  /** Joining undoes splitting. */
  lemma {:induction false} JoinSplit(s: string)
    ensures Join(Split(s)) == s
  {
    if s != [] {
      JoinSplit(s[1..]);
      var rest := Split(s[1..]);
      if s[0] != ' ' && |rest| > 1 {
        assert ([[s[0]] + rest[0]] + rest[1..])[1..] == rest[1..];
        assert rest == [rest[0]] + rest[1..];
      }
    }
  }
}
