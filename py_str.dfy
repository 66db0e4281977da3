/**
 * The Python string operations the log parser relies on: `str.isspace`,
 * `str.strip()` with no argument, and `str.split(" ", maxsplit)`.
 * Strings are sequences of Unicode code points, as Python's `str` is.
 */
module PyStr {

  /** The characters Python's `str.isspace` (and a regex `\s`) accepts. */
  predicate IsSpace(c: char)
  {
    var n := c as int;
    (9 <= n <= 13) || (28 <= n <= 32) || n == 0x85 || n == 0xA0 || n == 0x1680
    || (0x2000 <= n <= 0x200A) || n == 0x2028 || n == 0x2029 || n == 0x202F
    || n == 0x205F || n == 0x3000
  }

  /** Whitespace is never a digit or one of the format's separators `-` and `:`. */
  lemma SpaceNotFieldChar(c: char)
    ensures IsSpace(c) ==> c != '-' && c != ':' && !('0' <= c <= '9')
  {
  }

  predicate AllSpace(s: string) {
    forall i :: 0 <= i < |s| ==> IsSpace(s[i])
  }

  /** Neither end of `s` is whitespace: the shape of everything `strip()` returns. */
  predicate Trimmed(s: string) {
    s == [] || (!IsSpace(s[0]) && !IsSpace(s[|s| - 1]))
  }

  /** The length of the longest whitespace prefix of `s`. */
  function LeadingSpaces(s: string): (n: nat)
    ensures n <= |s|
    ensures forall i :: 0 <= i < n ==> IsSpace(s[i])
    ensures n < |s| ==> !IsSpace(s[n])
  {
    if |s| > 0 && IsSpace(s[0]) then
      var n := LeadingSpaces(s[1..]);
      assert forall i :: 1 <= i < n + 1 ==> s[i] == s[1..][i - 1];
      n + 1
    else 0
  }

  /** The length of the longest whitespace suffix of `s`. */
  function TrailingSpaces(s: string): (n: nat)
    ensures n <= |s|
    ensures forall i :: |s| - n <= i < |s| ==> IsSpace(s[i])
    ensures n < |s| ==> !IsSpace(s[|s| - n - 1])
  {
    if |s| > 0 && IsSpace(s[|s| - 1]) then
      var n := TrailingSpaces(s[..|s| - 1]);
      assert forall i :: |s| - 1 - n <= i < |s| - 1 ==> s[i] == s[..|s| - 1][i];
      n + 1
    else 0
  }

  /** `s` without its longest whitespace prefix. */
  function TrimStart(s: string): (r: string)
    ensures |r| <= |s| && r == s[|s| - |r|..]
    ensures AllSpace(s[..|s| - |r|])
    ensures r == [] || !IsSpace(r[0])
  {
    s[LeadingSpaces(s)..]
  }

  /** `s` without its longest whitespace suffix. */
  function TrimEnd(s: string): (r: string)
    ensures |r| <= |s| && r == s[..|r|]
    ensures AllSpace(s[|r|..])
    ensures r == [] || !IsSpace(r[|r| - 1])
  {
    s[..|s| - TrailingSpaces(s)]
  }

  /** Python's `s.strip()`. */
  function Strip(s: string): (r: string)
    ensures Trimmed(r)
    ensures |r| <= |s|
  {
    TrimEnd(TrimStart(s))
  }

  /**
   * What `strip()` removes is whitespace: the result is the text between a
   * whitespace prefix and a whitespace suffix of the input.
   */
  lemma StripSurroundings(s: string)
    ensures exists k: nat :: && k + |Strip(s)| <= |s|
                        && AllSpace(s[..k])
                        && Strip(s) == s[k..k + |Strip(s)|]
                        && AllSpace(s[k + |Strip(s)|..])
  {
    var t := TrimStart(s);
    var r := Strip(s);
    var k := |s| - |t|;
    assert t == s[k..];
    assert s[k..k + |r|] == t[..|r|];
    assert s[k + |r|..] == t[|r|..];
  }

  lemma TrimStartOf(ws: string, m: string)
    requires AllSpace(ws)
    requires m == [] || !IsSpace(m[0])
    ensures TrimStart(ws + m) == m
  {
    var s := ws + m;
    assert forall i :: 0 <= i < |ws| ==> s[i] == ws[i];
    assert |ws| < |s| ==> s[|ws|] == m[0];
  }

  lemma TrimEndOf(m: string, ws: string)
    requires AllSpace(ws)
    requires m == [] || !IsSpace(m[|m| - 1])
    ensures TrimEnd(m + ws) == m
  {
    var s := m + ws;
    assert forall i :: |m| <= i < |s| ==> s[i] == ws[i - |m|];
    assert |ws| < |s| ==> s[|m| - 1] == m[|m| - 1];
  }

  /**
   * `strip()` removes exactly the surrounding whitespace: a text with no
   * whitespace at either end, padded by whitespace on both sides, strips
   * back to itself.
   */
  lemma StripOf(lead: string, m: string, trail: string)
    requires AllSpace(lead) && AllSpace(trail) && Trimmed(m)
    ensures Strip(lead + m + trail) == m
  {
    if m == [] {
      assert lead + m + trail == lead + trail;
      assert AllSpace(lead + trail);
      TrimStartOf(lead + trail, []);
      assert lead + trail + [] == lead + trail;
      TrimEndOf([], []);
    } else {
      assert lead + m + trail == lead + (m + trail);
      TrimStartOf(lead, m + trail);
      TrimEndOf(m, trail);
    }
  }

  /** A line made only of whitespace (a blank line included) strips to nothing. */
  lemma StripBlank(s: string)
    requires AllSpace(s)
    ensures Strip(s) == []
  {
    StripOf(s, [], []);
    assert s + [] + [] == s;
  }

  /** Python's `sep.join(parts)` for the one-space separator. */
  function JoinSpace(parts: seq<string>): string
    requires |parts| >= 1
  {
    if |parts| == 1 then parts[0] else parts[0] + " " + JoinSpace(parts[1..])
  }

  /**
   * Python's `s.find(c)`, with `|s|` standing for "not found": the position
   * of the first `c` in `s`.
   */
  function Find(s: string, c: char): (i: nat)
    ensures i <= |s|
    ensures forall k :: 0 <= k < i ==> s[k] != c
    ensures i < |s| ==> s[i] == c
  {
    if s == [] || s[0] == c then 0
    else
      var j := Find(s[1..], c);
      assert forall k :: 1 <= k < j + 1 ==> s[k] == s[1..][k - 1];
      j + 1
  }

  lemma FindAbsent(s: string, c: char)
    ensures Find(s, c) == |s| <==> c !in s
  {
    if Find(s, c) < |s| {
      assert s[Find(s, c)] == c;
    }
  }

  /** The first `c` in `a + [c] + rest` is the one right after `a` when `a` has none. */
  lemma FindAfter(a: string, c: char, rest: string)
    requires c !in a
    ensures Find(a + [c] + rest, c) == |a|
  {
    var s := a + [c] + rest;
    assert forall i :: 0 <= i < |a| ==> s[i] == a[i];
    assert s[|a|] == c;
  }

  /** The number of spaces in `s`. */
  function Spaces(s: string): nat {
    if s == [] then 0 else (if s[0] == ' ' then 1 else 0) + Spaces(s[1..])
  }

  /**
   * Python's `s.split(" ", maxsplit)`: cut at the first `maxsplit` spaces,
   * from the left. Consecutive spaces delimit empty pieces.
   */
  function SplitSpace(s: string, maxsplit: nat): (parts: seq<string>)
    ensures 1 <= |parts| <= maxsplit + 1
    decreases maxsplit
  {
    var i := Find(s, ' ');
    if maxsplit == 0 || i == |s| then [s]
    else [s[..i]] + SplitSpace(s[i + 1..], maxsplit - 1)
  }

  lemma JoinSpaceCons(head: string, rest: seq<string>)
    requires |rest| >= 1
    ensures JoinSpace([head] + rest) == head + " " + JoinSpace(rest)
  {
    assert ([head] + rest)[1..] == rest;
  }

  lemma JoinAroundFirstSpace(s: string, rest: seq<string>)
    requires Find(s, ' ') < |s| && |rest| >= 1
    requires JoinSpace(rest) == s[Find(s, ' ') + 1..]
    ensures JoinSpace([s[..Find(s, ' ')]] + rest) == s
  {
    JoinSpaceCons(s[..Find(s, ' ')], rest);
    AroundFirstSpace(s);
  }

  lemma AroundFirstSpace(s: string)
    requires Find(s, ' ') < |s|
    ensures s == s[..Find(s, ' ')] + " " + s[Find(s, ' ') + 1..]
  {
    var i := Find(s, ' ');
    Around(s, i);
    assert [s[i]] == " ";
  }

  lemma Around<T>(s: seq<T>, i: nat)
    requires i < |s|
    ensures s == s[..i] + [s[i]] + s[i + 1..]
  {
  }

  lemma {:induction false} SplitSpaceJoinStep(s: string, maxsplit: nat)
    requires maxsplit > 0 && Find(s, ' ') < |s|
    ensures JoinSpace(SplitSpace(s, maxsplit)) == s
    decreases maxsplit, 0
  {
    var i := Find(s, ' ');
    var rest := SplitSpace(s[i + 1..], maxsplit - 1);
    assert JoinSpace([s[..i]] + rest) == s by {
      SplitSpaceJoin(s[i + 1..], maxsplit - 1);
      JoinAroundFirstSpace(s, rest);
    }
    assert SplitSpace(s, maxsplit) == [s[..i]] + rest;
  }

  /** Joining the pieces with single spaces gives back the text that was split. */
  lemma {:induction false} SplitSpaceJoin(s: string, maxsplit: nat)
    ensures JoinSpace(SplitSpace(s, maxsplit)) == s
    decreases maxsplit, 1
  {
    if maxsplit > 0 && Find(s, ' ') < |s| {
      SplitSpaceJoinStep(s, maxsplit);
    } else {
      SplitSpaceWhole(s, maxsplit);
    }
  }

  /**
   * The pieces of a split with at most `maxsplit` cuts: none but the last
   * holds a space, and the last holds none either unless every cut was made.
   */
  predicate CutAtSpaces(parts: seq<string>, maxsplit: nat)
    requires parts != []
  {
    && (forall k :: 0 <= k < |parts| - 1 ==> ' ' !in parts[k])
    && (|parts| <= maxsplit ==> ' ' !in parts[|parts| - 1])
  }

  lemma {:induction false} SplitSpacePieces(s: string, maxsplit: nat)
    ensures CutAtSpaces(SplitSpace(s, maxsplit), maxsplit)
    decreases maxsplit, 1
  {
    if maxsplit > 0 && Find(s, ' ') < |s| {
      SplitSpacePiecesStep(s, maxsplit);
    } else {
      SplitSpaceWhole(s, maxsplit);
    }
  }

  /** With no cut left or no space to cut at, the text is its only piece. */
  lemma SplitSpaceWhole(s: string, maxsplit: nat)
    requires maxsplit == 0 || Find(s, ' ') == |s|
    ensures SplitSpace(s, maxsplit) == [s]
    ensures maxsplit > 0 ==> ' ' !in s
  {
    FindAbsent(s, ' ');
  }

  lemma {:induction false} SplitSpacePiecesStep(s: string, maxsplit: nat)
    requires maxsplit > 0 && Find(s, ' ') < |s|
    ensures CutAtSpaces(SplitSpace(s, maxsplit), maxsplit)
    decreases maxsplit, 0
  {
    var i := Find(s, ' ');
    var rest := SplitSpace(s[i + 1..], maxsplit - 1);
    SplitSpacePieces(s[i + 1..], maxsplit - 1);
    var parts := SplitSpace(s, maxsplit);
    assert parts == [s[..i]] + rest;
    forall k | 0 <= k < |parts| - 1
      ensures ' ' !in parts[k]
    {
      if k > 0 {
        assert parts[k] == rest[k - 1];
      }
    }
    if |parts| <= maxsplit {
      assert parts[|parts| - 1] == rest[|rest| - 1];
    }
  }

  lemma {:induction false} SpacesAfterFirst(s: string)
    requires Find(s, ' ') < |s|
    ensures Spaces(s) == 1 + Spaces(s[Find(s, ' ') + 1..])
  {
    if s[0] != ' ' {
      SpacesAfterFirst(s[1..]);
      assert s[Find(s, ' ') + 1..] == s[1..][Find(s[1..], ' ') + 1..];
    }
  }

  lemma {:induction false} NoSpaces(s: string)
    requires Find(s, ' ') == |s|
    ensures Spaces(s) == 0
  {
    if s != [] {
      NoSpaces(s[1..]);
    }
  }

  /** There is one piece more than there are cuts, and a cut at every space up to `maxsplit`. */
  lemma {:induction false} SplitSpaceCount(s: string, maxsplit: nat)
    ensures |SplitSpace(s, maxsplit)| == if Spaces(s) < maxsplit then Spaces(s) + 1 else maxsplit + 1
    decreases maxsplit
  {
    var i := Find(s, ' ');
    if maxsplit > 0 && i < |s| {
      var rest := s[i + 1..];
      assert |SplitSpace(s, maxsplit)| == 1 + |SplitSpace(rest, maxsplit - 1)|;
      assert Spaces(s) == 1 + Spaces(rest) by {
        SpacesAfterFirst(s);
      }
      SplitSpaceCount(rest, maxsplit - 1);
    } else if i == |s| {
      assert SplitSpace(s, maxsplit) == [s];
      NoSpaces(s);
    }
  }

  /** Cutting at a space-free first field leaves the rest to the remaining cuts. */
  lemma SplitAfterField(a: string, rest: string, maxsplit: nat)
    requires ' ' !in a && maxsplit > 0
    ensures SplitSpace(a + " " + rest, maxsplit) == [a] + SplitSpace(rest, maxsplit - 1)
  {
    var s := a + " " + rest;
    FindAfter(a, ' ', rest);
    assert s[..|a|] == a && s[|a| + 1..] == rest;
  }

  lemma SplitThreeFields(b: string, c: string, rest: string)
    requires ' ' !in b && ' ' !in c
    ensures SplitSpace(b + " " + (c + " " + rest), 2) == [b, c, rest]
  {
    SplitAfterField(c, rest, 1);
    assert SplitSpace(rest, 0) == [rest];
    SplitAfterField(b, c + " " + rest, 2);
  }

  /** Text with only two spaces splits into three pieces even when three cuts are allowed. */
  lemma SplitThreeOnly(a: string, b: string, c: string)
    requires ' ' !in a && ' ' !in b && ' ' !in c
    ensures SplitSpace(a + " " + b + " " + c, 3) == [a, b, c]
  {
    var bc := SplitSpace(b + " " + c, 2);
    assert bc == [b, c] by {
      SplitAfterField(b, c, 2);
      SplitSpaceWhole(c, 1);
    }
    assert a + " " + b + " " + c == a + " " + (b + " " + c);
    SplitAfterField(a, b + " " + c, 3);
  }

  lemma RegroupFields(a: string, b: string, c: string, rest: string)
    ensures a + " " + b + " " + c + " " + rest == a + " " + (b + " " + (c + " " + rest))
  {
    assert a + " " + b + " " + c + " " + rest == a + " " + b + " " + (c + " " + rest);
  }

  /**
   * Splitting at most three times keeps every space after the third one
   * inside the last piece.
   */
  lemma SplitFourFields(a: string, b: string, c: string, rest: string)
    requires ' ' !in a && ' ' !in b && ' ' !in c
    ensures SplitSpace(a + " " + b + " " + c + " " + rest, 3) == [a, b, c, rest]
  {
    var tail := b + " " + (c + " " + rest);
    assert SplitSpace(tail, 2) == [b, c, rest] by {
      SplitThreeFields(b, c, rest);
    }
    assert a + " " + b + " " + c + " " + rest == a + " " + tail by {
      RegroupFields(a, b, c, rest);
    }
    assert SplitSpace(a + " " + tail, 3) == [a] + [b, c, rest] by {
      SplitAfterField(a, tail, 3);
    }
  }

  lemma JoinFour(parts: seq<string>)
    requires |parts| == 4
    ensures JoinSpace(parts) == parts[0] + " " + parts[1] + " " + parts[2] + " " + parts[3]
  {
    assert JoinSpace(parts[3..]) == parts[3];
    assert JoinSpace(parts[2..]) == parts[2] + " " + JoinSpace(parts[3..]);
    assert JoinSpace(parts[1..]) == parts[1] + " " + JoinSpace(parts[2..]);
  }
}
