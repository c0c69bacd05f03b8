/**
 * Translation of a Postgres error position (1-based, counted in characters)
 * into a line and a column of the migration text.
 * Strings are sequences of runes; decoding UTF-8 bytes into runes is not modelled.
 */
module Positions {
  import opened Wrappers

  const NewLine: char := '\n'
  const CarriageReturn: char := '\r'

  /** A line and a column, both as the driver reports them. */
  datatype LineCol = LineCol(line: nat, col: nat)

  /** True when `s` has a carriage return directly followed by a line feed at `i`. */
  predicate CrlfAt(s: seq<char>, i: int)
  {
    0 <= i < |s| - 1 && s[i] == CarriageReturn && s[i + 1] == NewLine
  }

  /**
   * Every CRLF pair, scanned left to right without overlap, becomes a single LF
   * (`strings.Replace(s, "\r\n", "\n", -1)`).
   */
  function NormalizeNewlines(s: seq<char>): (r: seq<char>)
    ensures |r| <= |s|
  {
    if |s| == 0 then []
    else if CrlfAt(s, 0) then [NewLine] + NormalizeNewlines(s[2..])
    else [s[0]] + NormalizeNewlines(s[1..])
  }

  /** `s` with every carriage return deleted. */
  function WithoutCR(s: seq<char>): seq<char>
  {
    if |s| == 0 then []
    else (if s[0] == CarriageReturn then [] else [s[0]]) + WithoutCR(s[1..])
  }

  /** Normalisation keeps the characters other than carriage returns, in order. */
  lemma {:induction false} NormalizeOnlyDropsCR(s: seq<char>)
    ensures WithoutCR(NormalizeNewlines(s)) == WithoutCR(s)
  {
    if |s| == 0 {
    } else if CrlfAt(s, 0) {
      var rest := NormalizeNewlines(s[2..]);
      NormalizeOnlyDropsCR(s[2..]);
      assert ([NewLine] + rest)[1..] == rest;
      assert s[1..][1..] == s[2..];
    } else {
      var rest := NormalizeNewlines(s[1..]);
      NormalizeOnlyDropsCR(s[1..]);
      assert ([s[0]] + rest)[1..] == rest;
    }
  }

  /**
   * Normalising a concatenation normalises each part, unless the first part
   * ends in a carriage return and the second starts with a line feed.
   */
  lemma {:induction false} NormalizeSplit(a: seq<char>, x: seq<char>)
    requires !(|a| > 0 && |x| > 0 && a[|a| - 1] == CarriageReturn && x[0] == NewLine)
    ensures NormalizeNewlines(a + x) == NormalizeNewlines(a) + NormalizeNewlines(x)
  {
    if |a| == 0 {
      assert a + x == x;
    } else {
      var n := if CrlfAt(a, 0) then 2 else 1;
      assert CrlfAt(a + x, 0) == CrlfAt(a, 0);
      assert (a + x)[n..] == a[n..] + x;
      NormalizeSplit(a[n..], x);
      NormalizeStep(a + x, n);
      NormalizeStep(a, n);
    }
  }

  /** Normalisation emits one character for the first rune or CRLF pair, then goes on with the rest. */
  lemma NormalizeStep(s: seq<char>, n: nat)
    requires |s| > 0 && n == (if CrlfAt(s, 0) then 2 else 1)
    ensures NormalizeNewlines(s) == [if CrlfAt(s, 0) then NewLine else s[0]] + NormalizeNewlines(s[n..])
  {
  }

  /** Every CRLF pair becomes one line feed, whatever surrounds it. */
  lemma CrlfBecomesLf(a: seq<char>, b: seq<char>)
    ensures NormalizeNewlines(a + [CarriageReturn, NewLine] + b)
            == NormalizeNewlines(a) + [NewLine] + NormalizeNewlines(b)
  {
    var x := [CarriageReturn, NewLine] + b;
    assert a + [CarriageReturn, NewLine] + b == a + x;
    NormalizeSplit(a, x);
    assert CrlfAt(x, 0);
    assert x[2..] == b;
  }

  /** Normalisation keeps the number of line feeds, so it never changes a line number. */
  lemma {:induction false} NormalizeKeepsLineFeeds(s: seq<char>)
    ensures multiset(NormalizeNewlines(s))[NewLine] == multiset(s)[NewLine]
  {
    if |s| == 0 {
    } else if CrlfAt(s, 0) {
      NormalizeKeepsLineFeeds(s[2..]);
      assert s[..2] == [CarriageReturn, NewLine];
      LineFeedsAfterPrefix(s, 2, [NewLine]);
    } else {
      NormalizeKeepsLineFeeds(s[1..]);
      assert s[..1] == [s[0]];
      LineFeedsAfterPrefix(s, 1, [s[0]]);
    }
  }

  /** One step of normalisation: a prefix with as many line feeds, then the normalised rest. */
  lemma LineFeedsAfterPrefix(s: seq<char>, n: nat, out: seq<char>)
    requires 0 < n <= |s|
    requires NormalizeNewlines(s) == out + NormalizeNewlines(s[n..])
    requires multiset(out)[NewLine] == multiset(s[..n])[NewLine]
    requires multiset(NormalizeNewlines(s[n..]))[NewLine] == multiset(s[n..])[NewLine]
    ensures multiset(NormalizeNewlines(s))[NewLine] == multiset(s)[NewLine]
  {
    assert s == s[..n] + s[n..];
  }

  /** Text without a CRLF pair is left exactly as it is. */
  lemma {:induction false} NormalizeWithoutCrlf(s: seq<char>)
    requires forall i :: 0 <= i < |s| ==> !CrlfAt(s, i)
    ensures NormalizeNewlines(s) == s
  {
    if |s| > 0 {
      assert !CrlfAt(s, 0);
      forall i | 0 <= i < |s[1..]|
        ensures !CrlfAt(s[1..], i)
      {
        assert !CrlfAt(s, i + 1);
      }
      NormalizeWithoutCrlf(s[1..]);
      assert s == [s[0]] + s[1..];
    }
  }

  /** How many times `target` occurs in `s` (specification of `runesCount`). */
  function CountOf(s: seq<char>, target: char): (r: nat)
    ensures r == multiset(s)[target]
    ensures r <= |s|
  {
    if |s| == 0 then 0
    else
      var init := s[..|s| - 1];
      assert s == init + [s[|s| - 1]];
      CountOf(init, target) + (if s[|s| - 1] == target then 1 else 0)
  }

  /** The largest index holding `target`, or -1 (specification of `runesLastIndex`). */
  function LastIndexOf(s: seq<char>, target: char): (r: int)
    ensures -1 <= r < |s|
    ensures r == -1 <==> target !in s
    ensures r >= 0 ==> s[r] == target
    ensures forall j :: r < j < |s| ==> s[j] != target
  {
    if |s| == 0 then -1
    else if s[|s| - 1] == target then |s| - 1
    else LastIndexOf(s[..|s| - 1], target)
  }

  /** `runesCount`: one pass over the runes, counting the matches. */
  method RunesCount(input: seq<char>, target: char) returns (count: nat)
    ensures count == CountOf(input, target)
  {
    count := 0;
    var i := 0;
    while i < |input|
      invariant 0 <= i <= |input|
      invariant count == CountOf(input[..i], target)
    {
      assert input[..i + 1][..i] == input[..i];
      if input[i] == target {
        count := count + 1;
      }
      i := i + 1;
    }
    assert input[..|input|] == input;
  }

  /** `runesLastIndex`: scan from the end, stop at the first match. */
  method RunesLastIndex(input: seq<char>, target: char) returns (index: int)
    ensures index == LastIndexOf(input, target)
  {
    var i := |input| - 1;
    while i >= 0
      invariant -1 <= i < |input|
      invariant forall j :: i < j < |input| ==> input[j] != target
    {
      if input[i] == target {
        return i;
      }
      i := i - 1;
    }
    return -1;
  }

  /**
   * `computeLineFromPos`: `None` when `pos` lies beyond the normalised text;
   * otherwise the line is one more than the line feeds among the first `pos`
   * runes, and the column is the number of those runes after the last line feed.
   * A negative `pos` makes the source panic on the slice, so `pos` is a `nat`.
   */
  function ComputeLineFromPos(s: seq<char>, pos: nat): (r: Option<LineCol>)
    ensures r.None? <==> pos > |NormalizeNewlines(s)|
    ensures r.Some? ==>
              var sel := NormalizeNewlines(s)[..pos];
              && r.value.line == 1 + multiset(sel)[NewLine]
              && r.value.col <= pos
              && (forall j :: pos - r.value.col <= j < pos ==> sel[j] != NewLine)
              && (r.value.col < pos ==> sel[pos - r.value.col - 1] == NewLine)
  {
    var runes := NormalizeNewlines(s);
    if pos > |runes| then None
    else
      var sel := runes[..pos];
      var last := LastIndexOf(sel, NewLine);
      Some(LineCol(CountOf(sel, NewLine) + 1, pos - 1 - last))
  }

  /** Without CRLF pairs the position is in range exactly up to the length of the text. */
  lemma PositionInRange(s: seq<char>, pos: nat)
    requires forall i :: 0 <= i < |s| ==> !CrlfAt(s, i)
    ensures ComputeLineFromPos(s, pos).Some? <==> pos <= |s|
  {
    NormalizeWithoutCrlf(s);
  }

  /** A CRLF line ending counts as one character: "a\r\nb" at position 3 is line 2, column 1. */
  lemma CrlfCountsOnce()
    ensures ComputeLineFromPos("a\r\nb", 3) == Some(LineCol(2, 1))
  {
    var s := "a\r\nb";
    assert CrlfAt(s[1..], 0);
    assert NormalizeNewlines(s) == "a\nb";
    assert NormalizeNewlines(s)[..3] == "a\nb";
    assert multiset("a\nb")[NewLine] == 1;
  }
}
