/**
  Line structure of strings, and PHP's hard `wordwrap`.

  `Lines` splits a string at every line feed; it is the reader's view of the
  composed body and is used to state where delimiter lines fall.  `HardWrap`
  is `wordwrap($s, 70, "\n", true)` applied to a string that holds no space
  and no line feed (base64 output holds neither): PHP then cuts it into
  70-character chunks joined by "\n", with no break after the last chunk.
 */
module Text {

  /**
    The lines of `s`: the maximal pieces between line feeds, in order.  A
    string with `n` line feeds has `n + 1` lines; the empty string is one
    empty line.
   */
  function Lines(s: string): (ls: seq<string>)
    ensures |ls| >= 1
  {
    if |s| == 0 then [""]
    else
      var rest := Lines(s[1..]);
      if s[0] == '\n' then [""] + rest
      else [[s[0]] + rest[0]] + rest[1..]
  }

  /** A string with no line feed is a single line. */
  lemma {:induction false} LinesOfLine(s: string)
    requires '\n' !in s
    ensures Lines(s) == [s]
  {
    if |s| > 0 {
      assert '\n' !in s[1..];
      LinesOfLine(s[1..]);
      assert s == [s[0]] + s[1..];
    }
  }

  /** Joining two strings with a line feed concatenates their lines. */
  lemma {:induction false} LinesOfJoin(x: string, y: string)
    ensures Lines(x + "\n" + y) == Lines(x) + Lines(y)
  {
    var s := x + "\n" + y;
    if |x| == 0 {
      assert s == "\n" + y && s[1..] == y;
    } else {
      assert s[0] == x[0];
      assert s[1..] == x[1..] + "\n" + y;
      LinesOfJoin(x[1..], y);
    }
  }

  /** Lines of a concatenation from the lines of its pieces. */
  lemma LinesGlue(x: string, part: string, rest: string, tail: string, partLines: seq<string>, restLines: seq<string>)
    requires x == part + rest
    requires Lines(part + (rest + tail)) == partLines + Lines(rest + tail)
    requires Lines(rest + tail) == restLines + Lines(tail)
    ensures Lines(x + tail) == (partLines + restLines) + Lines(tail)
  {
    ConcatAssoc(part, rest, tail);
    ConcatAssoc(partLines, restLines, Lines(tail));
  }

  /** Concatenation is associative. */
  lemma ConcatAssoc<T>(a: seq<T>, b: seq<T>, c: seq<T>)
    ensures (a + b) + c == a + (b + c)
  {
  }

  /** A single line followed by a line feed contributes exactly itself. */
  lemma LinesOfHeadLine(x: string, y: string)
    requires '\n' !in x
    ensures Lines(x + "\n" + y) == [x] + Lines(y)
  {
    LinesOfJoin(x, y);
    LinesOfLine(x);
  }

  /** A single line followed by a blank line and then `y`. */
  lemma LinesOfHeadParagraph(x: string, y: string)
    requires '\n' !in x
    ensures Lines(x + "\n\n" + y) == [x, ""] + Lines(y)
  {
    assert x + "\n\n" + y == x + "\n" + ("" + "\n" + y);
    LinesOfHeadLine("", y);
    LinesOfHeadLine(x, "" + "\n" + y);
  }

  /** Number of entries of `ls` equal to `x`. */
  function Count(ls: seq<string>, x: string): (n: nat)
    ensures n <= |ls|
    ensures n == 0 <==> x !in ls
  {
    if |ls| == 0 then 0
    else (if ls[0] == x then 1 else 0) + Count(ls[1..], x)
  }

  /** Counting distributes over concatenation. */
  lemma {:induction false} CountAppend(a: seq<string>, b: seq<string>, x: string)
    ensures Count(a + b, x) == Count(a, x) + Count(b, x)
  {
    if |a| == 0 {
      assert a + b == b;
    } else {
      assert (a + b)[1..] == a[1..] + b;
      CountAppend(a[1..], b, x);
    }
  }

  /** Each line of `ls`, followed by a line feed. */
  function Block(ls: seq<string>): string
  {
    if |ls| == 0 then "" else ls[0] + "\n" + Block(ls[1..])
  }

  /** A block of single lines read back as lines gives those lines back. */
  lemma {:induction false} LinesOfBlock(ls: seq<string>, y: string)
    requires forall k :: 0 <= k < |ls| ==> '\n' !in ls[k]
    ensures Lines(Block(ls) + y) == ls + Lines(y)
  {
    if |ls| == 0 {
      assert Block(ls) + y == y;
    } else {
      assert Block(ls) + y == ls[0] + "\n" + (Block(ls[1..]) + y);
      LinesOfJoin(ls[0], Block(ls[1..]) + y);
      LinesOfBlock(ls[1..], y);
      LinesOfLine(ls[0]);
      assert ls == [ls[0]] + ls[1..];
    }
  }

  /** `s` with every line feed deleted. */
  function Unbreak(s: string): (r: string)
    ensures '\n' !in r
    ensures |r| <= |s|
  {
    if |s| == 0 then ""
    else if s[0] == '\n' then Unbreak(s[1..])
    else [s[0]] + Unbreak(s[1..])
  }

  /** Deleting line feeds distributes over concatenation. */
  lemma {:induction false} UnbreakAppend(a: string, b: string)
    ensures Unbreak(a + b) == Unbreak(a) + Unbreak(b)
  {
    if |a| == 0 {
      assert a + b == b;
    } else {
      assert (a + b)[0] == a[0];
      assert (a + b)[1..] == a[1..] + b;
      UnbreakAppend(a[1..], b);
    }
  }

  /** Deleting line feeds from a string that has none changes nothing. */
  lemma {:induction false} UnbreakNoBreak(s: string)
    requires '\n' !in s
    ensures Unbreak(s) == s
  {
    if |s| > 0 {
      assert '\n' !in s[1..];
      UnbreakNoBreak(s[1..]);
      assert s == [s[0]] + s[1..];
    }
  }

  /** The column at which the hard wrap cuts. */
  const WrapWidth: nat := 70

  /** `wordwrap(s, 70, "\n", true)` on a string without spaces or line feeds. */
  function HardWrap(s: string): string
    decreases |s|
  {
    if |s| <= WrapWidth then s
    else s[..WrapWidth] + "\n" + HardWrap(s[WrapWidth..])
  }

  /** The smaller of two integers. */
  function Min(a: int, b: int): int
  {
    if a <= b then a else b
  }

  /** The hard wrap has one line per started 70 characters, and one empty line for the empty string. */
  lemma {:induction false} HardWrapLineCount(s: string)
    requires '\n' !in s
    ensures |Lines(HardWrap(s))| == if |s| == 0 then 1 else (|s| + WrapWidth - 1) / WrapWidth
    decreases |s|
  {
    if |s| <= WrapWidth {
      LinesOfLine(s);
    } else {
      var rest := s[WrapWidth..];
      assert '\n' !in s[..WrapWidth];
      assert '\n' !in rest;
      LinesOfJoin(s[..WrapWidth], HardWrap(rest));
      LinesOfLine(s[..WrapWidth]);
      HardWrapLineCount(rest);
      assert |rest| + WrapWidth - 1 + WrapWidth == |s| + WrapWidth - 1;
    }
  }

  /**
    The k-th line of the hard wrap is the k-th 70-character slice of `s`,
    the last one possibly shorter.
   */
  lemma {:induction false} HardWrapLines(s: string)
    requires '\n' !in s
    ensures forall k :: 0 <= k < |Lines(HardWrap(s))| ==>
              WrapWidth * k <= |s| &&
              Lines(HardWrap(s))[k] == s[WrapWidth * k .. Min(WrapWidth * k + WrapWidth, |s|)]
    decreases |s|
  {
    if |s| <= WrapWidth {
      LinesOfLine(s);
    } else {
      var rest := s[WrapWidth..];
      assert '\n' !in s[..WrapWidth];
      assert '\n' !in rest;
      LinesOfJoin(s[..WrapWidth], HardWrap(rest));
      LinesOfLine(s[..WrapWidth]);
      HardWrapLines(rest);
      var ls := Lines(HardWrap(s));
      var tail := Lines(HardWrap(rest));
      assert ls == [s[..WrapWidth]] + tail;
      forall k | 1 <= k < |ls|
        ensures WrapWidth * k <= |s|
        ensures ls[k] == s[WrapWidth * k .. Min(WrapWidth * k + WrapWidth, |s|)]
      {
        var j := k - 1;
        assert ls[k] == tail[j];
        assert WrapWidth * k == WrapWidth * j + WrapWidth;
        SliceOfSuffix(s, WrapWidth, WrapWidth * j, Min(WrapWidth * j + WrapWidth, |rest|));
      }
    }
  }

  /** A slice of a suffix is a slice of the whole. */
  lemma SliceOfSuffix(s: string, d: nat, a: nat, b: nat)
    requires d <= |s| && a <= b <= |s| - d
    ensures s[d..][a..b] == s[d + a .. d + b]
  {
  }

  /** Every line of the hard wrap is at most 70 long, and all but the last exactly 70. */
  lemma HardWrapLineLengths(s: string)
    requires '\n' !in s
    ensures forall k :: 0 <= k < |Lines(HardWrap(s))| ==> |Lines(HardWrap(s))[k]| <= WrapWidth
    ensures forall k :: 0 <= k < |Lines(HardWrap(s))| - 1 ==> |Lines(HardWrap(s))[k]| == WrapWidth
  {
    HardWrapLines(s);
    HardWrapLineCount(s);
  }

  /** Deleting the inserted line feeds recovers the unwrapped string. */
  lemma {:induction false} HardWrapUnbreak(s: string)
    requires '\n' !in s
    ensures Unbreak(HardWrap(s)) == s
    decreases |s|
  {
    if |s| <= WrapWidth {
      UnbreakNoBreak(s);
    } else {
      var rest := s[WrapWidth..];
      assert '\n' !in rest;
      assert '\n' !in s[..WrapWidth];
      UnbreakAppend(s[..WrapWidth] + "\n", HardWrap(rest));
      UnbreakAppend(s[..WrapWidth], "\n");
      UnbreakNoBreak(s[..WrapWidth]);
      HardWrapUnbreak(rest);
      assert s == s[..WrapWidth] + rest;
    }
  }
}
