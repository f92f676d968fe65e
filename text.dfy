/** String helpers that stand for the Python `str` methods the converter uses
    (`split`, `join`, `strip`, `lower`, `splitlines`, `endswith`) and for
    list slicing from the end. Character classes are the ASCII ones. */
module Text {

  datatype Option<+T> = None | Some(value: T)

  predicate IsDigit(c: char) { '0' <= c <= '9' }

  predicate AllDigits(s: string) { forall i :: 0 <= i < |s| ==> IsDigit(s[i]) }

  /** The ASCII characters `str.strip()` and the regex class `\s` treat as white space:
      space, the controls from tab to carriage return, and the separators 0x1C to 0x1F. */
  predicate IsSpace(c: char) {
    c == ' ' || ('\t' <= c <= '\r') || ('\U{1C}' <= c <= '\U{1F}')
  }

  /** The regex class `\w` (ASCII part). */
  predicate IsWordChar(c: char) {
    IsDigit(c) || ('a' <= c <= 'z') || ('A' <= c <= 'Z') || c == '_'
  }

  /** End of the run of characters satisfying `p` that starts at index j. */
  function SpanEnd(s: string, j: nat, p: char -> bool): (e: nat)
    requires j <= |s|
    ensures j <= e <= |s|
    ensures forall k :: j <= k < e ==> p(s[k])
    ensures e == |s| || !p(s[e])
    decreases |s| - j
  {
    if j == |s| || !p(s[j]) then j else SpanEnd(s, j + 1, p)
  }

  /** A run `w` placed at index j and not continued after it is found by SpanEnd. */
  lemma SpanEndAt(s: string, j: nat, w: string, p: char -> bool)
    requires j + |w| <= |s| && s[j..j + |w|] == w
    requires forall k :: 0 <= k < |w| ==> p(w[k])
    requires j + |w| == |s| || !p(s[j + |w|])
    ensures SpanEnd(s, j, p) == j + |w|
  {
  }

  predicate StartsWith(s: string, p: string) { |p| <= |s| && s[..|p|] == p }

  predicate EndsWith(s: string, p: string) { |p| <= |s| && s[|s| - |p|..] == p }

  /** Python's `s.split(c)`: the pieces between occurrences of `c`, empty pieces kept. */
  function Split(s: string, c: char): (r: seq<string>)
    ensures |r| >= 1
  {
    if s == [] then [[]]
    else
      var rest := Split(s[1..], c);
      if s[0] == c then [[]] + rest else [[s[0]] + rest[0]] + rest[1..]
  }

  /** Python's `c.join(xs)`. */
  function Join(xs: seq<string>, c: char): string {
    if |xs| == 0 then []
    else if |xs| == 1 then xs[0]
    else xs[0] + [c] + Join(xs[1..], c)
  }

  lemma {:induction false} JoinSplit(s: string, c: char)
    ensures Join(Split(s, c), c) == s
  {
    if s != [] {
      var rest := Split(s[1..], c);
      JoinSplit(s[1..], c);
      if s[0] == c {
        assert Split(s, c) == [[]] + rest;
        assert ([[]] + rest)[1..] == rest;
      } else {
        var r := Split(s, c);
        assert r == [[s[0]] + rest[0]] + rest[1..];
        if |rest| > 1 {
          assert r[1..] == rest[1..];
          assert Join(rest, c) == rest[0] + [c] + Join(rest[1..], c);
        }
      }
    }
  }

  lemma {:induction false} SplitPieces(s: string, c: char)
    ensures forall k :: 0 <= k < |Split(s, c)| ==> c !in Split(s, c)[k]
  {
    if s != [] {
      SplitPieces(s[1..], c);
    }
  }

  /** A character absent from a string is absent from each of its pieces. */
  lemma {:induction false} SplitKeepsAbsent(s: string, c: char, d: char)
    requires d !in s
    ensures forall k :: 0 <= k < |Split(s, c)| ==> d !in Split(s, c)[k]
  {
    if s != [] {
      SplitKeepsAbsent(s[1..], c, d);
    }
  }

  lemma {:induction false} SplitWord(w: string, c: char)
    requires c !in w
    ensures Split(w, c) == [w]
  {
    if w != [] {
      SplitWord(w[1..], c);
      assert [w[0]] + w[1..] == w;
    }
  }

  /** One step of Split on a string of the form x + s. */
  lemma SplitCons(x: char, s: string, c: char)
    ensures Split([x] + s, c) == if x == c then [[]] + Split(s, c) else [[x] + Split(s, c)[0]] + Split(s, c)[1..]
  {
    assert ([x] + s)[0] == x && ([x] + s)[1..] == s;
  }

  /** Splitting distributes over a separator placed between two strings. */
  lemma {:induction false} SplitAround(a: string, b: string, c: char)
    ensures Split(a + [c] + b, c) == Split(a, c) + Split(b, c)
  {
    if a == [] {
      assert a + [c] + b == [c] + b;
      SplitCons(c, b, c);
    } else {
      var rest := a[1..] + [c] + b;
      assert a + [c] + b == [a[0]] + rest;
      assert a == [a[0]] + a[1..];
      SplitAround(a[1..], b, c);
      SplitCons(a[0], rest, c);
      SplitCons(a[0], a[1..], c);
    }
  }

  /** Joining pieces that do not contain the separator and splitting again gives them back. */
  lemma {:induction false} SplitJoin(xs: seq<string>, c: char)
    requires |xs| >= 1
    requires forall k :: 0 <= k < |xs| ==> c !in xs[k]
    ensures Split(Join(xs, c), c) == xs
  {
    SplitWord(xs[0], c);
    if |xs| > 1 {
      SplitJoin(xs[1..], c);
      SplitAround(xs[0], Join(xs[1..], c), c);
      assert [xs[0]] + xs[1..] == xs;
    }
  }

  function LowerChar(c: char): char {
    if 'A' <= c <= 'Z' then (c as int - 'A' as int + 'a' as int) as char else c
  }

  /** Python's `s.lower()` on ASCII letters. */
  function Lower(s: string): (r: string)
    ensures |r| == |s|
    ensures forall i :: 0 <= i < |s| ==> r[i] == LowerChar(s[i])
  {
    if s == [] then [] else [LowerChar(s[0])] + Lower(s[1..])
  }

  function StripLeft(s: string): (r: string)
    ensures |r| <= |s| && r == s[|s| - |r|..]
    ensures r == [] || !IsSpace(r[0])
    ensures forall i :: 0 <= i < |s| - |r| ==> IsSpace(s[i])
  {
    if s != [] && IsSpace(s[0]) then StripLeft(s[1..]) else s
  }

  function StripRight(s: string): (r: string)
    ensures |r| <= |s| && r == s[..|r|]
    ensures r == [] || !IsSpace(r[|r| - 1])
    ensures forall i :: |r| <= i < |s| ==> IsSpace(s[i])
  {
    if s != [] && IsSpace(s[|s| - 1]) then StripRight(s[..|s| - 1]) else s
  }

  /** Python's `s.strip()`: white space removed at both ends. */
  function Strip(s: string): string {
    StripRight(StripLeft(s))
  }

  /** Text that neither starts nor ends with white space is left as it is by `strip()`. */
  lemma StripNothing(s: string)
    requires s != [] && !IsSpace(s[0]) && !IsSpace(s[|s| - 1])
    ensures Strip(s) == s
  {
  }

  /** A white-space character added at the end does not survive `strip()`. */
  lemma {:induction false} StripLeftAppend(x: string, c: char)
    requires IsSpace(c)
    ensures StripLeft(x + [c]) == if StripLeft(x) == [] then [] else StripLeft(x) + [c]
  {
    var xc := x + [c];
    if x == [] {
      assert xc == [c] && xc[1..] == [];
      assert StripLeft(xc) == StripLeft([]);
    } else {
      assert xc[0] == x[0] && xc[1..] == x[1..] + [c];
      if IsSpace(x[0]) {
        assert StripLeft(xc) == StripLeft(x[1..] + [c]);
        assert StripLeft(x) == StripLeft(x[1..]);
        StripLeftAppend(x[1..], c);
      } else {
        assert StripLeft(xc) == xc;
        assert StripLeft(x) == x;
      }
    }
  }

  lemma StripAppendSpace(x: string, c: char)
    requires IsSpace(c)
    ensures Strip(x + [c]) == Strip(x)
  {
    StripLeftAppend(x, c);
    var y := StripLeft(x);
    if y != [] {
      assert (y + [c])[..|y + [c]| - 1] == y;
    }
  }

  /** Python's `s.splitlines()` on text whose only line break is `\n`
      (a final line break does not open an empty last line). */
  function Lines(s: string): (r: seq<string>)
    ensures forall k :: 0 <= k < |r| ==> '\n' !in r[k]
  {
    if s == [] then []
    else
      var parts := Split(s, '\n');
      SplitPieces(s, '\n');
      if parts[|parts| - 1] == [] then parts[..|parts| - 1] else parts
  }

  /** A line ended by a line break is the first of the lines. */
  lemma LinesAfterBreak(piece: string, rest: string)
    requires '\n' !in piece
    ensures Lines(piece + "\n" + rest) == [piece] + Lines(rest)
  {
    var s := piece + "\n" + rest;
    assert s == piece + ['\n'] + rest;
    SplitAround(piece, rest, '\n');
    SplitWord(piece, '\n');
    var r := Split(rest, '\n');
    assert Split(s, '\n') == [piece] + r;
    if rest == [] {
      assert r == [[]];
    } else {
      assert ([piece] + r)[..|r|] == [piece] + r[..|r| - 1];
    }
  }

  /** Text without a line break is one line. */
  lemma LinesWithoutBreak(s: string)
    requires s != [] && '\n' !in s
    ensures Lines(s) == [s]
  {
    SplitWord(s, '\n');
  }

  /** Python's `xs[-n:]` for n > 0: the last n items, or all of them when there are fewer. */
  function LastN<T>(xs: seq<T>, n: nat): (r: seq<T>)
    requires n > 0
    ensures |r| == if |xs| <= n then |xs| else n
    ensures xs == xs[..|xs| - |r|] + r
  {
    if |xs| <= n then xs else xs[|xs| - n..]
  }
}
