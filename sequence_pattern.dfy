/** Image-sequence patterns of Main_Adv2.py: deriving `shot_%04d.png` from a sample
    frame `shot_0001.png` (browse_input_file), the sequence test `'%' in input` and the
    glob substitution `re.sub(r'%0\d+d', '*', input)` (convert). */
module SequencePattern {
  import opened Text
  import opened Decimal
  import Paths

  /** The four groups of `^(.*?)([._])(\d+)(\.\w+)$`. */
  datatype Groups = Groups(prefix: string, separator: char, digits: string, ext: string)

  /** The groups `g` span all of `path`: `.` does not match a line break, `\d` and `\w`
      are taken over ASCII. */
  ghost predicate Decomposes(path: string, g: Groups) {
    && path == g.prefix + [g.separator] + g.digits + g.ext
    && '\n' !in g.prefix
    && (g.separator == '.' || g.separator == '_')
    && |g.digits| >= 1 && AllDigits(g.digits)
    && |g.ext| >= 2 && g.ext[0] == '.'
    && forall k :: 1 <= k < |g.ext| ==> IsWordChar(g.ext[k])
  }

  /** The regex matches `path` with groups `g`: Python's `$` matches at the end of the
      text and also just before a line break that ends it. */
  ghost predicate Matches(path: string, g: Groups) {
    || Decomposes(path, g)
    || (path != [] && path[|path| - 1] == '\n' && Decomposes(path[..|path| - 1], g))
  }

  predicate AllWord(s: string) { forall k :: 0 <= k < |s| ==> IsWordChar(s[k]) }

  /** Start of the run of digits that ends just before index j. */
  function DigitRunStart(s: string, j: nat): (d: nat)
    requires j <= |s|
    ensures d <= j
    ensures forall k :: d <= k < j ==> IsDigit(s[k])
    ensures d == 0 || !IsDigit(s[d - 1])
  {
    if j == 0 || !IsDigit(s[j - 1]) then j else DigitRunStart(s, j - 1)
  }

  /** The groups spanning all of `path`: the extension starts at the last dot, the
      digits are the run before it and the separator the character before the digits. */
  function MatchWhole(path: string): (r: Option<Groups>)
    ensures r.Some? ==> Decomposes(path, r.value)
  {
    var q := Paths.LastIndexOf(path, '.');
    if q < 0 || |path| - q < 2 || !AllWord(path[q + 1..]) then None
    else
      var d := DigitRunStart(path, q);
      if d == q || d == 0 || (path[d - 1] != '.' && path[d - 1] != '_') || '\n' in path[..d - 1] then None
      else
        var g := Groups(path[..d - 1], path[d - 1], path[d..q], path[q..]);
        assert path == g.prefix + [g.separator] + g.digits + g.ext;
        Some(g)
  }

  /** The regex search. The extension ends in a word character, so a match can end at
      the end of the text only when the text does not end in a line break. */
  function MatchSampleName(path: string): (r: Option<Groups>)
    ensures r.Some? ==> Matches(path, r.value)
  {
    if path != [] && path[|path| - 1] == '\n' then MatchWhole(path[..|path| - 1]) else MatchWhole(path)
  }

  /** Every way the regex can match `path` is the one MatchSampleName finds: the match is
      unique, so the lazy `(.*?)` makes no difference. */
  lemma MatchComplete(path: string, g: Groups)
    requires Matches(path, g)
    ensures MatchSampleName(path) == Some(g)
  {
    if Decomposes(path, g) {
      assert path[|path| - 1] == g.ext[|g.ext| - 1];
      MatchWholeComplete(path, g);
    } else {
      MatchWholeComplete(path[..|path| - 1], g);
    }
  }

  /** Groups spanning all of `path` are the ones MatchWhole finds. */
  lemma MatchWholeComplete(path: string, g: Groups)
    requires Decomposes(path, g)
    ensures MatchWhole(path) == Some(g)
  {
    var p := |g.prefix|;
    var q := p + 1 + |g.digits|;
    var head := g.prefix + [g.separator] + g.digits;
    assert path == head + g.ext && |head| == q;
    assert path[..q] == head && path[q..] == g.ext;
    assert head[..p] == g.prefix && head[p] == g.separator && head[p + 1..] == g.digits;
    assert path[q + 1..] == g.ext[1..];
    LastDot(path, q);
    assert path[p + 1..q] == g.digits;
    DigitRunAt(path, p, q);
    assert path[..p] == g.prefix && path[p] == g.separator;
  }

  lemma LastDot(path: string, q: nat)
    requires q < |path| && path[q] == '.'
    requires AllWord(path[q + 1..])
    ensures Paths.LastIndexOf(path, '.') == q
  {
  }

  lemma DigitRunAt(s: string, p: nat, q: nat)
    requires p < q <= |s| && !IsDigit(s[p])
    requires AllDigits(s[p + 1..q])
    ensures DigitRunStart(s, q) == p + 1
  {
  }

  /** browse_input_file: a `.png` sample frame becomes its printf pattern; anything else
      is kept as chosen. */
  function DerivePattern(path: string): string {
    var m := MatchSampleName(path);
    if m.Some? && Paths.Extension(path) == ".png" then
      m.value.prefix + [m.value.separator] + "%0" + NatToString(|m.value.digits|) + "d" + m.value.ext
    else path
  }

  /** The extension splitext records for a matching path is the regex's last group. */
  lemma ExtensionOfMatch(path: string, g: Groups)
    requires Decomposes(path, g)
    ensures Paths.Extension(path) == g.ext
  {
    var q := |g.prefix| + 1 + |g.digits|;
    assert path[q - 1] == g.digits[|g.digits| - 1];
    assert forall k :: q < k < |path| ==> path[k] == g.ext[k - q];
    assert path[q..] == g.ext;
    Paths.ExtensionAt(path, q);
  }

  /** A matching `.png` frame name becomes prefix, separator, `%0<width>d`, extension. */
  lemma DeriveFromFrame(path: string, g: Groups)
    requires Decomposes(path, g) && g.ext == ".png"
    ensures DerivePattern(path) == g.prefix + [g.separator] + "%0" + NatToString(|g.digits|) + "d" + ".png"
  {
    MatchComplete(path, g);
    ExtensionOfMatch(path, g);
  }

  /** A path the regex does not match with the groups spanning all of it, or whose
      extension is not `.png`, is kept. A path ending in a line break is among them:
      splitext then keeps the line break in the extension. */
  lemma DeriveKeeps(path: string)
    requires forall g :: Decomposes(path, g) ==> g.ext != ".png"
    ensures DerivePattern(path) == path
  {
    var m := MatchSampleName(path);
    if m.Some? {
      if Decomposes(path, m.value) {
        ExtensionOfMatch(path, m.value);
      } else {
        var e := Paths.Extension(path);
        assert e == [] || e[|e| - 1] == '\n';
      }
    }
  }

  /** The sample frame `shot_0001.png` gives the pattern `shot_%04d.png`. */
  lemma DeriveShotExample(path: string)
    requires path == "shot_0001.png"
    ensures DerivePattern(path) == "shot_%04d.png"
  {
    var g := Groups("shot", '_', "0001", ".png");
    assert path == g.prefix + [g.separator] + g.digits + g.ext;
    assert Decomposes(path, g);
    DeriveFromFrame(path, g);
    var w := NatToString(4);
    assert w == "4";
    ShotPatternText(w);
  }

  lemma ShotPatternText(w: string)
    requires w == "4"
    ensures "shot" + ['_'] + "%0" + w + "d" + ".png" == "shot_%04d.png"
  {
  }

  /** convert: the input is an image sequence iff it contains `%`. */
  predicate IsSequence(input: string) { '%' in input }

  /** Length of a `%0<digits>d` token at the start of s, or 0 when there is none. */
  function TokenLength(s: string): (n: nat)
    ensures n == 0 || (4 <= n <= |s| && s[0] == '%')
  {
    if |s| < 2 || s[0] != '%' || s[1] != '0' then 0
    else
      var e := SpanEnd(s, 2, IsDigit);
      if e == 2 || e == |s| || s[e] != 'd' then 0 else e + 1
  }

  /** A `%0\d+d` token with the digits `w` at the start of s. */
  predicate TokenAt(s: string, w: string) {
    |w| >= 1 && AllDigits(w) && StartsWith(s, "%0" + w + "d")
  }

  /** TokenLength finds a token exactly when s starts with one, and then its length. */
  lemma TokenLengthMeaning(s: string)
    ensures TokenLength(s) > 0 <==> exists w :: TokenAt(s, w)
    ensures forall w :: TokenAt(s, w) ==> TokenLength(s) == |w| + 3
  {
    forall w | TokenAt(s, w) ensures TokenLength(s) == |w| + 3 {
      TokenAtLength(s, w);
    }
    if TokenLength(s) > 0 {
      TokenFound(s);
    }
  }

  /** A token TokenLength finds is a `%0\d+d` token. */
  lemma TokenFound(s: string)
    requires TokenLength(s) > 0
    ensures TokenAt(s, s[2..TokenLength(s) - 1])
  {
    var n := TokenLength(s);
    var w := s[2..n - 1];
    assert s[..n] == "%0" + w + "d";
  }

  lemma TokenAtLength(s: string, w: string)
    requires TokenAt(s, w)
    ensures TokenLength(s) == |w| + 3
  {
    var t := "%0" + w + "d";
    assert s[..|t|] == t;
    assert s[0] == '%' && s[1] == '0';
    assert s[2..2 + |w|] == w;
    assert s[2 + |w|] == 'd';
    SpanEndAt(s, 2, w, IsDigit);
  }

  /** `re.sub(r'%0\d+d', '*', s)`: left to right, every token becomes `*`. */
  function Glob(s: string): string
    decreases |s|
  {
    if s == [] then []
    else
      var n := TokenLength(s);
      if n > 0 then "*" + Glob(s[n..]) else [s[0]] + Glob(s[1..])
  }

  /** A character that starts no `%0\d+d` token, a stray `%` among them, is kept as it is
      and the substitution goes on after it. */
  lemma GlobStray(s: string)
    requires s != [] && forall w :: !TokenAt(s, w)
    ensures Glob(s) == [s[0]] + Glob(s[1..])
  {
    if TokenLength(s) > 0 {
      TokenFound(s);
    }
  }

  /** Text without `%` passes through the substitution unchanged, and so does
      whatever follows it. */
  lemma {:induction false} GlobPlain(a: string, b: string)
    requires '%' !in a
    ensures Glob(a + b) == a + Glob(b)
  {
    if a != [] {
      assert (a + b)[0] == a[0] && (a + b)[1..] == a[1..] + b;
      assert TokenLength(a + b) == 0;
      assert Glob(a + b) == [a[0]] + Glob(a[1..] + b);
      GlobPlain(a[1..], b);
      assert [a[0]] + a[1..] == a;
    } else {
      assert a + b == b;
    }
  }

  /** A width token is replaced by one `*`, whatever follows it. */
  lemma GlobToken(w: string, b: string)
    requires |w| >= 1 && AllDigits(w)
    ensures Glob("%0" + w + "d" + b) == "*" + Glob(b)
  {
    var s := "%0" + w + "d" + b;
    var t := "%0" + w + "d";
    assert s == t + b && s[..|t|] == t;
    assert TokenAt(s, w);
    TokenAtLength(s, w);
    assert s[|w| + 3..] == b;
  }

  /** Substituting a pattern whose only `%` is its width token turns the token into `*`. */
  lemma GlobPattern(head: string, width: nat, tail: string)
    requires '%' !in head && '%' !in tail
    ensures Glob(head + "%0" + NatToString(width) + "d" + tail) == head + "*" + tail
  {
    var w := NatToString(width);
    var token := "%0" + w + "d";
    assert head + "%0" + w + "d" + tail == head + (token + tail);
    GlobPlain(head, token + tail);
    GlobToken(w, tail);
    GlobPlain(tail, []);
    assert tail + [] == tail;
    assert head + ("*" + tail) == head + "*" + tail;
  }

  /** A derived pattern is a sequence: it holds the `%` of its width token. */
  lemma DerivedPatternIsSequence(path: string, g: Groups)
    requires Decomposes(path, g) && g.ext == ".png"
    ensures IsSequence(DerivePattern(path))
  {
    DeriveFromFrame(path, g);
    var head := g.prefix + [g.separator];
    var r := head + "%0" + NatToString(|g.digits|) + "d" + g.ext;
    assert r[|head|] == '%';
  }

  /** When the prefix holds no `%`, the glob of a derived pattern is the sample name with
      the frame number replaced by `*`. */
  lemma DerivedPatternGlob(path: string, g: Groups)
    requires Decomposes(path, g) && g.ext == ".png" && '%' !in g.prefix
    ensures Glob(DerivePattern(path)) == g.prefix + [g.separator] + "*" + g.ext
  {
    DeriveFromFrame(path, g);
    assert forall k :: 1 <= k < |g.ext| ==> g.ext[k] != '%';
    GlobPattern(g.prefix + [g.separator], |g.digits|, g.ext);
  }

  /** Without a `%` there is nothing to substitute. */
  lemma GlobNoToken(s: string)
    requires !IsSequence(s)
    ensures Glob(s) == s
  {
    GlobPlain(s, []);
    assert s + [] == s;
  }
}
