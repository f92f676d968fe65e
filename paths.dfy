/** Path helpers of Main_Adv2.py: `truncate_path_by_folder` and the extension
    `os.path.splitext` records. Paths are taken as already normalised, with the
    single separator of the Windows build. */
module Paths {
  import opened Text

  const Sep: char := '\\'

  const Ellipsis: string := "..."

  /** Python's `parts[-k:]`; note that `parts[-0:]` is the whole list. */
  function TakeLast(parts: seq<string>, k: nat): (r: seq<string>)
    requires k <= |parts|
    ensures |r| >= 1 <== |parts| >= 1
    ensures k > 0 ==> r == parts[|parts| - k..]
    ensures k == 0 ==> r == parts
  {
    if k == 0 then parts else parts[|parts| - k..]
  }

  /** Shortens a path to its first `keepStart` and last `keepEnd` components with `...`
      in between; paths with at most `keepStart + keepEnd` components are kept. */
  function TruncatePathByFolder(path: string, keepStart: nat := 2, keepEnd: nat := 2): string {
    var parts := Split(path, Sep);
    if |parts| <= keepStart + keepEnd then path
    else Join(parts[..keepStart], Sep) + [Sep] + Ellipsis + [Sep] + Join(TakeLast(parts, keepEnd), Sep)
  }

  /** The components a piece contributes when joined: an empty list still yields one empty component. */
  function AsComponents(parts: seq<string>): seq<string> {
    if parts == [] then [[]] else parts
  }

  /** A path with at most `keepStart + keepEnd` components is returned as it is; a
      longer one becomes its first `keepStart` components, one `...` component and its
      last `keepEnd` components (all of them when `keepEnd` is 0, as Python slices). */
  lemma TruncateComponents(path: string, keepStart: nat, keepEnd: nat)
    ensures |Split(path, Sep)| <= keepStart + keepEnd ==> TruncatePathByFolder(path, keepStart, keepEnd) == path
    ensures |Split(path, Sep)| > keepStart + keepEnd ==>
      Split(TruncatePathByFolder(path, keepStart, keepEnd), Sep)
      == AsComponents(Split(path, Sep)[..keepStart]) + [Ellipsis] + TakeLast(Split(path, Sep), keepEnd)
  {
    var parts := Split(path, Sep);
    if |parts| > keepStart + keepEnd {
      SplitPieces(path, Sep);
      var front, back := parts[..keepStart], TakeLast(parts, keepEnd);
      assert forall k :: 0 <= k < |front| ==> front[k] == parts[k];
      assert forall k :: 0 <= k < |back| ==> back[k] == parts[|parts| - |back| + k];
      SplitAroundEllipsis(front, back);
    }
  }

  /** Joining two lists of components around `...` and splitting again gives back the
      components, with `...` between them. */
  lemma SplitAroundEllipsis(front: seq<string>, back: seq<string>)
    requires |back| >= 1
    requires forall k :: 0 <= k < |front| ==> Sep !in front[k]
    requires forall k :: 0 <= k < |back| ==> Sep !in back[k]
    ensures Split(Join(front, Sep) + [Sep] + Ellipsis + [Sep] + Join(back, Sep), Sep)
         == AsComponents(front) + [Ellipsis] + back
  {
    assert forall k :: 0 <= k < |Ellipsis| ==> Ellipsis[k] != Sep;
    SplitAroundComponent(front, Ellipsis, back);
  }

  /** Joining two lists of components around a word without separators and splitting
      again gives back the components, with the word between them. */
  lemma SplitAroundComponent(front: seq<string>, word: string, back: seq<string>)
    requires |back| >= 1 && Sep !in word
    requires forall k :: 0 <= k < |front| ==> Sep !in front[k]
    requires forall k :: 0 <= k < |back| ==> Sep !in back[k]
    ensures Split(Join(front, Sep) + [Sep] + word + [Sep] + Join(back, Sep), Sep)
         == AsComponents(front) + [word] + back
  {
    var a, b := Join(front, Sep), Join(back, Sep);
    var rest := word + [Sep] + b;
    assert a + [Sep] + word + [Sep] + b == a + [Sep] + rest;
    SplitAround(a, rest, Sep);
    SplitAround(word, b, Sep);
    SplitWord(word, Sep);
    SplitJoin(back, Sep);
    assert Split(rest, Sep) == [word] + back;
    SplitComponents(front);
  }

  /** Joining components without separators and splitting again gives them back; no
      components give the one empty component. */
  lemma SplitComponents(front: seq<string>)
    requires forall k :: 0 <= k < |front| ==> Sep !in front[k]
    ensures Split(Join(front, Sep), Sep) == AsComponents(front)
  {
    if front != [] {
      SplitJoin(front, Sep);
    }
  }

  /** With the defaults, a path of more than four components is shown as five. */
  lemma TruncateDefaultLength(path: string)
    requires |Split(path, Sep)| > 4
    ensures |Split(TruncatePathByFolder(path), Sep)| == 5
  {
    TruncateComponents(path, 2, 2);
  }

  /** Index of the last `c` in `s`, or -1. */
  function LastIndexOf(s: string, c: char): (r: int)
    ensures -1 <= r < |s|
    ensures r >= 0 ==> s[r] == c
    ensures forall k :: r < k < |s| ==> s[k] != c
  {
    if s == [] then -1
    else if s[|s| - 1] == c then |s| - 1
    else LastIndexOf(s[..|s| - 1], c)
  }

  /** The extension part of Python's `os.path.splitext`: from the last dot of the file
      name, unless the name has nothing but dots before that dot. */
  function Extension(path: string): (ext: string)
    ensures ext == [] || (ext[0] == '.' && EndsWith(path, ext))
  {
    var sepIndex := LastIndexOf(path, Sep);
    var dotIndex := LastIndexOf(path, '.');
    if dotIndex > sepIndex && exists k :: sepIndex < k < dotIndex && path[k] != '.' then path[dotIndex..]
    else []
  }

  /** Extension returns the text after the last dot when the last component has a
      non-dot character right before that dot. */
  lemma ExtensionAt(path: string, q: nat)
    requires 0 < q < |path| && path[q] == '.' && path[q - 1] != '.' && path[q - 1] != Sep
    requires forall k :: q < k < |path| ==> path[k] != '.' && path[k] != Sep
    ensures Extension(path) == path[q..]
  {
    var dotIndex := LastIndexOf(path, '.');
    assert dotIndex == q;
    var sepIndex := LastIndexOf(path, Sep);
    assert sepIndex < q - 1;
  }

  /** The extension is nonempty exactly when the last component has a dot somewhere
      after a non-dot character. */
  lemma ExtensionNonempty(path: string)
    ensures Extension(path) != [] <==>
      exists i, j :: LastIndexOf(path, Sep) < j < i < |path| && path[j] != '.' && path[i] == '.'
  {
    var sepIndex := LastIndexOf(path, Sep);
    var dotIndex := LastIndexOf(path, '.');
    if exists i, j :: sepIndex < j < i < |path| && path[j] != '.' && path[i] == '.' {
      var i, j :| sepIndex < j < i < |path| && path[j] != '.' && path[i] == '.';
      assert i <= dotIndex;
    }
  }

  /** A nonempty extension is the end of the path from its last dot: a dot followed by
      neither a dot nor a separator. */
  lemma ExtensionShape(path: string)
    ensures var ext := Extension(path);
      ext != [] ==> ext[0] == '.' && EndsWith(path, ext) && forall k :: 1 <= k < |ext| ==> ext[k] != '.' && ext[k] != Sep
  {
    var ext := Extension(path);
    if ext != [] {
      var dotIndex := LastIndexOf(path, '.');
      assert ext == path[dotIndex..];
      assert forall k :: 1 <= k < |ext| ==> ext[k] == path[dotIndex + k];
    }
  }
}
