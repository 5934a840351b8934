/**
 * The POSIX `os.path` operations (Python's `posixpath`) that turn a directory
 * entry into a path and a path into a face name: `join`, `basename` and the
 * root half of `splitext`, together with `str.rfind` on one character.
 */
module PosixPath {

  const Sep: char := '/'
  const ExtSep: char := '.'

  /** `s.rfind(c)`: the index of the last occurrence of `c`, or -1 when there is none. */
  function RFind(s: string, c: char): (i: int)
    ensures -1 <= i < |s|
    ensures 0 <= i ==> s[i] == c
    ensures forall k :: i < k < |s| ==> s[k] != c
  {
    if |s| == 0 then -1
    else if s[|s| - 1] == c then |s| - 1
    else RFind(s[..|s| - 1], c)
  }

  /** `os.path.join(a, b)`: an absolute `b` replaces `a`; a separator is inserted only when `a` is non-empty and does not end in one. */
  function Join(a: string, b: string): (p: string)
    ensures |b| <= |p| && p[|p| - |b|..] == b
    ensures (|b| == 0 || b[0] != Sep) ==> |a| <= |p| && p[..|a|] == a
  {
    if |b| > 0 && b[0] == Sep then b
    else if a == [] || a[|a| - 1] == Sep then a + b
    else a + [Sep] + b
  }

  /** `os.path.basename(p)`: the longest suffix of `p` that holds no separator. */
  function Basename(p: string): (b: string)
    ensures Sep !in b
    ensures |b| <= |p| && p[|p| - |b|..] == b
    ensures |b| < |p| ==> p[|p| - |b| - 1] == Sep
  {
    p[RFind(p, Sep) + 1..]
  }

  /**
   * `os.path.splitext(p)[0]`: `p` without its last extension. The extension
   * starts at the last '.' after the last separator, and only counts when
   * some character between that separator and the dot is not itself a dot
   * (so ".bmp" and "..jpg" have no extension).
   */
  function SplitExtRoot(p: string): (root: string)
    ensures |root| <= |p| && p[..|root|] == root
  {
    var sepIndex := RFind(p, Sep);
    var dotIndex := RFind(p, ExtSep);
    if dotIndex > sepIndex && exists k :: sepIndex < k < dotIndex && p[k] != ExtSep then p[..dotIndex]
    else p
  }

  /** The last occurrence is determined by its two properties: an occurrence, with none after it. */
  lemma RFindAt(s: string, c: char, i: int)
    requires -1 <= i < |s| && (0 <= i ==> s[i] == c)
    requires forall k :: i < k < |s| ==> s[k] != c
    ensures RFind(s, c) == i
  {
  }

  /** In `join(dir, entry)` with a relative entry, a separator or the start of the path comes right before the entry. */
  lemma JoinBeforeEntry(dir: string, entry: string)
    requires |entry| == 0 || entry[0] != Sep
    ensures var p := Join(dir, entry); |p| == |entry| || p[|p| - |entry| - 1] == Sep
  {
    if dir != [] && dir[|dir| - 1] != Sep {
      var p := dir + [Sep] + entry;
      assert p[|dir|] == Sep;
    }
  }

  /** Joining a directory with a plain entry name and taking the basename gives the entry back. */
  lemma BasenameOfJoin(dir: string, entry: string)
    requires Sep !in entry
    ensures Basename(Join(dir, entry)) == entry
  {
    var p := Join(dir, entry);
    var start := |p| - |entry|;
    assert p[start..] == entry;
    forall k | start <= k < |p| ensures p[k] != Sep {
      assert p[k] == entry[k - start];
    }
    JoinBeforeEntry(dir, entry);
    RFindAt(p, Sep, start - 1);
  }

  /** A name with an extension and a stem that is not all dots loses exactly that extension. */
  lemma SplitExtRootDropsExtension(stem: string, ext: string)
    requires Sep !in stem && Sep !in ext && ExtSep !in ext
    requires exists k :: 0 <= k < |stem| && stem[k] != ExtSep
    ensures SplitExtRoot(stem + [ExtSep] + ext) == stem
  {
    var p := stem + [ExtSep] + ext;
    assert p[|stem|] == ExtSep;
    assert forall k :: |stem| < k < |p| ==> p[k] == ext[k - |stem| - 1];
    assert RFind(p, ExtSep) == |stem|;
    assert forall k :: 0 <= k < |p| ==> p[k] != Sep;
    assert RFind(p, Sep) == -1;
    var k :| 0 <= k < |stem| && stem[k] != ExtSep;
    assert p[k] == stem[k];
    assert p[..|stem|] == stem;
  }

  /** A stem made only of dots (a hidden file such as ".jpg") keeps its whole name. */
  lemma SplitExtRootKeepsDotStem(stem: string, ext: string)
    requires Sep !in ext && ExtSep !in ext
    requires forall k :: 0 <= k < |stem| ==> stem[k] == ExtSep
    ensures SplitExtRoot(stem + [ExtSep] + ext) == stem + [ExtSep] + ext
  {
    var p := stem + [ExtSep] + ext;
    assert p[|stem|] == ExtSep;
    assert forall k :: |stem| < k < |p| ==> p[k] == ext[k - |stem| - 1];
    assert RFind(p, ExtSep) == |stem|;
    assert forall k :: 0 <= k < |stem| ==> p[k] == stem[k];
  }

  /**
   * For a name without separators that holds a dot: the root is the part
   * before the last dot, unless that part is only dots. This is the
   * definition of `SplitExtRoot` unfolded for such names (no separator, so
   * the search for a non-dot starts at the beginning); the two lemmas above
   * are the independent statements it is assembled from.
   */
  lemma SplitExtRootOfName(name: string)
    requires Sep !in name && 0 <= RFind(name, ExtSep)
    ensures var d := RFind(name, ExtSep);
      SplitExtRoot(name) == (if forall k :: 0 <= k < d ==> name[k] == ExtSep then name else name[..d])
  {
    var d := RFind(name, ExtSep);
    var stem, ext := name[..d], name[d + 1..];
    SplitAtLastDot(name);
    assert name == stem + [ExtSep] + ext;
    if forall k :: 0 <= k < d ==> name[k] == ExtSep {
      assert forall k :: 0 <= k < |stem| ==> stem[k] == ExtSep by {
        forall k | 0 <= k < |stem| ensures stem[k] == ExtSep {
          assert stem[k] == name[k];
        }
      }
      SplitExtRootKeepsDotStem(stem, ext);
      assert SplitExtRoot(name) == name;
    } else {
      var k :| 0 <= k < d && name[k] != ExtSep;
      assert stem[k] == name[k];
      SplitExtRootDropsExtension(stem, ext);
      assert SplitExtRoot(name) == stem;
    }
  }

  /** A name without separators splits at its last dot into a stem and an extension without dots. */
  lemma SplitAtLastDot(name: string)
    requires Sep !in name && 0 <= RFind(name, ExtSep)
    ensures var d := RFind(name, ExtSep);
      name == name[..d] + [ExtSep] + name[d + 1..] &&
      Sep !in name[..d] && Sep !in name[d + 1..] && ExtSep !in name[d + 1..]
  {
    var d := RFind(name, ExtSep);
    var stem, ext := name[..d], name[d + 1..];
    forall j | 0 <= j < |ext| ensures ext[j] != ExtSep && ext[j] != Sep {
      assert ext[j] == name[d + 1 + j];
    }
    forall j | 0 <= j < |stem| ensures stem[j] != Sep {
      assert stem[j] == name[j];
    }
    assert name == stem + [ExtSep] + ext;
  }
}
