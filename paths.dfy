/** File-name extensions as Go's filepath.Ext computes them on a Unix host,
    where '/' is the only path separator. */
module Paths {
  import opened Text

  const Separator: char := '/'

  /** The scan of filepath.Ext: walking left from position `i`, the position of
      the first '.' met before a separator, or |path| when a separator or the
      start of `path` comes first. */
  function ExtStart(path: string, i: nat): (k: nat)
    requires i <= |path|
    ensures k <= |path|
    decreases i
  {
    if i == 0 || path[i - 1] == Separator then |path|
    else if path[i - 1] == '.' then i - 1
    else ExtStart(path, i - 1)
  }

  /** filepath.Ext: the suffix of `path` beginning at the final dot of its final element. */
  function Ext(path: string): string {
    path[ExtStart(path, |path|)..]
  }

  /** An extension is empty or one dot followed by neither dots nor separators. */
  predicate IsExtension(e: string) {
    e == [] || (e[0] == '.' && forall i :: 1 <= i < |e| ==> e[i] != '.' && e[i] != Separator)
  }

  /** The id a saved upload stands for: its name with its extension removed. */
  function StripExt(name: string): string {
    TrimSuffix(name, Ext(name))
  }

  /** filepath.Clean of a relative path given as its elements: empty and "."
      elements vanish, and ".." cancels the element before it unless that is
      itself "..". No elements at all stands for the path ".". */
  function CleanElements(elems: seq<string>): seq<string>
    decreases |elems|
  {
    if elems == [] then []
    else
      var done := CleanElements(elems[..|elems| - 1]);
      var e := elems[|elems| - 1];
      if e == "" || e == "." then done
      else if e == ".." && done != [] && done[|done| - 1] != ".." then done[..|done| - 1]
      else done + [e]
  }

  /** What the scan finds: either a dot with no dot or separator after it up to
      `i`, or nothing, and then every dot before `i` has a separator after it. */
  lemma {:induction false} ExtStartMeaning(path: string, i: nat)
    requires i <= |path|
    ensures var k := ExtStart(path, i);
      (k < |path| ==>
         (k < i && path[k] == '.' &&
          forall j :: k < j < i ==> path[j] != '.' && path[j] != Separator)) &&
      (k == |path| ==>
         (forall j :: 0 <= j < i && path[j] == '.' ==>
          exists m :: j < m < i && path[m] == Separator))
    decreases i
  {
    if i == 0 || path[i - 1] == Separator {
    } else if path[i - 1] == '.' {
    } else {
      ExtStartMeaning(path, i - 1);
    }
  }

  /** Ext returns an extension that ends the path, and returns "" exactly when
      the final element of the path has no dot. */
  lemma ExtMeaning(path: string)
    ensures IsExtension(Ext(path)) && HasSuffix(path, Ext(path))
    ensures Ext(path) == [] <==>
      forall j :: 0 <= j < |path| && path[j] == '.' ==> exists m :: j < m < |path| && path[m] == Separator
  {
    ExtStartMeaning(path, |path|);
    var k := ExtStart(path, |path|);
    if k < |path| {
      var e := Ext(path);
      forall i | 1 <= i < |e| ensures e[i] != '.' && e[i] != Separator {
        assert e[i] == path[k + i];
      }
    }
  }

  /** The scan passes over a stretch free of dots and separators. */
  lemma {:induction false} ExtStartSkips(path: string, lo: nat, i: nat)
    requires lo <= i <= |path|
    requires forall j :: lo <= j < i ==> path[j] != '.' && path[j] != Separator
    ensures ExtStart(path, i) == ExtStart(path, lo)
    decreases i
  {
    if i > lo {
      ExtStartSkips(path, lo, i - 1);
    }
  }

  /** A name with no dot, followed by an extension, has exactly that extension. */
  lemma ExtOfDotlessStem(stem: string, ext: string)
    requires '.' !in stem
    requires IsExtension(ext)
    ensures Ext(stem + ext) == ext
    ensures StripExt(stem + ext) == stem
  {
    var p := stem + ext;
    if ext == [] {
      assert p == stem;
      ExtStartMeaning(p, |p|);
    } else {
      ExtStartSkips(p, |stem| + 1, |p|);
      assert p[|stem|] == '.';
      assert ExtStart(p, |stem| + 1) == |stem|;
    }
    assert p[|p| - |ext|..] == ext;
  }
}
