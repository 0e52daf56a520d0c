/**
 * The slash-separated path and string helpers the scanner relies on:
 * Go's filepath.Base, filepath.Ext, strings.TrimSuffix and strings.ToLower,
 * on Unix, where the only separator is '/'.
 */
module Paths {

  const Separator: char := '/'

  /** No separator occurs in `s` from index `k` on. */
  predicate NoSeparatorFrom(s: string, k: int)
  {
    forall j :: k <= j < |s| && 0 <= j ==> s[j] != Separator
  }

  /** The final path element of `s` (the part after its last separator) holds no dot. */
  predicate NoDotInLastElement(s: string)
  {
    forall k :: 0 <= k < |s| && NoSeparatorFrom(s, k) ==> s[k] != '.'
  }

  predicate IsSuffix(t: string, s: string)
  {
    |t| <= |s| && s[|s| - |t|..] == t
  }

  /**
   * filepath.Ext: the suffix of `path` from the last dot of its final element,
   * or "" when that element has no dot.
   */
  function Ext(path: string): (e: string)
    ensures IsSuffix(e, path)
    ensures e != [] ==> e[0] == '.' && forall k :: 1 <= k < |e| ==> e[k] != '.' && e[k] != Separator
    ensures e == [] ==> NoDotInLastElement(path)
  {
    if path == [] || path[|path| - 1] == Separator then
      []
    else if path[|path| - 1] == '.' then
      "."
    else
      var c := path[|path| - 1];
      var init := path[..|path| - 1];
      var e := Ext(init);
      assert path == init + [c];
      if e == [] then
        assert forall k :: 0 <= k < |path| && NoSeparatorFrom(path, k) ==> k == |path| - 1 || NoSeparatorFrom(init, k);
        []
      else
        e + [c]
  }

  /** `s` with every trailing separator removed. */
  function TrimTrailingSeparators(s: string): (t: string)
    ensures |t| <= |s| && t == s[..|t|]
    ensures t == [] || t[|t| - 1] != Separator
    ensures forall k :: |t| <= k < |s| ==> s[k] == Separator
  {
    if s != [] && s[|s| - 1] == Separator then TrimTrailingSeparators(s[..|s| - 1]) else s
  }

  /** The part of `s` after its last separator (all of `s` if it has none). */
  function LastElement(s: string): (t: string)
    ensures IsSuffix(t, s)
    ensures Separator !in t
    ensures |t| < |s| ==> s[|s| - |t| - 1] == Separator
  {
    if s == [] || s[|s| - 1] == Separator then
      []
    else
      var init, c := s[..|s| - 1], s[|s| - 1];
      var t := LastElement(init);
      assert s[|s| - |t| - 1..] == init[|init| - |t|..] + [c];
      assert |t| + 1 < |s| ==> s[|s| - |t| - 2] == init[|init| - |t| - 1];
      t + [c]
  }

  /** Every character of `s` is a separator. */
  predicate AllSeparators(s: string)
  {
    forall k :: 0 <= k < |s| ==> s[k] == Separator
  }

  /**
   * filepath.Base: "." for the empty path, "/" for a path of separators only,
   * otherwise the last element once trailing separators are dropped.
   */
  function Base(path: string): (b: string)
    ensures b != []
    ensures path == [] ==> b == "."
    ensures path != [] && AllSeparators(path) ==> b == "/"
    ensures !AllSeparators(path) ==> Separator !in b && b == LastElement(TrimTrailingSeparators(path))
    ensures path != [] && path[|path| - 1] != Separator ==> b == LastElement(path)
  {
    if path == [] then
      "."
    else
      var t := LastElement(TrimTrailingSeparators(path));
      if t == [] then "/" else t
  }

  /** A trailing separator does not change the base: Base("a/b/") is Base("a/b"). */
  lemma BaseIgnoresTrailingSeparator(path: string)
    requires path != []
    ensures Base(path + [Separator]) == Base(path)
  {
    var p := path + [Separator];
    assert p[..|p| - 1] == path;
    assert TrimTrailingSeparators(p) == TrimTrailingSeparators(path);
  }

  /** strings.TrimSuffix: drop `suffix` from the end of `s` when `s` ends with it. */
  function TrimSuffix(s: string, suffix: string): (r: string)
    ensures IsSuffix(suffix, s) ==> r + suffix == s
    ensures !IsSuffix(suffix, s) ==> r == s
  {
    if IsSuffix(suffix, s) then s[..|s| - |suffix|] else s
  }

  /** Unicode lower-casing restricted to the ASCII letters A to Z. */
  function LowerChar(c: char): char
  {
    if 'A' <= c <= 'Z' then (c as int + 32) as char else c
  }

  /**
   * strings.ToLower, on ASCII: no upper-case letter is left, and each
   * character is kept or is the upper-case letter 32 code points below it.
   */
  function ToLower(s: string): (r: string)
    ensures |r| == |s|
    ensures forall i :: 0 <= i < |r| ==> !('A' <= r[i] <= 'Z')
    ensures forall i :: 0 <= i < |s| ==> r[i] == s[i] || ('A' <= s[i] <= 'Z' && r[i] as int == s[i] as int + 32)
  {
    seq(|s|, i requires 0 <= i < |s| => LowerChar(s[i]))
  }

  // ---------------------------------------------------------------------
  // Ext and Base on a path built from a directory part and a file name

  /** A directory part: empty, or ending in a separator. */
  predicate IsDirPrefix(dir: string)
  {
    dir == [] || dir[|dir| - 1] == Separator
  }

  /** A dot followed by characters that are neither dots nor separators is exactly the extension. */
  lemma {:induction false} ExtOfDotSuffix(prefix: string, ext: string)
    requires ext != [] && ext[0] == '.'
    requires forall k :: 1 <= k < |ext| ==> ext[k] != '.' && ext[k] != Separator
    ensures Ext(prefix + ext) == ext
  {
    var p := prefix + ext;
    if |ext| > 1 {
      var init := ext[..|ext| - 1];
      assert p[..|p| - 1] == prefix + init;
      ExtOfDotSuffix(prefix, init);
      assert init + [ext[|ext| - 1]] == ext;
    }
  }

  /** A final element without a dot has no extension. */
  lemma {:induction false} ExtOfDotlessName(dir: string, name: string)
    requires IsDirPrefix(dir)
    requires '.' !in name && Separator !in name
    ensures Ext(dir + name) == []
  {
    if name != [] {
      var p := dir + name;
      var init := name[..|name| - 1];
      assert p[..|p| - 1] == dir + init;
      assert p[|p| - 1] == name[|name| - 1];
      ExtOfDotlessName(dir, init);
    }
  }

  lemma {:induction false} LastElementOfName(dir: string, name: string)
    requires IsDirPrefix(dir) && Separator !in name
    ensures LastElement(dir + name) == name
  {
    if name != [] {
      var p := dir + name;
      var init := name[..|name| - 1];
      assert p[..|p| - 1] == dir + init;
      assert p[|p| - 1] == name[|name| - 1];
      LastElementOfName(dir, init);
      assert init + [name[|name| - 1]] == name;
    }
  }

  /** The base of a directory part followed by a non-empty file name is that name. */
  lemma BaseOfName(dir: string, name: string)
    requires IsDirPrefix(dir) && name != [] && Separator !in name
    ensures Base(dir + name) == name
  {
    var p := dir + name;
    assert p[|p| - 1] == name[|name| - 1];
    LastElementOfName(dir, name);
  }

  /** The extension of a path is the extension of its final element. */
  lemma {:induction false} ExtOfLastElement(s: string)
    ensures Ext(s) == Ext(LastElement(s))
  {
    if s != [] && s[|s| - 1] != Separator {
      var init := s[..|s| - 1];
      var t := LastElement(s);
      assert t[..|t| - 1] == LastElement(init);
      ExtOfLastElement(init);
    }
  }

  /**
   * For a path that does not end in a separator, the extension of the whole
   * path is the extension of its base.
   */
  lemma ExtOfBase(path: string)
    requires path != [] && path[|path| - 1] != Separator
    ensures Ext(path) == Ext(Base(path))
  {
    ExtOfLastElement(path);
  }

  /** A root given with a trailing separator has no extension, although its base has one. */
  lemma TrailingSeparatorHidesExt()
    ensures Ext("pics.jpg/") == [] && Ext(Base("pics.jpg/")) == ".jpg"
  {
    assert TrimTrailingSeparators("pics.jpg/") == "pics.jpg";
    BaseOfName([], "pics.jpg");
    assert [] + "pics.jpg" == "pics.jpg";
    ExtOfDotSuffix("pics", ".jpg");
    assert "pics" + ".jpg" == "pics.jpg";
  }
}
