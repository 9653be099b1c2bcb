/**
 * The path rules around the conversion loop: which files are converted
 * (main.go:153-155) and what the JSON output is called (main.go:270).
 * Ext, Base, TrimSuffix and ToLower follow the Go library functions the
 * program calls (filepath.Ext, filepath.Base with '/' as the only
 * separator, strings.TrimSuffix and strings.ToLower restricted to ASCII).
 */
module Paths {

  const Separator: char := '/'

  /** `x` is a suffix of `s`. */
  predicate HasSuffix(s: string, x: string) {
    |x| <= |s| && s[|s| - |x|..] == x
  }

  /**
   * filepath.Ext: the suffix of the last path element that starts at its
   * last dot, or "" when that element holds no dot.
   */
  function Ext(path: string): (e: string)
    ensures HasSuffix(path, e)
    ensures e != "" ==> e[0] == '.'
  {
    if |path| == 0 || path[|path| - 1] == Separator then ""
    else if path[|path| - 1] == '.' then "."
    else
      var e := Ext(path[..|path| - 1]);
      if e == "" then "" else e + [path[|path| - 1]]
  }

  /** The trailing run of non-separator characters of `p`. */
  function LastElement(p: string): (q: string)
    ensures HasSuffix(p, q) && Separator !in q
    ensures |q| < |p| ==> p[|p| - |q| - 1] == Separator
  {
    if |p| == 0 || p[|p| - 1] == Separator then ""
    else LastElement(p[..|p| - 1]) + [p[|p| - 1]]
  }

  /** `p` without its trailing separators. */
  function TrimTrailingSeparators(p: string): (q: string)
    ensures q <= p && (q == "" || q[|q| - 1] != Separator)
    ensures forall i :: |q| <= i < |p| ==> p[i] == Separator
  {
    if |p| > 0 && p[|p| - 1] == Separator then TrimTrailingSeparators(p[..|p| - 1]) else p
  }

  /**
   * filepath.Base: "." for the empty path, the separator for a path made
   * only of separators, and otherwise the last element once trailing
   * separators are dropped.
   */
  function Base(path: string): (b: string)
    ensures b != ""
    ensures b == [Separator] || Separator !in b
  {
    if path == "" then "."
    else
      var t := TrimTrailingSeparators(path);
      if t == "" then [Separator] else LastElement(t)
  }

  /** strings.TrimSuffix: drops `suffix` when `s` ends with it. */
  function TrimSuffix(s: string, suffix: string): (r: string)
    ensures HasSuffix(s, suffix) ==> r + suffix == s
    ensures !HasSuffix(s, suffix) ==> r == s
  {
    if HasSuffix(s, suffix) then s[..|s| - |suffix|] else s
  }

  /** ASCII lower case of one character. */
  function LowerChar(c: char): char {
    if 'A' <= c <= 'Z' then (c as int + 32) as char else c
  }

  /** strings.ToLower on ASCII text, one character at a time. */
  function ToLower(s: string): (r: string)
    ensures |r| == |s|
  {
    seq(|s|, i requires 0 <= i < |s| => LowerChar(s[i]))
  }

  /** The extension test of main.go:153-155. */
  predicate IsCsvExtension(path: string) {
    ToLower(Ext(path)) == ".csv"
  }

  /** The JSON output name of main.go:270, before the output directory is joined. */
  function OutputName(path: string): string {
    TrimSuffix(Base(path), Ext(path)) + ".json"
  }

  /** Ext is the part of the last element that starts at its last dot. */
  lemma {:induction false} ExtSpec(path: string)
    ensures HasSuffix(LastElement(path), Ext(path))
    ensures Ext(path) != "" ==> forall i :: 0 < i < |Ext(path)| ==> Ext(path)[i] != '.'
    ensures Ext(path) == "" ==> '.' !in LastElement(path)
  {
    if |path| > 0 && path[|path| - 1] != Separator && path[|path| - 1] != '.' {
      var init := path[..|path| - 1];
      var c := path[|path| - 1];
      ExtSpec(init);
      var e := Ext(init);
      var l := LastElement(init);
      assert LastElement(path) == l + [c];
      if e != "" {
        assert Ext(path) == e + [c];
        SuffixSnoc(l, e, c);
      } else {
        assert Ext(path) == "";
      }
    }
  }

  /** A common last character keeps a suffix a suffix. */
  lemma SuffixSnoc(s: string, x: string, c: char)
    requires HasSuffix(s, x)
    ensures HasSuffix(s + [c], x + [c])
  {
    assert (s + [c])[|s| - |x|..] == s[|s| - |x|..] + [c];
  }

  /**
   * A path is converted exactly when it ends in a dot followed by the
   * letters c, s and v in any mix of cases.
   */
  lemma CsvExtensionIff(path: string)
    ensures IsCsvExtension(path) <==>
      |path| >= 4 && path[|path| - 4] == '.' && LowerChar(path[|path| - 3]) == 'c'
      && LowerChar(path[|path| - 2]) == 's' && LowerChar(path[|path| - 1]) == 'v'
  {
    var e := Ext(path);
    var n := |path|;
    if IsCsvExtension(path) {
      assert |e| == 4;
      assert ToLower(e)[1] == LowerChar(e[1]) && ToLower(e)[2] == LowerChar(e[2]);
      assert ToLower(e)[3] == LowerChar(e[3]);
      assert e[0] == path[n - 4] && e[1] == path[n - 3] && e[2] == path[n - 2] && e[3] == path[n - 1];
    }
    if n >= 4 && path[n - 4] == '.' && LowerChar(path[n - 3]) == 'c'
      && LowerChar(path[n - 2]) == 's' && LowerChar(path[n - 1]) == 'v'
    {
      CsvTail(path);
      assert ToLower(e) == ".csv";
    }
  }

  /** Unfolds Ext over a path that ends in a dot and three letters. */
  lemma CsvTail(path: string)
    requires |path| >= 4 && path[|path| - 4] == '.'
    requires LowerChar(path[|path| - 3]) == 'c' && LowerChar(path[|path| - 2]) == 's'
    requires LowerChar(path[|path| - 1]) == 'v'
    ensures Ext(path) == path[|path| - 4..]
  {
    var n := |path|;
    var p1 := path[..n - 3];
    var p2 := path[..n - 2];
    var p3 := path[..n - 1];
    assert Ext(p1) == ".";
    assert p2[..|p2| - 1] == p1;
    assert Ext(p2) == Ext(p1) + [path[n - 3]];
    assert p3[..|p3| - 1] == p2;
    assert Ext(p3) == Ext(p2) + [path[n - 2]];
    assert path[..n - 1] == p3;
    assert Ext(path) == Ext(p3) + [path[n - 1]];
  }

  /** A path that does not end in a separator has its last element as base name. */
  lemma BaseOfFilePath(path: string)
    requires |path| > 0 && path[|path| - 1] != Separator
    ensures Base(path) == LastElement(path)
  {
    assert TrimTrailingSeparators(path) == path;
  }

  /** The last element of a path is whatever follows its last separator. */
  lemma {:induction false} LastElementAfter(dir: string, name: string)
    requires Separator !in name
    ensures LastElement(dir + [Separator] + name) == name
  {
    var p := dir + [Separator] + name;
    if |name| == 0 {
      assert p[|p| - 1] == Separator;
    } else {
      var init := name[..|name| - 1];
      assert p[..|p| - 1] == dir + [Separator] + init;
      LastElementAfter(dir, init);
      assert name == init + [name[|name| - 1]];
    }
  }

  /**
   * For a converted path the output name is the base name with its
   * extension replaced by ".json": a name in the output directory, with
   * no separator of its own.
   */
  lemma OutputNameShape(path: string)
    requires IsCsvExtension(path)
    ensures var b := Base(path);
      |b| >= 4 && b == LastElement(path) && b[|b| - 4..] == Ext(path)
      && OutputName(path) == b[..|b| - 4] + ".json" && Separator !in OutputName(path)
  {
    var e := Ext(path);
    assert |e| == 4;
    assert path[|path| - 1] == e[3] != Separator by {
      assert ToLower(e)[3] == LowerChar(e[3]);
    }
    BaseOfFilePath(path);
    ExtSpec(path);
    var b := Base(path);
    var stem := b[..|b| - 4];
    assert TrimSuffix(b, e) == stem;
    assert Separator !in stem by {
      assert forall i :: 0 <= i < |stem| ==> stem[i] == b[i];
    }
    assert Separator !in ".json";
  }

  /**
   * Extensions in any case are accepted; other suffixes and a path ending
   * in '/' are not. The test sees only the string, so a directory named
   * "dir.csv" passes it.
   */
  lemma ExtensionExamples()
    ensures IsCsvExtension("in/people.csv") && IsCsvExtension("in/PEOPLE.Csv")
    ensures IsCsvExtension("in/dir.csv")
    ensures !IsCsvExtension("in/people.csv.bak") && !IsCsvExtension("in/people")
    ensures !IsCsvExtension("in.csv/")
  {
    CsvExtensionIff("in/dir.csv");
    CsvExtensionIff("in/people.csv");
    CsvExtensionIff("in/PEOPLE.Csv");
    CsvExtensionIff("in/people.csv.bak");
    CsvExtensionIff("in/people");
    CsvExtensionIff("in.csv/");
  }

  /**
   * A file `stem` + `ext` in directory `dir`, with `ext` a dot and the
   * letters c, s, v in any case, is written out as `stem` + ".json"; a dot
   * inside the stem stays.
   */
  lemma OutputNameOfFile(dir: string, stem: string, ext: string)
    requires Separator !in stem
    requires |ext| == 4 && ext[0] == '.' && LowerChar(ext[1]) == 'c'
    requires LowerChar(ext[2]) == 's' && LowerChar(ext[3]) == 'v'
    ensures IsCsvExtension(dir + [Separator] + stem + ext)
    ensures OutputName(dir + [Separator] + stem + ext) == stem + ".json"
  {
    var b := stem + ext;
    var path := dir + [Separator] + b;
    assert dir + [Separator] + stem + ext == path;
    assert Separator !in b;
    LastElementAfter(dir, b);
    CsvPathExt(path, ext);
    CsvExtensionIff(path);
    OutputNameShape(path);
    assert b[..|b| - 4] == stem;
  }

  /** A path ending in a csv extension has that extension. */
  lemma CsvPathExt(path: string, ext: string)
    requires |ext| == 4 && ext[0] == '.' && LowerChar(ext[1]) == 'c'
    requires LowerChar(ext[2]) == 's' && LowerChar(ext[3]) == 'v'
    requires HasSuffix(path, ext)
    ensures |path| >= 4 && path[|path| - 4] == '.' && LowerChar(path[|path| - 3]) == 'c'
    ensures LowerChar(path[|path| - 2]) == 's' && LowerChar(path[|path| - 1]) == 'v'
  {
    var n := |path|;
    assert path[n - 4] == ext[0] && path[n - 3] == ext[1];
    assert path[n - 2] == ext[2] && path[n - 1] == ext[3];
  }
}
