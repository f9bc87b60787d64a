/** The System.IO.Path operations the modelled code uses, over '/'-separated paths. */
module Paths {
  import opened Wrappers
  import opened Text

  const Sep: char := '/'

  predicate IsRooted(p: string) {
    |p| > 0 && p[0] == Sep
  }

  /** Path.Combine(a, b): a rooted or lone `b` wins, an empty `b` leaves `a`, and a
      separator is inserted only when `a` does not already end with one. */
  function Combine(a: string, b: string): (r: string)
    ensures b != "" && !IsRooted(b) && a != "" && a[|a| - 1] != Sep ==> r == a + [Sep] + b
    ensures IsRooted(b) ==> r == b
    ensures |b| <= |r| && r[|r| - |b|..] == b
  {
    if b == "" then a
    else if a == "" || IsRooted(b) then b
    else if a[|a| - 1] == Sep then a + b
    else a + [Sep] + b
  }

  /** Path.GetFileName: what follows the last separator, that is, the longest suffix
      without a separator. */
  function FileName(p: string): (r: string)
    ensures Sep !in r && |r| <= |p| && r == p[|p| - |r|..]
    ensures |r| < |p| ==> p[|p| - |r| - 1] == Sep
  {
    match LastIndexOf(p, Sep)
    case None => p
    case Some(i) => p[i + 1..]
  }

  /** Path.GetFileNameWithoutExtension: the file name without its last '.' and what
      follows it; a file name without a dot is kept whole. */
  function FileNameWithoutExtension(p: string): (r: string)
    ensures Sep !in r
    ensures '.' !in FileName(p) ==> r == FileName(p)
    ensures '.' in FileName(p) ==>
      var f := FileName(p);
      |r| < |f| && r == f[..|r|] && f[|r|] == '.' && '.' !in f[|r| + 1..]
  {
    var f := FileName(p);
    match LastIndexOf(f, '.')
    case None => f
    case Some(i) => f[..i]
  }

  /** Path.GetDirectoryName: None (null) for the empty path and the root, "" for a bare
      file name, otherwise everything before the last separator, where a path whose only
      separator is its first character has the root "/" as its directory. */
  function DirectoryName(p: string): (r: Option<string>)
    ensures r.Some? ==> |r.value| < |p|
    ensures p == "" ==> r.None?
    ensures p != "" && Sep !in p ==> r == Some("")
    ensures Sep in p ==>
      var d := p[..|p| - |FileName(p)| - 1];
      r == (if d != "" then Some(d) else if FileName(p) == "" then None else Some([Sep]))
  {
    if p == "" then None
    else match LastIndexOf(p, Sep)
      case None => Some("")
      case Some(i) =>
        assert |FileName(p)| == |p| - i - 1;
        if i == 0 then (if |p| == 1 then None else Some([Sep]))
        else Some(p[..i])
  }

  /** The directories Directory.CreateDirectory(d) brings into existence: `d` and each of
      its ancestors named by a prefix that ends before a separator. */
  function DirChain(d: string): (r: set<string>)
    ensures d != "" ==> d in r
    ensures "" !in r
  {
    assert d != "" ==> d[..|d|] == d;
    set i | 0 < i <= |d| && (i == |d| || d[i] == Sep) :: d[..i]
  }

  /** Directory.CreateDirectory(d) brings the ancestors of `d` into existence: the chain
      of `d`'s parent (other than the root) is part of the chain of `d`. */
  lemma DirChainParent(d: string)
    requires DirectoryName(d).Some? && DirectoryName(d).value != "" && DirectoryName(d).value != [Sep]
    ensures DirChain(DirectoryName(d).value) <= DirChain(d)
  {
    var x := DirectoryName(d).value;
    var i := LastIndexOf(d, Sep).value;
    assert x == d[..i] && d[i] == Sep;
    forall e | e in DirChain(x)
      ensures e in DirChain(d)
    {
      var j :| 0 < j <= |x| && (j == |x| || x[j] == Sep) && e == x[..j];
      assert e == d[..j];
      assert j == |d| || d[j] == Sep;
    }
  }

  lemma {:induction false} LastIndexOfAfter(a: string, c: char, b: string)
    requires c !in b
    ensures LastIndexOf(a + [c] + b, c) == Some(|a|)
    decreases |b|
  {
    var s := a + [c] + b;
    if b != [] {
      assert s[..|s| - 1] == a + [c] + b[..|b| - 1];
      LastIndexOfAfter(a, c, b[..|b| - 1]);
    }
  }

  lemma {:induction false} LastIndexOfAbsent(s: string, c: char)
    requires c !in s
    ensures LastIndexOf(s, c) == None
  {
  }

  /** The file name of `dir/name` is `name`, whatever the directory part. */
  lemma FileNameOfCombine(dir: string, name: string)
    requires dir != "" && dir[|dir| - 1] != Sep
    requires name != "" && Sep !in name
    ensures FileName(Combine(dir, name)) == name
    ensures DirectoryName(Combine(dir, name)) == Some(dir)
  {
    LastIndexOfAfter(dir, Sep, name);
    assert (dir + [Sep] + name)[|dir| + 1..] == name;
    assert (dir + [Sep] + name)[..|dir|] == dir;
  }

  /** A character in neither part is not in their concatenation. */
  lemma CharNotInJoin(a: string, b: string, c: char)
    requires c !in a && c !in b
    ensures c !in a + b
  {
    forall k | 0 <= k < |a + b|
      ensures (a + b)[k] != c
    {
      if k < |a| {
        assert (a + b)[k] == a[k];
      } else {
        assert (a + b)[k] == b[k - |a|];
      }
    }
  }

  /** Stripping the extension `.ext` from `name.ext` gives back `name` when `name`
      holds no separator and no dot. */
  lemma WithoutExtension(dir: string, name: string, ext: string)
    requires dir != "" && dir[|dir| - 1] != Sep
    requires Sep !in name && '.' !in name
    requires Sep !in ext && '.' !in ext
    ensures FileNameWithoutExtension(Combine(dir, name + "." + ext)) == name
  {
    var f := name + "." + ext;
    assert f == name + ['.'] + ext;
    CharNotInJoin(name, ['.'], Sep);
    CharNotInJoin(name + ['.'], ext, Sep);
    FileNameOfCombine(dir, f);
    LastIndexOfAfter(name, '.', ext);
    assert f[..|name|] == name;
  }

  /** For a bare file name (no directory part) the extension is stripped the same way. */
  lemma WithoutExtensionBare(name: string)
    requires Sep !in name && '.' !in name
    ensures FileNameWithoutExtension(name) == name
  {
    LastIndexOfAbsent(name, Sep);
    LastIndexOfAbsent(name, '.');
  }
}
