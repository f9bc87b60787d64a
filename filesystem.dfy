/** The file system as a value: file contents by path and the set of existing directories.
    File.Exists, File.Delete, File.WriteAllText, File.Copy, File.Move,
    Directory.CreateDirectory and Directory.Delete are functions on it. */
module FileSystem {
  import opened Wrappers
  import opened Paths

  datatype Fs = Fs(files: map<string, string>, dirs: set<string>)

  /** `p` is a directory entry of `dir`. */
  predicate InDir(p: string, dir: string) {
    DirectoryName(p) == Some(dir)
  }

  /** `dir` holds no file and no sub-directory. */
  predicate IsEmptyDir(fs: Fs, dir: string) {
    && (forall f :: f in fs.files ==> !InDir(f, dir))
    && (forall d :: d in fs.dirs ==> !InDir(d, dir))
  }

  /** The directory a file at `p` would be created in exists ("" is the working directory). */
  predicate ParentExists(fs: Fs, p: string) {
    match DirectoryName(p)
    case None => false
    case Some(d) => d == "" || d in fs.dirs
  }

  /** Directory.CreateDirectory(d) for a non-empty `d`: `d` and its ancestors exist
      afterwards, no other directory appears, and no file changes. */
  function CreateDirectory(fs: Fs, d: string): (r: Fs)
    requires d != ""
    ensures r.files == fs.files
    ensures d in r.dirs && fs.dirs <= r.dirs
    ensures DirChain(d) <= r.dirs && r.dirs - fs.dirs <= DirChain(d)
  {
    fs.(dirs := fs.dirs + DirChain(d))
  }

  /** `if (File.Exists(p)) File.Delete(p)`, where a null path never exists. */
  function DeleteFileIfExists(fs: Fs, p: Option<string>): (r: Fs)
    ensures r.dirs == fs.dirs
    ensures p.Some? ==> r.files == fs.files - {p.value}
    ensures p.None? ==> r == fs
  {
    if p.Some? && p.value in fs.files then fs.(files := fs.files - {p.value}) else fs
  }

  /** File.WriteAllText(p, text): fails on the empty path, on a root or directory, and when
      the parent directory is missing; otherwise the file holds exactly `text`. */
  function WriteAllText(fs: Fs, p: string, text: string): (r: Result<Fs>)
    ensures r.Ok? <==> p != "" && p !in fs.dirs && ParentExists(fs, p)
    ensures r.Ok? ==> r.value == fs.(files := fs.files[p := text])
  {
    if p == "" then Err(ArgumentEmpty)
    else if p in fs.dirs then Err(TargetIsDirectory)
    else match DirectoryName(p)
      case None => Err(TargetIsDirectory)
      case Some(d) => if d != "" && d !in fs.dirs then Err(DirectoryNotFound) else Ok(fs.(files := fs.files[p := text]))
  }

  /** File.ReadAllText(p). */
  function ReadAllText(fs: Fs, p: string): (r: Result<string>)
    ensures r.Ok? <==> p in fs.files && p !in fs.dirs && p != "" && ParentExists(fs, p)
    ensures r.Ok? ==> r.value == fs.files[p]
  {
    if p == "" then Err(ArgumentEmpty)
    else if p in fs.dirs then Err(TargetIsDirectory)
    else if !ParentExists(fs, p) then Err(DirectoryNotFound)
    else if p !in fs.files then Err(FileNotFound)
    else Ok(fs.files[p])
  }

  /** File.Delete(p): deleting a missing file is not an error, a missing directory is. */
  function DeleteFile(fs: Fs, p: string): (r: Result<Fs>)
    ensures r.Ok? ==> r.value.dirs == fs.dirs && r.value.files == fs.files - {p}
  {
    if p == "" then Err(ArgumentEmpty)
    else if p in fs.dirs then Err(TargetIsDirectory)
    else if !ParentExists(fs, p) then Err(DirectoryNotFound)
    else Ok(fs.(files := fs.files - {p}))
  }

  /** File.Copy(src, dst, overwrite). */
  function CopyFile(fs: Fs, src: string, dst: string, overwrite: bool): (r: Result<Fs>)
    ensures r.Ok? ==> src in fs.files && r.value == fs.(files := fs.files[dst := fs.files[src]])
    ensures src !in fs.files ==> r.Err?
    ensures !overwrite && dst in fs.files ==> r.Err?
  {
    if src == "" || dst == "" then Err(ArgumentEmpty)
    else if src !in fs.files then Err(FileNotFound)
    else if dst in fs.dirs then Err(TargetIsDirectory)
    else if !ParentExists(fs, dst) then Err(DirectoryNotFound)
    else if !overwrite && dst in fs.files then Err(FileExists)
    else Ok(fs.(files := fs.files[dst := fs.files[src]]))
  }

  /** File.Move(src, dst, overwrite): it fails where File.Copy would; otherwise the text
      moves from `src` to `dst`, and no other file or directory changes. */
  function MoveFile(fs: Fs, src: string, dst: string, overwrite: bool): (r: Result<Fs>)
    ensures r.Err? <==> CopyFile(fs, src, dst, overwrite).Err?
    ensures r.Ok? ==> src in fs.files && dst in r.value.files && r.value.files[dst] == fs.files[src]
    ensures r.Ok? && src != dst ==> src !in r.value.files
    ensures r.Ok? ==> r.value == fs.(files := (fs.files - {src})[dst := fs.files[src]])
  {
    match CopyFile(fs, src, dst, overwrite)
    case Err(e) => Err(e)
    case Ok(copied) =>
      if src == dst then
        assert (fs.files - {src})[dst := fs.files[src]] == fs.files;
        Ok(copied)
      else Ok(copied.(files := copied.files - {src}))
  }
}
