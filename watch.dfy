/** Watch.cs: the file-system event handlers of watch mode, the mapping of asset events
    onto the output directory, and the DisposableBag that owns the watchers. Debouncing
    and event delivery are not modelled; each handler is a method run on one event. */
module Watch {
  import opened Wrappers
  import opened Text
  import opened Paths
  import opened Entities
  import opened FileSystem
  import opened Foreign
  import opened Caches
  import opened Posts
  import opened Layouts
  import opened Fragments

  /** WatcherChangeTypes. */
  datatype ChangeKind = Created | Deleted | Changed | Renamed

  // ------------------------------------------------------------------ RemoveWhere

  /** `Posts.RemoveWhere(post => post.OutputPath == out)`; two null paths are equal. */
  function PostsNotAt(posts: map<PostKey, Post>, out: Option<string>): (r: map<PostKey, Post>)
    ensures forall k :: k in r <==> k in posts && posts[k].outputPath != out
    ensures forall k :: k in r ==> r[k] == posts[k]
  {
    map k | k in posts && posts[k].outputPath != out :: posts[k]
  }

  /** Removing posts keeps every remaining one under its own identity. */
  lemma PostsNotAtKeyed(posts: map<PostKey, Post>, out: Option<string>)
    requires PostsKeyed(posts)
    ensures PostsKeyed(PostsNotAt(posts, out))
  {
  }

  /** `Fragments.RemoveWhere(x => x.Name == name)`. */
  function FragmentsNotNamed(fragments: map<string, Fragment>, name: string): (r: map<string, Fragment>)
    ensures forall n :: n in r <==> n in fragments && fragments[n].name != name
    ensures forall n :: n in r ==> r[n] == fragments[n]
  {
    map n | n in fragments && fragments[n].name != name :: fragments[n]
  }

  /** `Layouts.RemoveWhere(x => x.Name == name)`. */
  function LayoutsNotNamed(layouts: map<string, Layout>, name: string): (r: map<string, Layout>)
    ensures forall n :: n in r <==> n in layouts && layouts[n].name != name
    ensures forall n :: n in r ==> r[n] == layouts[n]
  {
    map n | n in layouts && layouts[n].name != name :: layouts[n]
  }

  /** In caches keyed by name, removing by name removes exactly that one key. */
  lemma RemoveByName(fragments: map<string, Fragment>, layouts: map<string, Layout>, name: string)
    requires FragmentsKeyed(fragments) && LayoutsKeyed(layouts)
    ensures FragmentsNotNamed(fragments, name) == fragments - {name}
    ensures LayoutsNotNamed(layouts, name) == layouts - {name}
  {
    assert FragmentsNotNamed(fragments, name).Keys == (fragments - {name}).Keys;
    assert LayoutsNotNamed(layouts, name).Keys == (layouts - {name}).Keys;
  }

  /** The path computed from an undated file name is null, so renaming or deleting such a
      file removes every cached post without an output path, and leaves a post that got its
      output path from `staticPath` metadata in the cache. */
  lemma UndatedRemoval(env: Env, posts: map<PostKey, Post>, fullPath: string)
    requires |Split(FileNameWithoutExtension(fullPath), '-')| < 4
    ensures ParsePostPath(env, fullPath).Ok?
    ensures var removed := PostsNotAt(posts, ParsePostPath(env, fullPath).value.outputPath);
      && (forall k :: k in posts && posts[k].outputPath.Some? ==> k in removed)
      && (forall k :: k in removed ==> removed[k].outputPath.Some?)
  {
    assert ParsePostPath(env, fullPath).value.outputPath == None;
  }

  // ----------------------------------------------------------------- post events

  /** The Changed subscription of the posts watcher: anything but a change is ignored; the
      file is read and handled. A read that throws ends the handler with nothing changed. */
  method PostChanged(s: Site, kind: ChangeKind, fullPath: string) returns (outcome: Outcome)
    requires s.Valid()
    modifies s
    ensures s.Valid()
    ensures s.layouts == old(s.layouts) && s.fragments == old(s.fragments)
    ensures kind != Changed ==> outcome == Done && s.posts == old(s.posts) && s.fs == old(s.fs) && s.handled == old(s.handled)
    ensures kind == Changed && ReadPost(s.env, old(s.fs), fullPath).Err? ==>
      && outcome == Failed(ReadPost(s.env, old(s.fs), fullPath).error)
      && s.posts == old(s.posts) && s.fs == old(s.fs) && s.handled == old(s.handled)
    ensures kind == Changed && ReadPost(s.env, old(s.fs), fullPath).Ok? ==>
      var post := ReadPost(s.env, old(s.fs), fullPath).value;
      && s.handled == old(s.handled) + [post.Key()]
      && PostChangeResult(s.posts, s.fs, outcome) == PostChange(s.env, old(s.posts), s.layouts, s.fragments, old(s.fs), post)
  {
    if kind != Changed {
      return Done;
    }
    var read := ReadPost(s.env, s.fs, fullPath);
    if read.Err? {
      return Failed(read.error);
    }
    outcome := HandlePostChange(s, read.value);
  }

  /** The part the rename and delete subscriptions share: compute the output path the
      (old) file name maps to, drop every cached post writing there and delete that file. */
  method ForgetPostAt(s: Site, fullPath: string) returns (outcome: Outcome)
    requires s.Valid()
    modifies s
    ensures s.Valid()
    ensures s.layouts == old(s.layouts) && s.fragments == old(s.fragments) && s.handled == old(s.handled)
    ensures ParsePostPath(s.env, fullPath).Err? ==>
      outcome == Failed(ParsePostPath(s.env, fullPath).error) && s.posts == old(s.posts) && s.fs == old(s.fs)
    ensures ParsePostPath(s.env, fullPath).Ok? ==>
      var out := ParsePostPath(s.env, fullPath).value.outputPath;
      outcome == Done && s.posts == PostsNotAt(old(s.posts), out) && s.fs == DeleteFileIfExists(old(s.fs), out)
  {
    var info := ParsePostPath(s.env, fullPath);
    if info.Err? {
      return Failed(info.error);
    }
    RemovePostsAt(s, info.value.outputPath);
    outcome := Done;
  }

  /** `Posts.RemoveWhere(post => post.OutputPath == out)` followed by
      `if (File.Exists(out)) File.Delete(out)`. */
  method RemovePostsAt(s: Site, out: Option<string>)
    requires s.Valid()
    modifies s
    ensures s.Valid()
    ensures s.layouts == old(s.layouts) && s.fragments == old(s.fragments) && s.handled == old(s.handled)
    ensures s.posts == PostsNotAt(old(s.posts), out) && s.fs == DeleteFileIfExists(old(s.fs), out)
  {
    PostsNotAtKeyed(s.posts, out);
    s.posts := PostsNotAt(s.posts, out);
    s.fs := DeleteFileIfExists(s.fs, out);
  }

  /** The Renamed subscription of the posts watcher: forget the post at the old file's
      output path, then read the file under its new name and handle it. */
  method PostRenamed(s: Site, oldFullPath: string, fullPath: string) returns (outcome: Outcome)
    requires s.Valid()
    modifies s
    ensures s.Valid()
    ensures s.layouts == old(s.layouts) && s.fragments == old(s.fragments)
    ensures ParsePostPath(s.env, oldFullPath).Err? ==>
      && outcome == Failed(ParsePostPath(s.env, oldFullPath).error)
      && s.posts == old(s.posts) && s.fs == old(s.fs) && s.handled == old(s.handled)
    ensures ParsePostPath(s.env, oldFullPath).Ok? ==>
      var out := ParsePostPath(s.env, oldFullPath).value.outputPath;
      var posts := PostsNotAt(old(s.posts), out);
      var fs := DeleteFileIfExists(old(s.fs), out);
      match ReadPost(s.env, fs, fullPath)
      case Err(e) => outcome == Failed(e) && s.posts == posts && s.fs == fs && s.handled == old(s.handled)
      case Ok(post) =>
        && s.handled == old(s.handled) + [post.Key()]
        && PostChangeResult(s.posts, s.fs, outcome) == PostChange(s.env, posts, s.layouts, s.fragments, fs, post)
  {
    outcome := ForgetPostAt(s, oldFullPath);
    if outcome.Failed? {
      return;
    }
    var read := ReadPost(s.env, s.fs, fullPath);
    if read.Err? {
      return Failed(read.error);
    }
    outcome := HandlePostChange(s, read.value);
  }

  /** The Deleted subscription of the posts watcher: forget the post at the deleted file's
      output path. Nothing is handled again and no directory is pruned. */
  method PostDeleted(s: Site, fullPath: string) returns (outcome: Outcome)
    requires s.Valid()
    modifies s
    ensures s.Valid()
    ensures s.layouts == old(s.layouts) && s.fragments == old(s.fragments) && s.handled == old(s.handled)
    ensures s.fs.dirs == old(s.fs.dirs)
    ensures ParsePostPath(s.env, fullPath).Err? ==>
      outcome == Failed(ParsePostPath(s.env, fullPath).error) && s.posts == old(s.posts) && s.fs == old(s.fs)
    ensures ParsePostPath(s.env, fullPath).Ok? ==>
      var out := ParsePostPath(s.env, fullPath).value.outputPath;
      && outcome == Done && s.posts == PostsNotAt(old(s.posts), out)
      && s.fs == DeleteFileIfExists(old(s.fs), out)
      && (out.Some? ==> s.fs.files == old(s.fs.files) - {out.value})
      && (out.None? ==> s.fs == old(s.fs))
      && (forall k :: k in s.posts ==> s.posts[k].outputPath != out)
  {
    outcome := ForgetPostAt(s, fullPath);
  }

  // ------------------------------------------------------------- fragment events

  /** The Changed subscription of the fragments watcher. */
  method FragmentChanged(s: Site, fullPath: string) returns (outcome: Outcome, failed: set<PostKey>)
    requires s.Valid()
    modifies s
    ensures s.Valid()
    ensures s.posts == old(s.posts) && s.layouts == old(s.layouts)
    ensures ReadFragment(old(s.fs), fullPath).Err? ==>
      && outcome == Failed(ReadFragment(old(s.fs), fullPath).error)
      && s.fragments == old(s.fragments) && s.handled == old(s.handled) && s.fs == old(s.fs) && failed == {}
    ensures ReadFragment(old(s.fs), fullPath).Ok? ==>
      var fragment := ReadFragment(old(s.fs), fullPath).value;
      && outcome == Done
      && s.fragments == FragmentUpsert(old(s.fragments), fragment)
      && HandledOnce(old(s.handled), s.handled, PostsOfLayouts(old(s.posts), LayoutsUsing(old(s.layouts), fragment.name)))
      && failed <= PostsOfLayouts(old(s.posts), LayoutsUsing(old(s.layouts), fragment.name))
      && ChangedOnlyAt(old(s.fs), s.fs, old(s.posts), PostsOfLayouts(old(s.posts), LayoutsUsing(old(s.layouts), fragment.name)))
  {
    var read := ReadFragment(s.fs, fullPath);
    if read.Err? {
      return Failed(read.error), {};
    }
    failed := HandleFragmentChanged(s, read.value);
    outcome := Done;
  }

  /** The Deleted subscription of the fragments watcher: remove the fragment by name, then
      handle again every layout that depends on it, and so every post using one of them. */
  method FragmentDeleted(s: Site, fullPath: string) returns (failed: set<PostKey>)
    requires s.Valid()
    modifies s
    ensures s.Valid()
    ensures s.posts == old(s.posts) && s.layouts == old(s.layouts)
    ensures s.fragments == FragmentsNotNamed(old(s.fragments), FileNameWithoutExtension(fullPath))
    ensures s.fragments == old(s.fragments) - {FileNameWithoutExtension(fullPath)}
    ensures HandledOnce(old(s.handled), s.handled,
      PostsOfLayouts(old(s.posts), LayoutsUsing(old(s.layouts), FileNameWithoutExtension(fullPath))))
    ensures failed <= PostsOfLayouts(old(s.posts), LayoutsUsing(old(s.layouts), FileNameWithoutExtension(fullPath)))
    ensures ChangedOnlyAt(old(s.fs), s.fs, old(s.posts),
      PostsOfLayouts(old(s.posts), LayoutsUsing(old(s.layouts), FileNameWithoutExtension(fullPath))))
  {
    var name := FileNameWithoutExtension(fullPath);
    failed := DropFragment(s, name);
  }

  /** Removing the fragment `name` and handling its dependents again. */
  method DropFragment(s: Site, name: string) returns (failed: set<PostKey>)
    requires s.Valid()
    modifies s
    ensures s.Valid()
    ensures s.posts == old(s.posts) && s.layouts == old(s.layouts)
    ensures s.fragments == FragmentsNotNamed(old(s.fragments), name)
    ensures s.fragments == old(s.fragments) - {name}
    ensures HandledOnce(old(s.handled), s.handled, PostsOfLayouts(old(s.posts), LayoutsUsing(old(s.layouts), name)))
    ensures failed <= PostsOfLayouts(old(s.posts), LayoutsUsing(old(s.layouts), name))
    ensures ChangedOnlyAt(old(s.fs), s.fs, old(s.posts), PostsOfLayouts(old(s.posts), LayoutsUsing(old(s.layouts), name)))
  {
    RemoveByName(s.fragments, s.layouts, name);
    s.fragments := FragmentsNotNamed(s.fragments, name);
    failed := RehandleLayouts(s, LayoutsUsing(s.layouts, name));
  }

  // --------------------------------------------------------------- layout events

  /** The Changed subscription of the layouts watcher. */
  method LayoutChanged(s: Site, fullPath: string) returns (outcome: Outcome, failed: set<PostKey>)
    requires s.Valid()
    modifies s
    ensures s.Valid()
    ensures s.posts == old(s.posts) && s.fragments == old(s.fragments)
    ensures ReadAllText(old(s.fs), fullPath).Err? ==>
      && outcome == Failed(ReadAllText(old(s.fs), fullPath).error)
      && s.layouts == old(s.layouts) && s.handled == old(s.handled) && s.fs == old(s.fs) && failed == {}
    ensures ReadAllText(old(s.fs), fullPath).Ok? ==>
      var content := old(s.fs).files[fullPath];
      var name := FileNameWithoutExtension(fullPath);
      && outcome == Done
      && s.layouts == LayoutUpsert(old(s.layouts), Layout(name, content, FragmentNames(s.env.fragmentMatches(content))))
      && HandledOnce(old(s.handled), s.handled, PostsUsing(old(s.posts), name))
      && failed <= PostsUsing(old(s.posts), name)
      && ChangedOnlyAt(old(s.fs), s.fs, old(s.posts), PostsUsing(old(s.posts), name))
  {
    var read := ReadLayout(s.env, s.fs, fullPath);
    if read.Err? {
      return Failed(read.error), {};
    }
    failed := HandleLayoutChange(s, read.value);
    outcome := Done;
  }

  /** The Deleted subscription of the layouts watcher: remove the layout by name, then
      handle again every post using it, each of which now fails. */
  method LayoutDeleted(s: Site, fullPath: string) returns (failed: set<PostKey>)
    requires s.Valid()
    modifies s
    ensures s.Valid()
    ensures s.posts == old(s.posts) && s.fragments == old(s.fragments)
    ensures s.layouts == LayoutsNotNamed(old(s.layouts), FileNameWithoutExtension(fullPath))
    ensures s.layouts == old(s.layouts) - {FileNameWithoutExtension(fullPath)}
    ensures HandledOnce(old(s.handled), s.handled, PostsUsing(old(s.posts), FileNameWithoutExtension(fullPath)))
    ensures failed == PostsUsing(old(s.posts), FileNameWithoutExtension(fullPath))
    ensures ChangedOnlyAt(old(s.fs), s.fs, old(s.posts), PostsUsing(old(s.posts), FileNameWithoutExtension(fullPath)))
  {
    var name := FileNameWithoutExtension(fullPath);
    failed := DropLayout(s, name);
  }

  /** Removing the layout `name` and handling its users again. */
  method DropLayout(s: Site, name: string) returns (failed: set<PostKey>)
    requires s.Valid()
    modifies s
    ensures s.Valid()
    ensures s.posts == old(s.posts) && s.fragments == old(s.fragments)
    ensures s.layouts == LayoutsNotNamed(old(s.layouts), name)
    ensures s.layouts == old(s.layouts) - {name}
    ensures HandledOnce(old(s.handled), s.handled, PostsUsing(old(s.posts), name))
    ensures failed == PostsUsing(old(s.posts), name)
    ensures ChangedOnlyAt(old(s.fs), s.fs, old(s.posts), PostsUsing(old(s.posts), name))
  {
    RemoveByName(s.fragments, s.layouts, name);
    s.layouts := LayoutsNotNamed(s.layouts, name);
    failed := RehandlePosts(s, name);
  }

  // --------------------------------------------------------------- asset events

  /** `Path.Combine(OutDir, full.Substring(assetPath.Length + 1))`: the path of an asset
      relative to the asset directory, placed under the output directory. */
  function AssetTarget(assetPath: string, full: string): (r: Result<string>)
    ensures r.Err? <==> |full| < |assetPath| + 1
    ensures r.Err? ==> r.error == ArgumentOutOfRange
  {
    if |full| < |assetPath| + 1 then Err(ArgumentOutOfRange) else Ok(Combine(OutDir, full[|assetPath| + 1..]))
  }

  /** An asset `assetPath/rel` lands at `OutDir/rel`. */
  lemma AssetTargetRelative(assetPath: string, rel: string)
    requires rel != "" && !IsRooted(rel)
    ensures AssetTarget(assetPath, assetPath + [Sep] + rel) == Ok(OutDir + [Sep] + rel)
  {
    assert (assetPath + [Sep] + rel)[|assetPath| + 1..] == rel;
  }

  /** The Changed subscription of the assets watcher: copy over the target. */
  function AssetChanged(fs: Fs, assetPath: string, full: string): (r: Result<Fs>)
    ensures r.Ok? ==> AssetTarget(assetPath, full).Ok? && full in fs.files
    ensures r.Ok? ==> r.value == fs.(files := fs.files[AssetTarget(assetPath, full).value := fs.files[full]])
  {
    var target :- AssetTarget(assetPath, full);
    CopyFile(fs, full, target, true)
  }

  /** The Deleted subscription of the assets watcher: delete the target. */
  function AssetDeleted(fs: Fs, assetPath: string, full: string): (r: Result<Fs>)
    ensures r.Ok? ==> AssetTarget(assetPath, full).Ok?
    ensures r.Ok? ==> r.value.dirs == fs.dirs && r.value.files == fs.files - {AssetTarget(assetPath, full).value}
  {
    var target :- AssetTarget(assetPath, full);
    DeleteFile(fs, target)
  }

  /** The Created subscription of the assets watcher: copy, refusing to overwrite. */
  function AssetCreated(fs: Fs, assetPath: string, full: string): (r: Result<Fs>)
    ensures r.Ok? ==> AssetTarget(assetPath, full).Ok? && AssetTarget(assetPath, full).value !in fs.files && full in fs.files
    ensures r.Ok? ==> r.value == fs.(files := fs.files[AssetTarget(assetPath, full).value := fs.files[full]])
    ensures AssetTarget(assetPath, full).Ok? && AssetTarget(assetPath, full).value in fs.files ==> r.Err?
  {
    var target :- AssetTarget(assetPath, full);
    CopyFile(fs, full, target, false)
  }

  /** The Renamed subscription of the assets watcher as written: the source is the target
      of the old path, but the destination cuts a fixed eight characters off the new path. */
  function AssetRenamedAsWritten(fs: Fs, assetPath: string, oldFull: string, full: string): (r: Result<Fs>)
    ensures AssetTarget(assetPath, oldFull).Ok? && |full| < 8 ==> r == Err(ArgumentOutOfRange)
    ensures r.Ok? ==> AssetTarget(assetPath, oldFull).Ok? && |full| >= 8
    ensures r.Ok? ==>
      var src := AssetTarget(assetPath, oldFull).value;
      var dst := Combine(OutDir, full[8..]);
      src in fs.files && r.value == fs.(files := (fs.files - {src})[dst := fs.files[src]])
  {
    var src :- AssetTarget(assetPath, oldFull);
    if |full| < 8 then Err(ArgumentOutOfRange) else MoveFile(fs, src, Combine(OutDir, full[8..]), true)
  }

  /** The Renamed subscription as evidently intended: the old target moves to the new
      target, computed as in the other asset handlers. */
  function AssetRenamed(fs: Fs, assetPath: string, oldFull: string, full: string): (r: Result<Fs>)
    ensures r.Ok? ==> AssetTarget(assetPath, oldFull).Ok? && AssetTarget(assetPath, full).Ok?
    ensures r.Ok? ==>
      var src := AssetTarget(assetPath, oldFull).value;
      var dst := AssetTarget(assetPath, full).value;
      src in fs.files && dst in r.value.files && r.value.files[dst] == fs.files[src]
    ensures r.Ok? ==>
      var src := AssetTarget(assetPath, oldFull).value;
      var dst := AssetTarget(assetPath, full).value;
      r.value == fs.(files := (fs.files - {src})[dst := fs.files[src]])
  {
    var src :- AssetTarget(assetPath, oldFull);
    var dst :- AssetTarget(assetPath, full);
    MoveFile(fs, src, dst, true)
  }

  /** Renaming a file within the asset directory keeps its relative path: the asset
      `assetPath/a` renamed to `assetPath/b` moves `OutDir/a` to `OutDir/b`. */
  lemma AssetRenamedRelative(fs: Fs, assetPath: string, a: string, b: string)
    requires a != "" && !IsRooted(a) && b != "" && !IsRooted(b)
    ensures AssetRenamed(fs, assetPath, assetPath + [Sep] + a, assetPath + [Sep] + b)
         == MoveFile(fs, OutDir + [Sep] + a, OutDir + [Sep] + b, true)
  {
    AssetTargetRelative(assetPath, a);
    AssetTargetRelative(assetPath, b);
  }

  /** When the asset directory's name has seven characters (so that the fixed cut of eight
      removes it and its separator), the two agree. */
  lemma AssetRenamedAgreesAtSeven(fs: Fs, assetPath: string, oldFull: string, full: string)
    requires |assetPath| == 7
    ensures AssetRenamedAsWritten(fs, assetPath, oldFull, full) == AssetRenamed(fs, assetPath, oldFull, full)
  {
  }

  /** A file name placed in the output directory. */
  lemma Published(name: string)
    requires name != "" && Sep !in name
    ensures Combine(OutDir, name) == OutDir + [Sep] + name
    ensures DirectoryName(OutDir + [Sep] + name) == Some(OutDir)
  {
    FileNameOfCombine(OutDir, name);
  }

  /** Two different names in the output directory, as paths of a file system holding that
      directory. */
  lemma PublishedPair(text: string, a: string, b: string)
    requires a != "" && Sep !in a && b != "" && Sep !in b && a != b
    ensures var src := OutDir + [Sep] + a;
      var dst := OutDir + [Sep] + b;
      var fs := Fs(map[src := text], {OutDir});
      && src != dst && src != "" && dst != "" && src in fs.files
      && dst !in fs.dirs && ParentExists(fs, dst)
  {
    Published(a);
    Published(b);
    var src := OutDir + [Sep] + a;
    var dst := OutDir + [Sep] + b;
    assert src != dst by {
      assert src[|OutDir| + 1..] == a && dst[|OutDir| + 1..] == b;
    }
    assert |dst| > |OutDir|;
  }

  /** Moving a file into the output directory, which exists, onto a free name. */
  lemma MoveWithinOutDir(text: string, a: string, b: string)
    requires a != "" && Sep !in a && b != "" && Sep !in b && a != b
    ensures var src := OutDir + [Sep] + a;
      var dst := OutDir + [Sep] + b;
      MoveFile(Fs(map[src := text], {OutDir}), src, dst, true) == Ok(Fs(map[dst := text], {OutDir}))
  {
    PublishedPair(text, a, b);
    var src := OutDir + [Sep] + a;
    var dst := OutDir + [Sep] + b;
    var fs := Fs(map[src := text], {OutDir});
    assert CopyFile(fs, src, dst, true).Ok?;
    assert (fs.files - {src})[dst := text] == map[dst := text];
  }

  /** The paths of the example below, spelled out. */
  lemma AssetExamplePaths()
    ensures "assets" + [Sep] + "a.css" == "assets/a.css"
    ensures "assets" + [Sep] + "b.css" == "assets/b.css"
    ensures OutDir + [Sep] + "a.css" == "publish/a.css"
    ensures OutDir + [Sep] + "b.css" == "publish/b.css"
    ensures OutDir + [Sep] + ".css" == "publish/.css"
    ensures "assets/b.css"[8..] == ".css"
  {
  }

  /** With an asset directory called `assets`, renaming `assets/a.css` to `assets/b.css`
      moves the output file to `publish/.css` rather than to `publish/b.css`. */
  lemma AssetRenamedAsWrittenMisplaces(text: string)
    ensures var fs := Fs(map["publish/a.css" := text], {"publish"});
      && AssetRenamedAsWritten(fs, "assets", "assets/a.css", "assets/b.css")
           == Ok(Fs(map["publish/.css" := text], {"publish"}))
      && AssetRenamed(fs, "assets", "assets/a.css", "assets/b.css")
           == Ok(Fs(map["publish/b.css" := text], {"publish"}))
  {
    AssetExamplePaths();
    AssetTargetRelative("assets", "a.css");
    AssetTargetRelative("assets", "b.css");
    Published(".css");
    MoveWithinOutDir(text, "a.css", ".css");
    MoveWithinOutDir(text, "a.css", "b.css");
  }

  // -------------------------------------------------------------- DisposableBag

  /** The four watchers Watch() creates. */
  datatype Watcher = PostsWatcher | FragmentsWatcher | LayoutsWatcher | AssetsWatcher

  /** DisposableBag: a list of disposables; `disposed` records the Dispose calls made on
      them, in order. */
  class DisposableBag<T> {
    var items: seq<T>
    var disposed: seq<T>

    constructor(disposables: seq<T>)
      ensures items == disposables && disposed == []
    {
      items := disposables;
      disposed := [];
    }

    /** AddTo appends. */
    method AddTo(d: T)
      modifies this
      ensures items == old(items) + [d] && disposed == old(disposed)
    {
      items := items + [d];
    }

    /** Dispose disposes every item once, in insertion order. */
    method Dispose()
      modifies this
      ensures items == old(items)
      ensures disposed == old(disposed) + items
    {
      for i := 0 to |items|
        invariant items == old(items)
        invariant disposed == old(disposed) + items[..i]
      {
        disposed := disposed + [items[i]];
        assert items[..i + 1] == items[..i] + [items[i]];
      }
      assert items[..|items|] == items;
    }
  }

  /** Watch(): an empty bag, then each watcher added as it is set up. */
  method WatchAll() returns (bag: DisposableBag<Watcher>)
    ensures fresh(bag)
    ensures bag.items == [PostsWatcher, FragmentsWatcher, LayoutsWatcher, AssetsWatcher]
    ensures bag.disposed == []
  {
    bag := new DisposableBag([]);
    bag.AddTo(PostsWatcher);
    bag.AddTo(FragmentsWatcher);
    bag.AddTo(LayoutsWatcher);
    bag.AddTo(AssetsWatcher);
  }
}
