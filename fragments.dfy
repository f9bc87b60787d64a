/** Fragment.cs: ReadFragment and HandleFragmentChanged. Changing a fragment updates the
    cached one in place and handles again every cached layout that depends on it, which in
    turn handles again every post using one of those layouts. */
module Fragments {
  import opened Wrappers
  import opened Paths
  import opened Entities
  import opened FileSystem
  import opened Caches
  import opened Posts
  import opened Layouts

  // ------------------------------------------------------------------ ReadFragment

  /** Program.ReadFragment: the name is the file name without extension, the content the
      whole file; a read failure propagates. */
  function ReadFragment(fs: Fs, fullPath: string): (r: Result<Fragment>)
    ensures ReadAllText(fs, fullPath).Err? <==> r.Err?
    ensures r.Err? ==> r.error == ReadAllText(fs, fullPath).error
    ensures r.Ok? ==> fullPath in fs.files && r.value.content == fs.files[fullPath]
    ensures r.Ok? ==> r.value.name == FileNameWithoutExtension(fullPath) && Sep !in r.value.name
  {
    var content :- ReadAllText(fs, fullPath);
    Ok(Fragment(FileNameWithoutExtension(fullPath), content))
  }

  /** A fragment file `dir/name.ext` that can be read yields the fragment called `name`
      with the file's text. */
  lemma ReadFragmentNamed(fs: Fs, dir: string, name: string, ext: string)
    requires dir != "" && dir[|dir| - 1] != Sep
    requires Sep !in name && '.' !in name && Sep !in ext && '.' !in ext
    requires ReadAllText(fs, Combine(dir, name + "." + ext)).Ok?
    ensures ReadFragment(fs, Combine(dir, name + "." + ext)) == Ok(Fragment(name, fs.files[Combine(dir, name + "." + ext)]))
  {
    WithoutExtension(dir, name, ext);
  }

  // ------------------------------------------------------------ the fragment cache

  /** The cache update of HandleFragmentChanged: a cached fragment of the same name has its
      content overwritten; an unknown name is added. */
  function FragmentUpsert(fragments: map<string, Fragment>, fragment: Fragment): (r: map<string, Fragment>)
    ensures r.Keys == fragments.Keys + {fragment.name}
    ensures forall n :: n in fragments && n != fragment.name ==> r[n] == fragments[n]
    ensures r[fragment.name].content == fragment.content
  {
    var n := fragment.name;
    if n in fragments then fragments[n := fragments[n].(content := fragment.content)] else fragments[n := fragment]
  }

  /** In a cache keyed by name the update is a replacement: the entry is the new fragment,
      the cache stays keyed, and re-handling the cached fragment changes nothing. */
  lemma FragmentUpsertReplaces(fragments: map<string, Fragment>, fragment: Fragment)
    requires FragmentsKeyed(fragments)
    ensures FragmentUpsert(fragments, fragment) == fragments[fragment.name := fragment]
    ensures FragmentsKeyed(FragmentUpsert(fragments, fragment))
    ensures fragment.name in fragments && fragments[fragment.name] == fragment ==> FragmentUpsert(fragments, fragment) == fragments
  {
    var n := fragment.name;
    if n in fragments {
      assert fragments[n].name == n;
      assert fragments[n].(content := fragment.content) == fragment;
    }
  }

  // --------------------------------------------------------------- layout fan-out

  /** The cached layouts that depend on fragment `name`:
      `Layouts.Where(layout => layout.FragmentDependencies.Contains(name))`. */
  function LayoutsUsing(layouts: map<string, Layout>, name: string): (r: set<string>)
    ensures r <= layouts.Keys
    ensures forall n :: n in layouts ==> (n in r <==> name in layouts[n].fragmentDependencies)
  {
    set n | n in layouts && name in layouts[n].fragmentDependencies
  }

  /** The cached posts whose layout is one of `names`. */
  function PostsOfLayouts(posts: map<PostKey, Post>, names: set<string>): (r: set<PostKey>)
    ensures r <= posts.Keys
    ensures forall k :: k in posts ==> (k in r <==> posts[k].layout in names)
  {
    set k | k in posts && posts[k].layout in names
  }

  /** A post has a single layout, so the posts of one more layout are disjoint from those
      of the layouts already counted, and together they are the posts of both. */
  lemma PostsOfOneMore(posts: map<PostKey, Post>, names: set<string>, n: string)
    requires n !in names
    ensures PostsOfLayouts(posts, names) !! PostsUsing(posts, n)
    ensures PostsOfLayouts(posts, names) + PostsUsing(posts, n) == PostsOfLayouts(posts, names + {n})
  {
  }

  /** The bookkeeping of one layout of the fan-out: moving `n` from the pending layouts to
      the done ones and appending the block of posts handled for it to the log keeps the
      log free of repetitions and equal to the posts of the layouts done. */
  lemma AppendBlock(posts: map<PostKey, Post>, names: set<string>, todo: set<string>, done: set<string>,
                    log: seq<PostKey>, failed: set<PostKey>, n: string, block: seq<PostKey>, f: set<PostKey>)
    requires todo !! done && todo + done == names && n in todo
    requires NoDup(log) && Elems(log) == PostsOfLayouts(posts, done) && failed <= Elems(log)
    requires NoDup(block) && Elems(block) == PostsUsing(posts, n) && f <= Elems(block)
    ensures (todo - {n}) !! (done + {n}) && (todo - {n}) + (done + {n}) == names
    ensures NoDup(log + block) && Elems(log + block) == PostsOfLayouts(posts, done + {n})
    ensures failed + f <= Elems(log + block)
  {
    PostsOfOneMore(posts, done, n);
    NoDupAppend(log, block);
  }

  /** One iteration of the layout loop: HandleLayoutChange on the cached layout itself,
      which leaves every cache as it is and appends to the log one block holding each post
      of that layout once. */
  method RehandleLayout(s: Site, n: string) returns (failed: set<PostKey>)
    requires s.Valid() && n in s.layouts
    modifies s
    ensures s.Valid()
    ensures s.posts == old(s.posts) && s.layouts == old(s.layouts) && s.fragments == old(s.fragments)
    ensures HandledOnce(old(s.handled), s.handled, PostsUsing(old(s.posts), n))
    ensures s.handled == old(s.handled) + s.handled[|old(s.handled)|..]
    ensures failed <= PostsUsing(old(s.posts), n)
    ensures ChangedOnlyAt(old(s.fs), s.fs, old(s.posts), PostsUsing(old(s.posts), n))
  {
    ghost var before := s.handled;
    var layout := s.layouts[n];
    LayoutUpsertReplaces(s.layouts, layout);
    failed := HandleLayoutChange(s, layout);
    PrefixSplit(s.handled, before);
  }

  /** The layout loop of HandleFragmentChanged: every cached layout in `names` is handled
      again with itself, which leaves the layout cache as it is and handles again the posts
      using it. Every post of those layouts is handled exactly once; the keys of the posts
      whose handling failed are returned. */
  method RehandleLayouts(s: Site, names: set<string>) returns (failed: set<PostKey>)
    requires s.Valid() && names <= s.layouts.Keys
    modifies s
    ensures s.Valid()
    ensures s.posts == old(s.posts) && s.layouts == old(s.layouts) && s.fragments == old(s.fragments)
    ensures HandledOnce(old(s.handled), s.handled, PostsOfLayouts(old(s.posts), names))
    ensures failed <= PostsOfLayouts(old(s.posts), names)
    ensures ChangedOnlyAt(old(s.fs), s.fs, old(s.posts), PostsOfLayouts(old(s.posts), names))
  {
    ghost var h0, p0, l0, f0, fs0 := s.handled, s.posts, s.layouts, s.fragments, s.fs;
    var todo := names;
    ghost var done: set<string> := {};
    ghost var rehandled: seq<PostKey> := [];
    failed := {};
    while todo != {}
      invariant s.Valid()
      invariant s.posts == p0 && s.layouts == l0 && s.fragments == f0
      invariant s.handled == h0 + rehandled
      invariant todo !! done && todo + done == names
      invariant NoDup(rehandled) && Elems(rehandled) == PostsOfLayouts(p0, done)
      invariant failed <= Elems(rehandled)
      invariant ChangedOnlyAt(fs0, s.fs, p0, PostsOfLayouts(p0, done))
      decreases |todo|
    {
      var n :| n in todo;
      ghost var before, fsBefore := s.handled, s.fs;
      var f := RehandleLayout(s, n);
      ChangedOnlyAtTrans(fs0, fsBefore, s.fs, p0, PostsOfLayouts(p0, done), PostsUsing(p0, n));
      PostsOfOneMore(p0, done, n);
      ghost var block := s.handled[|before|..];
      AppendBlock(p0, names, todo, done, rehandled, failed, n, block, f);
      LogAppend(h0, rehandled, block);
      failed := failed + f;
      rehandled := rehandled + block;
      done := done + {n};
      todo := todo - {n};
    }
    assert s.handled[..|h0|] == h0;
    assert s.handled[|h0|..] == rehandled;
  }

  /** Program.HandleFragmentChanged: update the cache, then handle again the layouts that
      depend on the fragment, and through them exactly the posts using those layouts. */
  method HandleFragmentChanged(s: Site, fragment: Fragment) returns (failed: set<PostKey>)
    requires s.Valid()
    modifies s
    ensures s.Valid()
    ensures s.fragments == FragmentUpsert(old(s.fragments), fragment)
    ensures s.posts == old(s.posts) && s.layouts == old(s.layouts)
    ensures HandledOnce(old(s.handled), s.handled, PostsOfLayouts(old(s.posts), LayoutsUsing(old(s.layouts), fragment.name)))
    ensures failed <= PostsOfLayouts(old(s.posts), LayoutsUsing(old(s.layouts), fragment.name))
    ensures ChangedOnlyAt(old(s.fs), s.fs, old(s.posts), PostsOfLayouts(old(s.posts), LayoutsUsing(old(s.layouts), fragment.name)))
  {
    FragmentUpsertReplaces(s.fragments, fragment);
    var n := fragment.name;
    if n in s.fragments {
      var oldFragment := s.fragments[n];
      s.fragments := s.fragments[n := oldFragment.(content := fragment.content)];
    } else {
      s.fragments := s.fragments[n := fragment];
    }
    var users := LayoutsUsing(s.layouts, n);
    failed := RehandleLayouts(s, users);
  }
}
