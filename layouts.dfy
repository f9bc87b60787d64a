/** Layout.cs: ReadLayout and HandleLayoutChange. A layout's fragment dependencies are the
    names of the fragment tokens in its text; changing a layout updates the cached one in
    place and re-handles every cached post that uses it. */
module Layouts {
  import opened Wrappers
  import opened Paths
  import opened Entities
  import opened FileSystem
  import opened Foreign
  import opened Caches
  import opened Posts

  // -------------------------------------------------------------------- ReadLayout

  /** The group-1 values (fragment names) of a list of FragmentRegex matches. */
  function FragmentNames(ms: seq<Match>): set<string> {
    set i | 0 <= i < |ms| :: ms[i].group1
  }

  /** Adding one more match adds its name and nothing else. */
  lemma FragmentNamesSnoc(ms: seq<Match>, m: Match)
    ensures FragmentNames(ms + [m]) == FragmentNames(ms) + {m.group1}
  {
    var ms' := ms + [m];
    forall n | n in FragmentNames(ms')
      ensures n in FragmentNames(ms) + {m.group1}
    {
      var i :| 0 <= i < |ms'| && ms'[i].group1 == n;
      if i < |ms| {
        assert ms[i] == ms'[i];
      }
    }
    forall n | n in FragmentNames(ms) + {m.group1}
      ensures n in FragmentNames(ms')
    {
      if n == m.group1 {
        assert ms'[|ms|].group1 == n;
      } else {
        var i :| 0 <= i < |ms| && ms[i].group1 == n;
        assert ms'[i].group1 == n;
      }
    }
  }

  /** Duplicate tokens collapse: a layout never depends on more fragments than it has
      tokens, and a token-free layout depends on none. */
  lemma {:induction false} FragmentNamesBound(ms: seq<Match>)
    ensures |FragmentNames(ms)| <= |ms|
    ensures ms == [] ==> FragmentNames(ms) == {}
  {
    if ms != [] {
      var init := ms[..|ms| - 1];
      assert ms == init + [ms[|ms| - 1]];
      FragmentNamesBound(init);
      FragmentNamesSnoc(init, ms[|ms| - 1]);
    }
  }

  /** Program.ReadLayout: the name is the file name without extension, the content the
      whole file, and the dependencies are collected match by match into a set. */
  method ReadLayout(env: Env, fs: Fs, fullPath: string) returns (r: Result<Layout>)
    ensures ReadAllText(fs, fullPath).Err? ==> r == Err(ReadAllText(fs, fullPath).error)
    ensures ReadAllText(fs, fullPath).Ok? ==>
      var content := fs.files[fullPath];
      r == Ok(Layout(FileNameWithoutExtension(fullPath), content, FragmentNames(env.fragmentMatches(content))))
  {
    var read := ReadAllText(fs, fullPath);
    if read.Err? {
      return Err(read.error);
    }
    var content := read.value;
    var fragDeps := CollectFragmentNames(env.fragmentMatches(content));
    r := Ok(Layout(FileNameWithoutExtension(fullPath), content, fragDeps));
  }

  /** The loop of ReadLayout: each match's fragment name is added to the set. */
  method CollectFragmentNames(ms: seq<Match>) returns (fragDeps: set<string>)
    ensures fragDeps == FragmentNames(ms)
  {
    fragDeps := {};
    for i := 0 to |ms|
      invariant fragDeps == FragmentNames(ms[..i])
    {
      FragmentNamesSnoc(ms[..i], ms[i]);
      assert ms[..i + 1] == ms[..i] + [ms[i]];
      fragDeps := fragDeps + {ms[i].group1};
    }
    assert ms[..|ms|] == ms;
  }

  // ------------------------------------------------------------- the layout cache

  /** The cache update of HandleLayoutChange: a cached layout of the same name has its
      content and dependencies overwritten; an unknown name is added. */
  function LayoutUpsert(layouts: map<string, Layout>, layout: Layout): (r: map<string, Layout>)
    ensures r.Keys == layouts.Keys + {layout.name}
    ensures forall n :: n in layouts && n != layout.name ==> r[n] == layouts[n]
    ensures r[layout.name].content == layout.content
    ensures r[layout.name].fragmentDependencies == layout.fragmentDependencies
  {
    var n := layout.name;
    if n in layouts then
      layouts[n := layouts[n].(content := layout.content, fragmentDependencies := layout.fragmentDependencies)]
    else
      layouts[n := layout]
  }

  /** In a cache keyed by name the update is a replacement, never a merge: the entry is
      the new layout, the cache stays keyed, exactly one layout carries the name, and
      re-handling the cached layout changes nothing. */
  lemma LayoutUpsertReplaces(layouts: map<string, Layout>, layout: Layout)
    requires LayoutsKeyed(layouts)
    ensures LayoutUpsert(layouts, layout) == layouts[layout.name := layout]
    ensures LayoutsKeyed(LayoutUpsert(layouts, layout))
    ensures forall n :: n in LayoutUpsert(layouts, layout) && LayoutUpsert(layouts, layout)[n].name == layout.name ==> n == layout.name
    ensures layout.name in layouts && layouts[layout.name] == layout ==> LayoutUpsert(layouts, layout) == layouts
  {
    var n := layout.name;
    if n in layouts {
      assert layouts[n].name == n;
      assert layouts[n].(content := layout.content, fragmentDependencies := layout.fragmentDependencies) == layout;
    }
  }

  // ----------------------------------------------------------------- post fan-out

  /** The cached posts whose layout is `name`: `Posts.Where(x => x.Layout == name)`. */
  function PostsUsing(posts: map<PostKey, Post>, name: string): (r: set<PostKey>)
    ensures r <= posts.Keys
    ensures forall k :: k in posts ==> (k in r <==> posts[k].layout == name)
  {
    set k | k in posts && posts[k].layout == name
  }

  /** Handling a post whose layout is not cached always fails. */
  lemma PostChangeNeedsLayout(env: Env, posts: map<PostKey, Post>, layouts: map<string, Layout>,
                              fragments: map<string, Fragment>, fs: Fs, post: Post)
    requires ValidEnv(env)
    requires post.layout !in layouts
    ensures PostChange(env, posts, layouts, fragments, fs, post).outcome.Failed?
  {
  }

  /** `f` is the output path of none of the cached posts `keys`. */
  ghost predicate NoOutputAt(posts: map<PostKey, Post>, keys: set<PostKey>, f: string) {
    forall k :: k in keys && k in posts ==> posts[k].outputPath != Some(f)
  }

  /** `fs1` differs from `fs0` only at the outputs of the posts `keys`: every other file of
      `fs0` is in `fs1` with the same text, and `fs1` has no other new file. */
  ghost predicate ChangedOnlyAt(fs0: Fs, fs1: Fs, posts: map<PostKey, Post>, keys: set<PostKey>) {
    && (forall f :: f in fs0.files && NoOutputAt(posts, keys, f) ==> f in fs1.files && fs1.files[f] == fs0.files[f])
    && (forall f :: f in fs1.files && NoOutputAt(posts, keys, f) ==> f in fs0.files)
  }

  /** Handling the cached post `k` again touches no file but its output. */
  lemma PostChangeKeeps(env: Env, posts: map<PostKey, Post>, layouts: map<string, Layout>,
                        fragments: map<string, Fragment>, fs: Fs, k: PostKey)
    requires ValidEnv(env) && PostsKeyed(posts) && k in posts
    ensures ChangedOnlyAt(fs, PostChange(env, posts, layouts, fragments, fs, posts[k]).fs, posts, {k})
  {
    var post := posts[k];
    var r := PostChange(env, posts, layouts, fragments, fs, post);
    assert post.Key() == k;
    forall f | f in fs.files && NoOutputAt(posts, {k}, f)
      ensures f in r.fs.files && r.fs.files[f] == fs.files[f]
    {
      PostChangeFrame(env, posts, layouts, fragments, fs, post, f);
    }
    PostChangeAddsOnlyOutput(env, posts, layouts, fragments, fs, post);
    forall f | f in r.fs.files && NoOutputAt(posts, {k}, f)
      ensures f in fs.files
    {
      assert f in r.fs.files.Keys;
    }
  }

  /** Two steps that each keep the files outside their posts' outputs keep the files
      outside the outputs of both. */
  lemma ChangedOnlyAtTrans(fs0: Fs, fs1: Fs, fs2: Fs, posts: map<PostKey, Post>, a: set<PostKey>, b: set<PostKey>)
    requires ChangedOnlyAt(fs0, fs1, posts, a) && ChangedOnlyAt(fs1, fs2, posts, b)
    ensures ChangedOnlyAt(fs0, fs2, posts, a + b)
  {
  }

  /** One iteration of the post loop: HandlePostChange on the cached post itself, which
      leaves the cache as it is; the result says whether it completed, and the file system
      is the one that call leaves, which differs from the old one only at the post's output. */
  method RehandlePost(s: Site, k: PostKey) returns (done: bool)
    requires s.Valid() && k in s.posts
    modifies s
    ensures s.Valid()
    ensures s.posts == old(s.posts) && s.layouts == old(s.layouts) && s.fragments == old(s.fragments)
    ensures s.handled == old(s.handled) + [k]
    ensures s.posts[k].layout !in s.layouts ==> !done
    ensures var r := PostChange(s.env, old(s.posts), s.layouts, s.fragments, old(s.fs), old(s.posts)[k]);
      s.fs == r.fs && (done <==> r.outcome.Done?)
    ensures ChangedOnlyAt(old(s.fs), s.fs, old(s.posts), {k})
  {
    PostChangeKeeps(s.env, s.posts, s.layouts, s.fragments, s.fs, k);
    var post := s.posts[k];
    assert post.Key() == k;
    PostChangeCached(s.env, s.posts, s.layouts, s.fragments, s.fs, post);
    if post.layout !in s.layouts {
      PostChangeNeedsLayout(s.env, s.posts, s.layouts, s.fragments, s.fs, post);
    }
    var outcome := HandlePostChange(s, post);
    done := outcome.Done?;
  }

  /** The post loop of HandleLayoutChange and of the layout-delete handler: every cached
      post whose layout is `name` is handled again, once each, in some order. The keys of
      the posts whose handling failed are returned. */
  method RehandlePosts(s: Site, name: string) returns (failed: set<PostKey>)
    requires s.Valid()
    modifies s
    ensures s.Valid()
    ensures s.posts == old(s.posts) && s.layouts == old(s.layouts) && s.fragments == old(s.fragments)
    ensures HandledOnce(old(s.handled), s.handled, PostsUsing(old(s.posts), name))
    ensures failed <= PostsUsing(old(s.posts), name)
    ensures name !in s.layouts ==> failed == PostsUsing(old(s.posts), name)
    ensures ChangedOnlyAt(old(s.fs), s.fs, old(s.posts), PostsUsing(old(s.posts), name))
  {
    ghost var h0, p0, l0, f0, fs0 := s.handled, s.posts, s.layouts, s.fragments, s.fs;
    var todo := PostsUsing(s.posts, name);
    ghost var users := todo;
    ghost var rehandled: seq<PostKey> := [];
    failed := {};
    while todo != {}
      invariant s.Valid()
      invariant s.posts == p0 && s.layouts == l0 && s.fragments == f0
      invariant s.handled == h0 + rehandled
      invariant NoDup(rehandled) && todo !! Elems(rehandled)
      invariant todo + Elems(rehandled) == users
      invariant failed <= Elems(rehandled)
      invariant name !in l0 ==> failed == Elems(rehandled)
      invariant ChangedOnlyAt(fs0, s.fs, p0, Elems(rehandled))
      decreases |todo|
    {
      var k :| k in todo;
      ghost var fsBefore := s.fs;
      var done := RehandlePost(s, k);
      ChangedOnlyAtTrans(fs0, fsBefore, s.fs, p0, Elems(rehandled), {k});
      if !done {
        failed := failed + {k};
      }
      TakeOne(rehandled, todo, k);
      LogAppend(h0, rehandled, [k]);
      rehandled := rehandled + [k];
      todo := todo - {k};
    }
    assert s.handled[..|h0|] == h0;
    assert s.handled[|h0|..] == rehandled;
  }

  /** The bookkeeping of one step of a work-list loop: moving `k` from the pending set to
      the log keeps the log free of repetitions and the two together unchanged. */
  lemma TakeOne<T>(log: seq<T>, todo: set<T>, k: T)
    requires NoDup(log) && todo !! Elems(log) && k in todo
    ensures NoDup(log + [k]) && Elems(log + [k]) == Elems(log) + {k}
    ensures (todo - {k}) !! Elems(log + [k])
    ensures (todo - {k}) + Elems(log + [k]) == todo + Elems(log)
  {
    NoDupAppend(log, [k]);
  }

  /** Program.HandleLayoutChange: update the cache, then re-handle exactly the cached
      posts that use the layout. */
  method HandleLayoutChange(s: Site, layout: Layout) returns (failed: set<PostKey>)
    requires s.Valid()
    modifies s
    ensures s.Valid()
    ensures s.layouts == LayoutUpsert(old(s.layouts), layout)
    ensures s.posts == old(s.posts) && s.fragments == old(s.fragments)
    ensures HandledOnce(old(s.handled), s.handled, PostsUsing(old(s.posts), layout.name))
    ensures failed <= PostsUsing(old(s.posts), layout.name)
    ensures ChangedOnlyAt(old(s.fs), s.fs, old(s.posts), PostsUsing(old(s.posts), layout.name))
  {
    LayoutUpsertReplaces(s.layouts, layout);
    var n := layout.name;
    if n in s.layouts {
      var oldLayout := s.layouts[n];
      s.layouts := s.layouts[n := oldLayout.(content := layout.content, fragmentDependencies := layout.fragmentDependencies)];
    } else {
      s.layouts := s.layouts[n := layout];
    }
    failed := RehandlePosts(s, n);
  }
}
