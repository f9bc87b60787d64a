/** The generator's shared state: the three identity-keyed caches (the static HashSets
    Posts, Fragments and Layouts of Program.cs:17-19), the file system they write to, and
    the foreign code they call. */
module Caches {
  import opened Entities
  import opened FileSystem
  import opened Foreign

  /** Every cached post sits under its own identity (title and creation date). */
  ghost predicate PostsKeyed(posts: map<PostKey, Post>) {
    forall k :: k in posts ==> posts[k].Key() == k
  }

  /** Every cached layout sits under its own name. */
  ghost predicate LayoutsKeyed(layouts: map<string, Layout>) {
    forall n :: n in layouts ==> layouts[n].name == n
  }

  /** Every cached fragment sits under its own name. */
  ghost predicate FragmentsKeyed(fragments: map<string, Fragment>) {
    forall n :: n in fragments ==> fragments[n].name == n
  }

  /** The distinct elements of a log. */
  function Elems<T>(s: seq<T>): set<T> {
    set x | x in s
  }

  /** No entry of the log occurs twice. */
  predicate NoDup<T(==)>(s: seq<T>) {
    forall i, j :: 0 <= i < j < |s| ==> s[i] != s[j]
  }

  /** Two logs without repetitions and without common entries make one without repetitions. */
  lemma NoDupAppend<T>(a: seq<T>, b: seq<T>)
    requires NoDup(a) && NoDup(b) && Elems(a) !! Elems(b)
    ensures NoDup(a + b) && Elems(a + b) == Elems(a) + Elems(b)
  {
    forall i, j | 0 <= i < j < |a + b|
      ensures (a + b)[i] != (a + b)[j]
    {
      if i < |a| && j >= |a| {
        assert (a + b)[i] in Elems(a) && (a + b)[j] in Elems(b);
      }
    }
  }

  /** `after` extends the log `before` by handling every key of `keys` exactly once. */
  ghost predicate HandledOnce<T>(before: seq<T>, after: seq<T>, keys: set<T>) {
    && |before| <= |after| && after[..|before|] == before
    && NoDup(after[|before|..]) && Elems(after[|before|..]) == keys
  }

  /** A log that starts with `p` is `p` followed by the rest of it. */
  lemma PrefixSplit<T>(s: seq<T>, p: seq<T>)
    requires |p| <= |s| && s[..|p|] == p
    ensures s == p + s[|p|..]
  {
    assert s == s[..|p|] + s[|p|..];
  }

  lemma LogAppend<T>(a: seq<T>, b: seq<T>, c: seq<T>)
    ensures a + b + c == a + (b + c)
  {
  }

  class Site {
    /** Program.Posts: a set under post equality, so at most one post per identity. */
    var posts: map<PostKey, Post>
    /** Program.Layouts. */
    var layouts: map<string, Layout>
    /** Program.Fragments. */
    var fragments: map<string, Fragment>
    /** The working directory's files and directories. */
    var fs: Fs
    /** The identity of the post of every HandlePostChange call so far, in call order. */
    var handled: seq<PostKey>
    const env: Env

    ghost predicate Valid()
      reads this
    {
      && PostsKeyed(posts)
      && LayoutsKeyed(layouts)
      && FragmentsKeyed(fragments)
      && ValidEnv(env)
    }

    /** The caches start empty. */
    constructor (env: Env, fs: Fs)
      requires ValidEnv(env)
      ensures Valid()
      ensures this.env == env && this.fs == fs
      ensures posts == map[] && layouts == map[] && fragments == map[] && handled == []
    {
      this.env := env;
      this.fs := fs;
      posts := map[];
      layouts := map[];
      fragments := map[];
      handled := [];
    }
  }
}
