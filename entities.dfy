/** The data model: the three cached entity kinds, their identities, and the values the
    template evaluator sees. Post equality (Post.cs:249-251), Layout equality
    (Layout.cs:60-62) and Fragment equality (Fragment.cs:45-47) are modelled here. */
module Entities {
  import opened Wrappers

  /** Program.OutDir. */
  const OutDir: string := "publish"

  /** System.DateOnly. */
  datatype Date = Date(year: int, month: int, day: int)

  predicate IsLeapYear(y: int) {
    (y % 4 == 0 && y % 100 != 0) || y % 400 == 0
  }

  function DaysInMonth(y: int, m: int): int
    requires 1 <= m <= 12
  {
    if m == 2 then (if IsLeapYear(y) then 29 else 28)
    else if m == 4 || m == 6 || m == 9 || m == 11 then 30
    else 31
  }

  predicate ValidDate(d: Date) {
    && 1 <= d.year <= 9999
    && 1 <= d.month <= 12
    && 1 <= d.day <= DaysInMonth(d.year, d.month)
  }

  /** The dates a DateOnly can hold. */
  type CalendarDate = d: Date | ValidDate(d) witness Date(1, 1, 1)

  /** new DateOnly(year, month, day): out-of-range components throw. */
  function MakeDate(year: int, month: int, day: int): (r: Result<Date>)
    ensures r.Ok? <==> ValidDate(Date(year, month, day))
    ensures r.Ok? ==> r.value == Date(year, month, day)
    ensures r.Err? ==> r.error == DateOutOfRange
  {
    var d := Date(year, month, day);
    if ValidDate(d) then Ok(d) else Err(DateOutOfRange)
  }

  /** The identity of a post: its title and creation date. */
  datatype PostKey = PostKey(title: string, createdAt: Date)

  /** A post. `outputPath` is None when the source leaves OutputPath null (a post file
      without front matter whose name carries no date). */
  datatype Post = Post(
    layout: string,
    title: string,
    content: string,
    createdAt: Date,
    updatedAt: Option<Date>,
    outputPath: Option<string>,
    staticPath: Option<string>,
    inputPath: string)
  {
    function Key(): PostKey {
      PostKey(title, createdAt)
    }
  }

  /** A layout; its identity is `name`, which never changes after construction. */
  datatype Layout = Layout(name: string, content: string, fragmentDependencies: set<string>)

  /** A fragment; its identity is `name`. */
  datatype Fragment = Fragment(name: string, content: string)

  /** The fields of a post that front matter can supply and that ReadPost keeps; the
      others (title, dates, paths, content) are overwritten from the path and body. */
  datatype Metadata = Metadata(layout: Option<string>, updatedAt: Option<Date>, staticPath: Option<string>)

  const NoMetadata := Metadata(None, None, None)

  /** A regular-expression match: position, length and the values of groups 1 and 2
      (an unmatched group has the empty value). */
  datatype Match = Match(index: nat, length: nat, group1: string, group2: string) {
    function End(): nat {
      index + length
    }
  }

  /** The globals record handed to the script evaluator (Post.cs:257-264). */
  datatype Globals = Globals(
    content: string,
    posts: map<PostKey, Post>,
    post: Post,
    layouts: map<string, Layout>,
    layout: Option<Layout>,
    props: Option<map<string, string>>)

  /** A value passed as `object?` to an Equals(object) override. */
  datatype Obj = NullObj | PostObj(post: Post) | LayoutObj(layout: Layout) | FragmentObj(fragment: Fragment) | OtherObj

  // ---------------------------------------------------------------- Post equality

  /** Post.Equals(Post? other) as written: the pattern variable `post` is `other` itself,
      so the comparison is between `other` and `other`, and `self` plays no part. */
  function PostEqualsAsWritten(self: Post, other: Option<Post>): (r: bool)
    ensures r <==> other.Some?
  {
    match other
    case None => false
    case Some(post) => post.title == other.value.title && post.createdAt == other.value.createdAt
  }

  /** Any two posts compare equal under the as-written Equals, whatever their titles. */
  lemma PostEqualsAsWrittenIgnoresIdentity()
    ensures var a := Post("default", "a", "", Date(2024, 1, 1), None, None, None, "posts/a.md");
            var b := Post("default", "b", "", Date(2024, 1, 2), None, None, None, "posts/b.md");
            a.Key() != b.Key() && PostEqualsAsWritten(a, Some(b))
  {
  }

  /** Post.Equals(Post?) as evidently intended: equal title and creation date. */
  function PostEquals(self: Post, other: Option<Post>): (r: bool)
    ensures r <==> other.Some? && other.value.Key() == self.Key()
  {
    other.Some? && other.value.title == self.title && other.value.createdAt == self.createdAt
  }

  /** Post.Equals(object?) as written: a post argument goes to the typed Equals as written,
      so any post compares equal. */
  function PostEqualsObjectAsWritten(self: Post, obj: Obj): (r: bool)
    ensures r <==> obj.PostObj?
  {
    obj.PostObj? && PostEqualsAsWritten(self, Some(obj.post))
  }

  /** Post.Equals(object?) with the corrected typed Equals: a post compares like it, anything
      else is unequal. */
  function PostEqualsObject(self: Post, obj: Obj): (r: bool)
    ensures r <==> obj.PostObj? && obj.post.Key() == self.Key()
  {
    obj.PostObj? && PostEquals(self, Some(obj.post))
  }

  /** The intended post equality is an equivalence that ignores every field but the key. */
  lemma PostEqualsIsKeyEquivalence(a: Post, b: Post, c: Post)
    ensures PostEquals(a, Some(a))
    ensures PostEquals(a, Some(b)) == PostEquals(b, Some(a))
    ensures PostEquals(a, Some(b)) && PostEquals(b, Some(c)) ==> PostEquals(a, Some(c))
    ensures PostEquals(a, Some(b)) <==> a.Key() == b.Key()
  {
  }

  // -------------------------------------------------------------- Layout equality

  /** Layout.Equals(Layout?): same name. */
  function LayoutEquals(self: Layout, other: Option<Layout>): (r: bool)
    ensures r <==> other.Some? && other.value.name == self.name
  {
    other != None && other.value.name == self.name
  }

  /** Layout.Equals(object?): only a layout of the same name is equal. */
  function LayoutEqualsObject(self: Layout, obj: Obj): (r: bool)
    ensures r <==> obj.LayoutObj? && obj.layout.name == self.name
  {
    obj.LayoutObj? && LayoutEquals(self, Some(obj.layout))
  }

  // ------------------------------------------------------------ Fragment equality

  /** Fragment.Equals(Fragment?): same name. This is the equality HashSet<Fragment> uses. */
  function FragmentEquals(self: Fragment, other: Option<Fragment>): (r: bool)
    ensures r <==> other.Some? && other.value.name == self.name
  {
    other != None && other.value.name == self.name
  }

  /** Fragment.Equals(object?) as written: it tests `obj is Layout`, so a fragment is never
      equal to any fragment, and for a layout `Equals(fragment)` binds to Equals(object?)
      again (a Layout is not a Fragment), which recurses without end. */
  function FragmentEqualsObjectAsWritten(self: Fragment, obj: Obj): (r: Result<bool>)
    ensures r.Err? <==> obj.LayoutObj?
    ensures r.Ok? ==> !r.value
  {
    match obj
    case LayoutObj(_) => Err(StackOverflow)
    case _ => Ok(false)
  }

  /** The as-written override is not reflexive and does not terminate on a layout. */
  lemma FragmentEqualsObjectAsWrittenIsBroken(f: Fragment, l: Layout)
    ensures FragmentEqualsObjectAsWritten(f, FragmentObj(f)) == Ok(false)
    ensures FragmentEquals(f, Some(f))
    ensures FragmentEqualsObjectAsWritten(f, LayoutObj(l)) == Err(StackOverflow)
  {
  }

  /** Fragment.Equals(object?) as evidently intended: a fragment of the same name. */
  function FragmentEqualsObject(self: Fragment, obj: Obj): (r: bool)
    ensures r <==> obj.FragmentObj? && FragmentEquals(self, Some(obj.fragment))
  {
    match obj
    case FragmentObj(other) => FragmentEquals(self, Some(other))
    case _ => false
  }

  /** The corrected override agrees with the typed Equals, so it is reflexive, symmetric
      and depends on the name only. */
  lemma FragmentEqualsObjectConsistent(a: Fragment, b: Fragment)
    ensures FragmentEqualsObject(a, FragmentObj(a))
    ensures FragmentEqualsObject(a, FragmentObj(b)) == FragmentEqualsObject(b, FragmentObj(a))
    ensures FragmentEqualsObject(a, FragmentObj(b)) <==> a.name == b.name
    ensures forall l: Layout :: !FragmentEqualsObject(a, LayoutObj(l))
  {
  }
}
