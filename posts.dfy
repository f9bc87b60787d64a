/** Post.cs: ParsePostPath, ReadPost and HandlePostChange. A post file `YYYY-MM-DD-title.md`
    is published at publish/YYYY/MM/DD/title.html; a post without a date in its name needs
    a `staticPath` in its front matter. HandlePostChange updates the post cache in place,
    removes the previous output when the output path moved, renders the post through its
    layout and writes the result. */
module Posts {
  import opened Wrappers
  import opened Text
  import opened Paths
  import opened Entities
  import opened FileSystem
  import opened Foreign
  import opened Helpers
  import opened Caches

  // ----------------------------------------------------------------- ParsePostPath

  /** What ParsePostPath returns: the output path (null for an undated name), the creation
      date, the title, and whether the post needs a static path. */
  datatype PostPathInfo = PostPathInfo(outputPath: Option<string>, createdAt: Date, title: string, staticPath: bool)

  /** new DateOnly(int.Parse(parts[0]), int.Parse(parts[1]), int.Parse(parts[2])): the
      pieces are parsed in order, the first that fails gives the error, and three parsed
      numbers give the date they name or its range error. */
  function ParseDate(parts: seq<string>): (r: Result<Date>)
    requires |parts| >= 3
    ensures r.Ok? ==> ValidDate(r.value)
    ensures r.Err? ==> r.error == FormatError || r.error == Overflow || r.error == DateOutOfRange
    ensures ParseInt(parts[0]).Err? ==> r == Err(ParseInt(parts[0]).error)
    ensures ParseInt(parts[0]).Ok? && ParseInt(parts[1]).Err? ==> r == Err(ParseInt(parts[1]).error)
    ensures ParseInt(parts[0]).Ok? && ParseInt(parts[1]).Ok? && ParseInt(parts[2]).Err? ==>
      r == Err(ParseInt(parts[2]).error)
    ensures ParseInt(parts[0]).Ok? && ParseInt(parts[1]).Ok? && ParseInt(parts[2]).Ok? ==>
      r == MakeDate(ParseInt(parts[0]).value, ParseInt(parts[1]).value, ParseInt(parts[2]).value)
  {
    var y :- ParseInt(parts[0]);
    var m :- ParseInt(parts[1]);
    var d :- ParseInt(parts[2]);
    MakeDate(y, m, d)
  }

  /** Path.Combine(OutDir, year "D4", month "D2", day "D2"). */
  function DateDir(date: Date): string
    requires ValidDate(date)
  {
    Combine(Combine(Combine(OutDir, FormatD(date.year, 4)), FormatD(date.month, 2)), FormatD(date.day, 2))
  }

  /** A path whose file name ends with `suffix` ends with `suffix`. */
  lemma CombineEndsWith(dir: string, name: string, suffix: string)
    ensures EndsWith(Combine(dir, name + suffix), suffix)
  {
    var b := name + suffix;
    var r := Combine(dir, b);
    assert r[|r| - |b|..] == b;
    assert r[|r| - |suffix|..] == b[|b| - |suffix|..];
  }

  /** Program.ParsePostPath. The file name without extension is split at every '-'; with
      four or more pieces the first three are the date and the rest, joined without the
      hyphens, the output file name. Otherwise the file's creation date is used, the title
      is the whole name and there is no output path. */
  function ParsePostPath(env: Env, fullPath: string): (r: Result<PostPathInfo>)
    ensures r.Ok? ==> ValidDate(r.value.createdAt)
    ensures r.Ok? ==> (r.value.outputPath.None? <==> r.value.staticPath)
    ensures r.Ok? && r.value.outputPath.Some? ==> EndsWith(r.value.outputPath.value, ".html")
    ensures r.Err? ==> r.error == FormatError || r.error == Overflow || r.error == DateOutOfRange
    ensures |Split(FileNameWithoutExtension(fullPath), '-')| < 4 ==>
      r == Ok(PostPathInfo(None, env.creationDate(fullPath), FileNameWithoutExtension(fullPath), true))
  {
    var name := FileNameWithoutExtension(fullPath);
    var parts := Split(name, '-');
    if |parts| >= 4 then
      var date :- ParseDate(parts);
      var fileName := Concat(parts[3..]);
      CombineEndsWith(DateDir(date), fileName, ".html");
      Ok(PostPathInfo(Some(Combine(DateDir(date), fileName + ".html")), date, FileNameWithoutExtension(fileName), false))
    else
      Ok(PostPathInfo(None, env.creationDate(fullPath), name, true))
  }

  /** Joining a directory and a number: a plain separator between them, and the result
      ends in a digit. */
  lemma CombineNumber(a: string, b: string)
    requires a != "" && a[|a| - 1] != Sep
    requires AllDigits(b) && |b| >= 1
    ensures Combine(a, b) == a + "/" + b
    ensures IsDigit(Combine(a, b)[|Combine(a, b)| - 1])
  {
    assert IsDigit(b[0]) && IsDigit(b[|b| - 1]);
    var r := a + "/" + b;
    assert r[|r| - 1] == b[|b| - 1];
  }

  /** The date directory of a valid date, spelled out. */
  lemma DateDirSpelled(y: int, m: int, d: int)
    requires ValidDate(Date(y, m, d))
    ensures DateDir(Date(y, m, d)) == OutDir + "/" + FormatD(y, 4) + "/" + FormatD(m, 2) + "/" + FormatD(d, 2)
    ensures IsDigit(DateDir(Date(y, m, d))[|DateDir(Date(y, m, d))| - 1])
  {
    var ab := Combine(OutDir, FormatD(y, 4));
    CombineNumber(OutDir, FormatD(y, 4));
    var abc := Combine(ab, FormatD(m, 2));
    CombineNumber(ab, FormatD(m, 2));
    CombineNumber(abc, FormatD(d, 2));
  }

  /** The pieces of a dated post name: three zero-padded numbers and the rest. */
  function DatedParts(y: nat, m: nat, d: nat, rest: seq<string>): seq<string> {
    [FormatD(y, 4), FormatD(m, 2), FormatD(d, 2)] + rest
  }

  /** The pieces of a dated name hold no hyphen, separator or dot when the rest does not. */
  lemma DatedPartsPlain(y: nat, m: nat, d: nat, rest: seq<string>)
    requires forall i :: 0 <= i < |rest| ==> '-' !in rest[i] && Sep !in rest[i] && '.' !in rest[i]
    ensures var parts := DatedParts(y, m, d, rest);
      forall i :: 0 <= i < |parts| ==> '-' !in parts[i] && Sep !in parts[i] && '.' !in parts[i]
  {
    var parts := DatedParts(y, m, d, rest);
    forall i | 0 <= i < |parts|
      ensures '-' !in parts[i] && Sep !in parts[i] && '.' !in parts[i]
    {
      if i < 3 {
        DigitsExclude(parts[i], '-');
        DigitsExclude(parts[i], Sep);
        DigitsExclude(parts[i], '.');
      } else {
        assert parts[i] == rest[i - 3];
      }
    }
  }

  /** ParsePostPath splits `dir/p1-...-pn.ext` back into p1, ..., pn. */
  lemma NamePieces(dir: string, parts: seq<string>, ext: string)
    requires dir != "" && dir[|dir| - 1] != Sep
    requires |parts| >= 1
    requires forall i :: 0 <= i < |parts| ==> '-' !in parts[i] && Sep !in parts[i] && '.' !in parts[i]
    requires Sep !in ext && '.' !in ext
    ensures Split(FileNameWithoutExtension(Combine(dir, Join(parts, '-') + "." + ext)), '-') == parts
  {
    var name := Join(parts, '-');
    JoinExcludes(parts, '-', Sep);
    JoinExcludes(parts, '-', '.');
    WithoutExtension(dir, name, ext);
    SplitJoin(parts, '-');
  }

  /** The date pieces of a dated name parse back to the date. */
  lemma DatedPartsDate(y: nat, m: nat, d: nat, rest: seq<string>)
    requires y <= IntMax && m <= IntMax && d <= IntMax
    ensures ParseDate(DatedParts(y, m, d, rest)) == MakeDate(y, m, d)
  {
    var parts := DatedParts(y, m, d, rest);
    assert parts[0] == FormatD(y, 4) && parts[1] == FormatD(m, 2) && parts[2] == FormatD(d, 2);
    ParseFormatD(y, 4);
    ParseFormatD(m, 2);
    ParseFormatD(d, 2);
    assert ParseInt(parts[0]) == Ok(y as int);
    assert ParseInt(parts[1]) == Ok(m as int);
    assert ParseInt(parts[2]) == Ok(d as int);
  }

  /** The output path of a dated post: the rest of its name, hyphens dropped, in the date
      directory. */
  lemma DatedOutput(date: Date, rest: seq<string>)
    requires ValidDate(date)
    requires forall i :: 0 <= i < |rest| ==> Sep !in rest[i] && '.' !in rest[i]
    ensures Combine(DateDir(date), Concat(rest) + ".html") == DateDir(date) + "/" + Concat(rest) + ".html"
    ensures FileNameWithoutExtension(Concat(rest)) == Concat(rest)
  {
    var fileName := Concat(rest);
    ConcatExcludes(rest, Sep);
    ConcatExcludes(rest, '.');
    WithoutExtensionBare(fileName);
    DateDirSpelled(date.year, date.month, date.day);
    var dd := DateDir(date);
    var leaf := fileName + ".html";
    assert leaf != "" && !IsRooted(leaf) by {
      if fileName != [] {
        assert leaf[0] == fileName[0];
      }
    }
    assert dd != "" && dd[|dd| - 1] != Sep;
    assert Combine(dd, leaf) == dd + [Sep] + leaf;
    AppendAssoc(dd, [Sep], fileName, ".html");
  }

  lemma AppendAssoc(a: string, b: string, c: string, d: string)
    ensures a + b + (c + d) == a + b + c + d
  {
  }

  /** ParsePostPath on a name of four or more pieces whose first three form a date. */
  lemma ParseDatedName(env: Env, fullPath: string, date: Date)
    requires var parts := Split(FileNameWithoutExtension(fullPath), '-');
      |parts| >= 4 && ParseDate(parts) == Ok(date)
    ensures var parts := Split(FileNameWithoutExtension(fullPath), '-');
      ParsePostPath(env, fullPath) == Ok(PostPathInfo(
        Some(Combine(DateDir(date), Concat(parts[3..]) + ".html")), date,
        FileNameWithoutExtension(Concat(parts[3..])), false))
  {
  }

  /** The name pieces and the date of a dated post file name. */
  lemma DatedName(dir: string, y: nat, m: nat, d: nat, rest: seq<string>, ext: string)
    requires ValidDate(Date(y, m, d))
    requires dir != "" && dir[|dir| - 1] != Sep
    requires forall i :: 0 <= i < |rest| ==> '-' !in rest[i] && Sep !in rest[i] && '.' !in rest[i]
    requires Sep !in ext && '.' !in ext
    ensures var parts := Split(FileNameWithoutExtension(Combine(dir, Join(DatedParts(y, m, d, rest), '-') + "." + ext)), '-');
      parts == DatedParts(y, m, d, rest) && ParseDate(parts) == Ok(Date(y, m, d))
  {
    assert y <= IntMax && m <= IntMax && d <= IntMax by {
      assert DaysInMonth(y, m) <= 31;
    }
    DatedPartsDate(y, m, d, rest);
    DatedPartsPlain(y, m, d, rest);
    NamePieces(dir, DatedParts(y, m, d, rest), ext);
  }

  /** The output path and title of a dated post, spelled out. */
  lemma DatedOutputSpelled(y: nat, m: nat, d: nat, rest: seq<string>)
    requires ValidDate(Date(y, m, d))
    requires forall i :: 0 <= i < |rest| ==> Sep !in rest[i] && '.' !in rest[i]
    ensures Combine(DateDir(Date(y, m, d)), Concat(rest) + ".html") ==
      OutDir + "/" + FormatD(y, 4) + "/" + FormatD(m, 2) + "/" + FormatD(d, 2) + "/" + Concat(rest) + ".html"
    ensures FileNameWithoutExtension(Concat(rest)) == Concat(rest)
  {
    DatedOutput(Date(y, m, d), rest);
    DateDirSpelled(y, m, d);
  }

  /** A dated post name `YYYY-MM-DD-p1-...-pn.ext` is published at
      publish/YYYY/MM/DD/p1...pn.html, created on that date, titled p1...pn. */
  lemma DatedPostPath(env: Env, dir: string, y: nat, m: nat, d: nat, rest: seq<string>, ext: string)
    requires ValidDate(Date(y, m, d))
    requires dir != "" && dir[|dir| - 1] != Sep
    requires |rest| >= 1
    requires forall i :: 0 <= i < |rest| ==> '-' !in rest[i] && Sep !in rest[i] && '.' !in rest[i]
    requires Sep !in ext && '.' !in ext
    ensures ParsePostPath(env, Combine(dir, Join(DatedParts(y, m, d, rest), '-') + "." + ext)) ==
      Ok(PostPathInfo(
        Some(OutDir + "/" + FormatD(y, 4) + "/" + FormatD(m, 2) + "/" + FormatD(d, 2) + "/" + Concat(rest) + ".html"),
        Date(y, m, d), Concat(rest), false))
  {
    var parts := DatedParts(y, m, d, rest);
    var fullPath := Combine(dir, Join(parts, '-') + "." + ext);
    DatedName(dir, y, m, d, rest, ext);
    assert parts[3..] == rest;
    ParseDatedName(env, fullPath, Date(y, m, d));
    DatedOutputSpelled(y, m, d, rest);
  }

  lemma HelloWorldPieces()
    ensures FormatD(2024, 4) == "2024" && FormatD(1, 2) == "01" && FormatD(2, 2) == "02"
    ensures Concat(["hello", "world"]) == "helloworld"
  {
    assert NatToString(2024) == "2024";
    assert NatToString(1) == "1";
    assert NatToString(2) == "2";
    assert Concat(["hello", "world"][1..]) == "world";
  }

  lemma HelloWorldTitle()
    ensures Join(["02", "hello", "world"], '-') == "02-hello-world"
  {
    var parts := ["02", "hello", "world"];
    assert Join(parts[2..], '-') == "world";
    assert Join(parts[1..], '-') == "hello-world";
  }

  lemma HelloWorldName()
    ensures Join(["2024", "01", "02", "hello", "world"], '-') == "2024-01-02-hello-world"
  {
    var parts := ["2024", "01", "02", "hello", "world"];
    HelloWorldTitle();
    assert parts[2..] == ["02", "hello", "world"];
    assert Join(parts[1..], '-') == "01-02-hello-world";
  }

  lemma HelloWorldFile()
    ensures "2024-01-02-hello-world" + "." + "md" == "2024-01-02-hello-world.md"
  {
  }

  lemma HelloWorldJoined()
    ensures "posts" + [Sep] + "2024-01-02-hello-world.md" == "posts/2024-01-02-hello-world.md"
  {
  }

  lemma HelloWorldInput()
    ensures Combine("posts", "2024-01-02-hello-world" + "." + "md") == "posts/2024-01-02-hello-world.md"
  {
    HelloWorldFile();
    HelloWorldJoined();
  }

  lemma HelloWorldPaths()
    ensures OutDir + "/" + "2024" + "/" + "01" + "/" + "02" + "/" + "helloworld" + ".html" == "publish/2024/01/02/helloworld.html"
  {
  }

  /** The example file name as a dated name, and its expected output path. */
  lemma HelloWorldIsDated()
    ensures Combine("posts", Join(DatedParts(2024, 1, 2, ["hello", "world"]), '-') + "." + "md") == "posts/2024-01-02-hello-world.md"
    ensures OutDir + "/" + FormatD(2024, 4) + "/" + FormatD(1, 2) + "/" + FormatD(2, 2) + "/" + Concat(["hello", "world"]) + ".html"
      == "publish/2024/01/02/helloworld.html"
    ensures Concat(["hello", "world"]) == "helloworld"
  {
    HelloWorldPieces();
    HelloWorldName();
    assert DatedParts(2024, 1, 2, ["hello", "world"]) == ["2024", "01", "02", "hello", "world"];
    HelloWorldInput();
    HelloWorldPaths();
  }

  /** The example of the documentation: 2024-01-02-hello-world.md. */
  lemma HelloWorldValid()
    ensures ValidDate(Date(2024, 1, 2))
    ensures forall i :: 0 <= i < |["hello", "world"]| ==>
      var p := ["hello", "world"][i]; '-' !in p && Sep !in p && '.' !in p
    ensures "posts"[|"posts"| - 1] != Sep && Sep !in "md" && '.' !in "md"
  {
    assert DaysInMonth(2024, 1) == 31;
  }

  lemma HelloWorldPostPath(env: Env)
    ensures ParsePostPath(env, "posts/2024-01-02-hello-world.md") ==
      Ok(PostPathInfo(Some("publish/2024/01/02/helloworld.html"), Date(2024, 1, 2), "helloworld", false))
  {
    var rest := ["hello", "world"];
    var input := Combine("posts", Join(DatedParts(2024, 1, 2, rest), '-') + "." + "md");
    var output := OutDir + "/" + FormatD(2024, 4) + "/" + FormatD(1, 2) + "/" + FormatD(2, 2) + "/" + Concat(rest) + ".html";
    HelloWorldValid();
    DatedPostPath(env, "posts", 2024, 1, 2, rest, "md");
    assert ParsePostPath(env, input) == Ok(PostPathInfo(Some(output), Date(2024, 1, 2), Concat(rest), false));
    HelloWorldIsDated();
  }

  /** A thirteenth month makes a dated post name invalid. */
  lemma MonthOutOfRange(env: Env, dir: string, y: nat, d: nat, rest: seq<string>, ext: string)
    requires y <= IntMax && d <= IntMax
    requires dir != "" && dir[|dir| - 1] != Sep
    requires |rest| >= 1
    requires forall i :: 0 <= i < |rest| ==> '-' !in rest[i] && Sep !in rest[i] && '.' !in rest[i]
    requires Sep !in ext && '.' !in ext
    ensures ParsePostPath(env, Combine(dir, Join(DatedParts(y, 13, d, rest), '-') + "." + ext)) == Err(DateOutOfRange)
  {
    var parts := DatedParts(y, 13, d, rest);
    DatedPartsPlain(y, 13, d, rest);
    NamePieces(dir, parts, ext);
    DatedPartsDate(y, 13, d, rest);
  }

  /** A date piece holding a character that is neither a digit, a sign nor white space
      makes the date fail; when the pieces before it parse, as a format error. */
  lemma NonNumericDate(parts: seq<string>, j: nat, i: nat)
    requires |parts| >= 3 && j < 3 && i < |parts[j]| && !NumberChar(parts[j][i])
    ensures ParseDate(parts).Err?
    ensures (forall k :: 0 <= k < j ==> ParseInt(parts[k]).Ok?) ==> ParseDate(parts) == Err(FormatError)
  {
    ParseIntRejects(parts[j], i);
    var y, m := ParseInt(parts[0]), ParseInt(parts[1]);
    if y.Err? {
      assert ParseDate(parts) == Err(y.error);
    } else if m.Err? {
      assert j != 0;
      assert ParseDate(parts) == Err(m.error);
    } else {
      assert j == 2;
      assert ParseDate(parts) == Err(FormatError);
    }
  }

  /** A dated name whose year, month or day piece holds a character that is neither a digit,
      a sign nor white space is refused; when the pieces before it parse, as a format error. */
  lemma NonNumericPiece(env: Env, fullPath: string, j: nat, i: nat)
    requires var parts := Split(FileNameWithoutExtension(fullPath), '-');
      |parts| >= 4 && j < 3 && i < |parts[j]| && !NumberChar(parts[j][i])
    ensures ParsePostPath(env, fullPath).Err?
    ensures var parts := Split(FileNameWithoutExtension(fullPath), '-');
      (forall k :: 0 <= k < j ==> ParseInt(parts[k]).Ok?) ==> ParsePostPath(env, fullPath) == Err(FormatError)
  {
    var parts := Split(FileNameWithoutExtension(fullPath), '-');
    NonNumericDate(parts, j, i);
    assert ParsePostPath(env, fullPath) == Err(ParseDate(parts).error);
  }

  // ---------------------------------------------------------------------- ReadPost

  /** `post.Layout ?? Config?.DefaultLayout ?? EmptyLayout`. */
  function LayoutOrDefault(env: Env, layout: Option<string>): (r: string)
    ensures layout.Some? ==> r == layout.value
    ensures layout.None? && env.defaultLayout.Some? ==> r == env.defaultLayout.value
    ensures layout.None? && env.defaultLayout.None? ==> r == env.emptyLayout
  {
    layout.GetOr(env.defaultLayout.GetOr(env.emptyLayout))
  }

  /** The front matter as a post: blank front matter is a fresh post, anything else goes
      to the JSON deserialiser, which may throw or produce null. */
  function ReadMetadata(env: Env, meta: string): (r: Result<Option<Metadata>>)
    ensures meta == "" ==> r == Ok(Some(NoMetadata))
    ensures meta != "" ==> r == env.deserialize(meta)
  {
    if meta == "" then Ok(Some(NoMetadata)) else env.deserialize(meta)
  }

  /** `outPath ?? Path.Combine(OutDir, post.StaticPath!)`; a missing static path turns
      into the "Please specify `staticPath`" error. */
  function ResolveOutputPath(info: PostPathInfo, md: Metadata): (r: Result<string>)
    ensures info.outputPath.Some? ==> r == Ok(info.outputPath.value)
    ensures info.outputPath.None? && md.staticPath.None? ==> r == Err(StaticPathMissing)
    ensures info.outputPath.None? && md.staticPath.Some? ==> r == Ok(Combine(OutDir, md.staticPath.value))
  {
    match info.outputPath
    case Some(p) => Ok(p)
    case None =>
      match md.staticPath
      case None => Err(StaticPathMissing)
      case Some(sp) => Ok(Combine(OutDir, sp))
  }

  /** ReadPost once the file is read: with front matter (a PostRegex match) the trimmed
      first group is deserialised and the trimmed second group is the content; without
      it the whole text is the content. Title and creation date always come from the
      path. */
  function PostFromText(env: Env, fullPath: string, content: string): (r: Result<Post>)
    ensures r.Ok? ==> r.value.inputPath == fullPath && ParsePostPath(env, fullPath).Ok?
    ensures r.Ok? ==> var info := ParsePostPath(env, fullPath).value;
      && r.value.title == info.title && r.value.createdAt == info.createdAt
      && (info.outputPath.Some? ==> r.value.outputPath == info.outputPath)
    ensures r.Ok? && env.postMatch(content).Some? ==>
      && r.value.outputPath.Some?
      && r.value.content == Trim(env.postMatch(content).value.1)
      && ReadMetadata(env, Trim(env.postMatch(content).value.0)).Ok?
      && ReadMetadata(env, Trim(env.postMatch(content).value.0)).value.Some?
      && var md := ReadMetadata(env, Trim(env.postMatch(content).value.0)).value.value;
      && r.value.layout == LayoutOrDefault(env, md.layout)
      && r.value.updatedAt == md.updatedAt && r.value.staticPath == md.staticPath
    ensures r.Ok? && env.postMatch(content).None? ==>
      && r.value.content == content
      && r.value.layout == LayoutOrDefault(env, None)
      && r.value.outputPath == ParsePostPath(env, fullPath).value.outputPath
    ensures env.postMatch(content).None? ==> (r.Ok? <==> ParsePostPath(env, fullPath).Ok?)
  {
    match env.postMatch(content)
    case Some((meta, body)) =>
      var md :- ReadMetadata(env, Trim(meta));
      var info :- ParsePostPath(env, fullPath);
      if md.None? then Err(NullReference)
      else
        var out :- ResolveOutputPath(info, md.value);
        Ok(Post(LayoutOrDefault(env, md.value.layout), info.title, Trim(body), info.createdAt,
                md.value.updatedAt, Some(out), md.value.staticPath, fullPath))
    case None =>
      var info :- ParsePostPath(env, fullPath);
      Ok(Post(LayoutOrDefault(env, None), info.title, content, info.createdAt, None, info.outputPath, None, fullPath))
  }

  /** Program.ReadPost: reads the file and builds the post from its text. */
  function ReadPost(env: Env, fs: Fs, fullPath: string): (r: Result<Post>)
    ensures ReadAllText(fs, fullPath).Err? ==> r == Err(ReadAllText(fs, fullPath).error)
    ensures ReadAllText(fs, fullPath).Ok? ==> r == PostFromText(env, fullPath, fs.files[fullPath])
  {
    var content :- ReadAllText(fs, fullPath);
    PostFromText(env, fullPath, content)
  }

  /** A post with front matter, an undated name and no static path cannot be read. */
  lemma NeedsStaticPath(env: Env, fullPath: string, content: string)
    requires env.postMatch(content).Some?
    requires ReadMetadata(env, Trim(env.postMatch(content).value.0)) == Ok(Some(Metadata(None, None, None)))
    requires |Split(FileNameWithoutExtension(fullPath), '-')| < 4
    ensures PostFromText(env, fullPath, content) == Err(StaticPathMissing)
  {
  }

  /** A post with front matter and an undated name is published at its static path under
      the output directory, with the metadata's layout or the default one. */
  lemma StaticPathPost(env: Env, fullPath: string, content: string, md: Metadata)
    requires env.postMatch(content).Some?
    requires ReadMetadata(env, Trim(env.postMatch(content).value.0)) == Ok(Some(md))
    requires |Split(FileNameWithoutExtension(fullPath), '-')| < 4
    requires md.staticPath.Some?
    ensures PostFromText(env, fullPath, content).Ok?
    ensures var p := PostFromText(env, fullPath, content).value;
      && p.outputPath == Some(Combine(OutDir, md.staticPath.value))
      && p.title == FileNameWithoutExtension(fullPath)
      && p.createdAt == env.creationDate(fullPath)
      && p.layout == LayoutOrDefault(env, md.layout)
      && p.staticPath == md.staticPath && p.updatedAt == md.updatedAt
  {
  }

  /** Front matter that deserialises to null is an error once the path has parsed. */
  lemma NullMetadata(env: Env, fullPath: string, content: string)
    requires env.postMatch(content).Some?
    requires ReadMetadata(env, Trim(env.postMatch(content).value.0)) == Ok(None)
    requires ParsePostPath(env, fullPath).Ok?
    ensures PostFromText(env, fullPath, content) == Err(NullReference)
  {
  }

  /** A post without front matter takes the default layout and keeps its whole text. */
  lemma PlainPost(env: Env, fullPath: string, content: string)
    requires env.postMatch(content).None?
    requires env.defaultLayout.None?
    requires ParsePostPath(env, fullPath).Ok?
    ensures PostFromText(env, fullPath, content).Ok?
    ensures PostFromText(env, fullPath, content).value.layout == env.emptyLayout
    ensures PostFromText(env, fullPath, content).value.updatedAt.None?
  {
  }

  // -------------------------------------------------------------- the post cache

  /** The cache update of HandlePostChange: an existing entry with the same identity keeps
      its layout, input path, dates and static path and takes the new content, title and
      output path; an unknown identity is added. */
  function PostUpsert(posts: map<PostKey, Post>, post: Post): (r: map<PostKey, Post>)
    ensures r.Keys == posts.Keys + {post.Key()}
    ensures forall k :: k in posts && k != post.Key() ==> r[k] == posts[k]
    ensures post.Key() !in posts ==> r[post.Key()] == post
    ensures post.Key() in posts ==>
      var old_ := posts[post.Key()];
      r[post.Key()] == Post(old_.layout, post.title, post.content, old_.createdAt, old_.updatedAt,
                            post.outputPath, old_.staticPath, old_.inputPath)
  {
    var k := post.Key();
    if k in posts then
      posts[k := posts[k].(content := post.content, title := post.title, outputPath := post.outputPath)]
    else
      posts[k := post]
  }

  /** The entry after the content and title were copied but before the output path was:
      the state HandlePostChange leaves when the stale-output cleanup throws. */
  function PartialUpsert(posts: map<PostKey, Post>, post: Post): (r: map<PostKey, Post>)
    requires post.Key() in posts
    ensures r.Keys == posts.Keys
    ensures forall k :: k in posts && k != post.Key() ==> r[k] == posts[k]
    ensures r[post.Key()] == posts[post.Key()].(content := post.content, title := post.title)
  {
    posts[post.Key() := posts[post.Key()].(content := post.content, title := post.title)]
  }

  /** The cache stays keyed by identity. */
  lemma PostUpsertKeyed(posts: map<PostKey, Post>, post: Post)
    requires PostsKeyed(posts)
    ensures PostsKeyed(PostUpsert(posts, post))
    ensures post.Key() in posts ==> PostsKeyed(PartialUpsert(posts, post))
  {
    var k := post.Key();
    var r := PostUpsert(posts, post);
    assert r[k].Key() == k;
    if k in posts {
      var q := PartialUpsert(posts, post);
      assert q[k].Key() == k;
    }
  }

  /** Upserting the same post twice changes nothing more. */
  lemma PostUpsertIdempotent(posts: map<PostKey, Post>, post: Post)
    ensures PostUpsert(PostUpsert(posts, post), post) == PostUpsert(posts, post)
  {
  }

  /** Re-handling the post the cache already holds leaves the cache as it was. */
  lemma PostUpsertCached(posts: map<PostKey, Post>, post: Post)
    requires post.Key() in posts && posts[post.Key()] == post
    ensures PostUpsert(posts, post) == posts
  {
    var k := post.Key();
    var r := PostUpsert(posts, post);
    assert r.Keys == posts.Keys;
    assert r[k] == posts[k];
  }

  /** A new identity adds one entry, a known one none. */
  lemma PostUpsertSize(posts: map<PostKey, Post>, post: Post)
    ensures |PostUpsert(posts, post)| == if post.Key() in posts then |posts| else |posts| + 1
  {
    var r := PostUpsert(posts, post);
    if post.Key() in posts {
      assert r.Keys == posts.Keys;
    } else {
      assert r.Keys == posts.Keys + {post.Key()};
    }
  }

  /** Two posts with the same title and creation date share one cache entry, whatever
      their input paths: the second takes over the content, the first keeps its input. */
  lemma SameIdentitySameEntry(posts: map<PostKey, Post>, a: Post, b: Post)
    requires a.title == b.title && a.createdAt == b.createdAt
    ensures PostUpsert(PostUpsert(posts, a), b).Keys == posts.Keys + {a.Key()}
    ensures PostUpsert(PostUpsert(posts, a), b)[a.Key()].content == b.content
    ensures a.Key() !in posts ==> PostUpsert(PostUpsert(posts, a), b)[a.Key()].inputPath == a.inputPath
  {
  }

  // ---------------------------------------------------------- output directories

  /** HandlePostChange's `Directory.CreateDirectory(Path.GetDirectoryName(post.OutputPath))`:
      nothing for a null path or one without a directory part, an error for a bare file
      name (the directory name is empty), otherwise the directory and its ancestors. */
  function PrepareOutputDir(fs: Fs, out: Option<string>): (r: Result<Fs>)
    ensures r.Ok? ==> r.value.files == fs.files && fs.dirs <= r.value.dirs
    ensures r.Ok? && out.Some? && DirectoryName(out.value).Some? ==> DirectoryName(out.value).value in r.value.dirs
    ensures r.Err? <==> out.Some? && DirectoryName(out.value) == Some("")
    ensures r.Err? ==> r.error == ArgumentEmpty
    ensures out.None? || DirectoryName(out.value).None? ==> r == Ok(fs)
  {
    match out
    case None => Ok(fs)
    case Some(p) =>
      match DirectoryName(p)
      case None => Ok(fs)
      case Some(d) => if d == "" then Err(ArgumentEmpty) else Ok(CreateDirectory(fs, d))
  }

  /** The stale-output cleanup of HandlePostChange: delete the old output file if it exists,
      then delete its directory if that is now empty. Only that one directory is looked at. */
  function RemoveStale(fs: Fs, oldOut: Option<string>): (r: (Fs, Outcome))
    ensures oldOut.Some? ==> r.0.files == fs.files - {oldOut.value}
    ensures oldOut.None? ==> r.0.files == fs.files && r.1 == Failed(ArgumentNull)
    ensures r.0.dirs <= fs.dirs
    ensures r.1.Failed? ==> r.0.dirs == fs.dirs && (r.1.error == ArgumentNull || r.1.error == DirectoryNotFound)
    ensures r.1.Done? ==>
      && oldOut.Some? && DirectoryName(oldOut.value).Some?
      && var d := DirectoryName(oldOut.value).value;
      && d != "" && d in fs.dirs
      && fs.dirs - r.0.dirs <= {d}
      && (d !in r.0.dirs <==> IsEmptyDir(DeleteFileIfExists(fs, oldOut), d))
  {
    var fs1 := DeleteFileIfExists(fs, oldOut);
    var dirName := if oldOut.Some? then DirectoryName(oldOut.value) else None;
    match CheckFolderEmpty(fs1, dirName.GetOr(""))
    case Err(e) => (fs1, Failed(e))
    case Ok(empty) =>
      if empty then (fs1.(dirs := fs1.dirs - {dirName.value}), Done) else (fs1, Done)
  }

  /** Where the cleanup happens: the cached post moved to a new output path. */
  function Cleanup(fs: Fs, posts: map<PostKey, Post>, post: Post): (r: (Fs, Outcome))
    ensures post.Key() !in posts || posts[post.Key()].outputPath == post.outputPath ==> r == (fs, Done)
    ensures post.Key() in posts && posts[post.Key()].outputPath != post.outputPath ==>
      r == RemoveStale(fs, posts[post.Key()].outputPath)
  {
    var k := post.Key();
    if k in posts && posts[k].outputPath != post.outputPath then RemoveStale(fs, posts[k].outputPath)
    else (fs, Done)
  }

  /** The parent directory of `p`, created when missing. */
  function EnsureParent(fs: Fs, p: string): (r: Fs)
    ensures r.files == fs.files && fs.dirs <= r.dirs
    ensures p !in fs.dirs && DirectoryName(p).Some? ==> p !in r.dirs && ParentExists(r, p)
  {
    match DirectoryName(p)
    case None => fs
    case Some(d) =>
      if d == "" then fs
      else
        assert forall e :: e in DirChain(d) ==> |e| <= |d| < |p|;
        CreateDirectory(fs, d)
  }

  /** `File.WriteAllTextAsync(post.OutputPath, html)` as written: it needs the parent
      directory to exist. Wherever it succeeds the corrected write below writes the same
      files. */
  function WriteOutputAsWritten(fs: Fs, out: Option<string>, html: string): (r: Result<Fs>)
    ensures r.Ok? <==> out.Some? && out.value != "" && out.value !in fs.dirs && ParentExists(fs, out.value)
    ensures r.Ok? ==> r.value == fs.(files := fs.files[out.value := html])
    ensures r.Ok? ==> WriteOutput(fs, out, html).Ok? && WriteOutput(fs, out, html).value.files == r.value.files
  {
    match out
    case None => Err(ArgumentNull)
    case Some(p) => WriteAllText(fs, p, html)
  }

  /** The write as evidently intended: the output directory is (re)created right before
      writing, so that the cleanup cannot have removed it. */
  function WriteOutput(fs: Fs, out: Option<string>, html: string): (r: Result<Fs>)
    ensures r.Ok? <==> out.Some? && out.value !in fs.dirs && DirectoryName(out.value).Some?
    ensures out.None? ==> r == Err(ArgumentNull)
    ensures r.Ok? ==> r.value.files == fs.files[out.value := html] && fs.dirs <= r.value.dirs
    ensures r.Ok? ==> ParentExists(r.value, out.value)
  {
    match out
    case None => Err(ArgumentNull)
    case Some(p) => WriteAllText(EnsureParent(fs, p), p, html)
  }

  /** The file-system effect of HandlePostChange for a post that moved from `oldOut` to
      `newOut`, as written: create the new directory, clean up, write. Where it succeeds,
      the corrected version writes the same files. */
  function ReplaceOutputAsWritten(fs: Fs, oldOut: Option<string>, newOut: Option<string>, html: string): (r: Result<Fs>)
    ensures r.Ok? ==> ReplaceOutput(fs, oldOut, newOut, html).Ok?
    ensures r.Ok? ==> ReplaceOutput(fs, oldOut, newOut, html).value.files == r.value.files
  {
    var fs1 :- PrepareOutputDir(fs, newOut);
    var (fs2, o) := RemoveStale(fs1, oldOut);
    if o.Failed? then Err(o.error) else WriteOutputAsWritten(fs2, newOut, html)
  }

  /** The same with the corrected write: on success the page is at the new path and the
      old output, when it was elsewhere, is gone. */
  function ReplaceOutput(fs: Fs, oldOut: Option<string>, newOut: Option<string>, html: string): (r: Result<Fs>)
    ensures r.Ok? ==> newOut.Some? && newOut.value in r.value.files && r.value.files[newOut.value] == html
    ensures r.Ok? && oldOut.Some? && oldOut != newOut ==> oldOut.value !in r.value.files
    ensures r.Ok? ==> ParentExists(r.value, newOut.value)
  {
    var fs1 :- PrepareOutputDir(fs, newOut);
    var (fs2, o) := RemoveStale(fs1, oldOut);
    if o.Failed? then Err(o.error) else WriteOutput(fs2, newOut, html)
  }

  /** Creating the directory of `d/b` when `d` holds only `d/a`: afterwards `d` exists, and
      it is empty once `d/a` is gone. */
  lemma PreparedDirEmptied(fs: Fs, d: string, a: string, b: string)
    requires d != "" && d[|d| - 1] != Sep && d in fs.dirs
    requires a != "" && b != "" && Sep !in a && Sep !in b
    requires forall f :: f in fs.files && InDir(f, d) ==> f == Combine(d, a)
    requires forall e :: e in fs.dirs ==> !InDir(e, d)
    ensures PrepareOutputDir(fs, Some(Combine(d, b))) == Ok(fs.(dirs := fs.dirs + DirChain(d)))
    ensures IsEmptyDir(DeleteFileIfExists(fs.(dirs := fs.dirs + DirChain(d)), Some(Combine(d, a))), d)
  {
    FileNameOfCombine(d, b);
    forall e | e in DirChain(d)
      ensures !InDir(e, d)
    {
      assert |e| <= |d|;
    }
  }

  /** Deleting the only file of a directory makes the cleanup remove the directory. */
  lemma StaleDirRemoved(fs: Fs, d: string, a: string)
    requires d != "" && d[|d| - 1] != Sep && d in fs.dirs
    requires a != "" && Sep !in a
    requires IsEmptyDir(DeleteFileIfExists(fs, Some(Combine(d, a))), d)
    ensures var fs1 := DeleteFileIfExists(fs, Some(Combine(d, a)));
      RemoveStale(fs, Some(Combine(d, a))) == (fs1.(dirs := fs1.dirs - {d}), Done)
  {
    FileNameOfCombine(d, a);
  }

  /** The state the cleanup leaves when the only post of a directory moves to another name
      in it: the directory is gone, and with it the parent of the new output path. */
  lemma LostDirectoryState(fs: Fs, d: string, a: string, b: string)
    requires d != "" && d[|d| - 1] != Sep && d in fs.dirs
    requires a != "" && b != "" && Sep !in a && Sep !in b && a != b
    requires forall f :: f in fs.files && InDir(f, d) ==> f == Combine(d, a)
    requires forall e :: e in fs.dirs ==> !InDir(e, d)
    ensures var fs1 := fs.(dirs := fs.dirs + DirChain(d));
      var fs2 := DeleteFileIfExists(fs1, Some(Combine(d, a)));
      var fs3 := fs2.(dirs := fs2.dirs - {d});
      && PrepareOutputDir(fs, Some(Combine(d, b))) == Ok(fs1)
      && RemoveStale(fs1, Some(Combine(d, a))) == (fs3, Done)
      && DirectoryName(Combine(d, b)) == Some(d)
      && Combine(d, b) !in fs1.dirs && d !in fs3.dirs && d in fs1.dirs
  {
    PreparedDirEmptied(fs, d, a, b);
    var fs1 := fs.(dirs := fs.dirs + DirChain(d));
    StaleDirRemoved(fs1, d, a);
    FileNameOfCombine(d, b);
    assert Combine(d, b) !in fs.dirs by {
      assert InDir(Combine(d, b), d);
    }
    assert |Combine(d, b)| > |d|;
  }

  /** Moving the only post of a directory to another name in the same directory: the
      cleanup deletes the directory that was just created, and the write then fails. */
  lemma ReplaceOutputAsWrittenLosesDirectory(fs: Fs, d: string, a: string, b: string, html: string)
    requires d != "" && d[|d| - 1] != Sep && d in fs.dirs
    requires a != "" && b != "" && Sep !in a && Sep !in b && a != b
    requires forall f :: f in fs.files && InDir(f, d) ==> f == Combine(d, a)
    requires forall e :: e in fs.dirs ==> !InDir(e, d)
    ensures ReplaceOutputAsWritten(fs, Some(Combine(d, a)), Some(Combine(d, b)), html) == Err(DirectoryNotFound)
  {
    LostDirectoryState(fs, d, a, b);
    var fs1 := fs.(dirs := fs.dirs + DirChain(d));
    var fs2 := DeleteFileIfExists(fs1, Some(Combine(d, a)));
    var fs3 := fs2.(dirs := fs2.dirs - {d});
    assert WriteAllText(fs3, Combine(d, b), html) == Err(DirectoryNotFound);
  }

  /** In the same situation the corrected write recreates the directory and succeeds. */
  lemma ReplaceOutputKeepsDirectory(fs: Fs, d: string, a: string, b: string, html: string)
    requires d != "" && d[|d| - 1] != Sep && d in fs.dirs
    requires a != "" && b != "" && Sep !in a && Sep !in b && a != b
    requires forall f :: f in fs.files && InDir(f, d) ==> f == Combine(d, a)
    requires forall e :: e in fs.dirs ==> !InDir(e, d)
    ensures ReplaceOutput(fs, Some(Combine(d, a)), Some(Combine(d, b)), html).Ok?
    ensures var r := ReplaceOutput(fs, Some(Combine(d, a)), Some(Combine(d, b)), html).value;
      r.files[Combine(d, b)] == html && Combine(d, a) !in r.files && d in r.dirs
  {
    LostDirectoryState(fs, d, a, b);
  }

  // ------------------------------------------------------------------- rendering

  /** The post body as HTML: Markdown files are converted, anything else is used as is. */
  function PostHtml(env: Env, post: Post): (r: string)
    ensures EndsWith(post.inputPath, ".md") || EndsWith(post.inputPath, ".markdown") ==> r == env.markdown(post.content)
    ensures !EndsWith(post.inputPath, ".md") && !EndsWith(post.inputPath, ".markdown") ==> r == post.content
  {
    if EndsWith(post.inputPath, ".md") || EndsWith(post.inputPath, ".markdown") then env.markdown(post.content)
    else post.content
  }

  /** The replacement of one fragment token inside HandlePostChange: the cached fragment's
      text with each expression, its `props.x` rewritten to `props["x"]`, evaluated against
      the globals plus the token's properties ("" when evaluation throws); "" for an unknown
      fragment. */
  function EmbedPostToken(env: Env, fragments: map<string, Fragment>, globals: Globals, m: Match): (r: string)
    requires ValidEnv(env)
    ensures m.group1 !in fragments ==> r == ""
    ensures m.group1 in fragments ==>
      var c := fragments[m.group1].content;
      var ms := env.expressionMatches(c);
      r == Interleave(Gaps(c, ms, 0),
        Apply((e: Match) => EvalOrEmpty(env, env.rewriteProps(e.group1), WithProps(env, globals, m)), ms))
  {
    if m.group1 in fragments then
      var f := fragments[m.group1];
      var g := WithProps(env, globals, m);
      var ms := env.expressionMatches(f.content);
      SplicedGaps(f.content, ms, Apply((e: Match) => EvalOrEmpty(env, env.rewriteProps(e.group1), g), ms));
      Spliced(f.content, ms, Apply((e: Match) => EvalOrEmpty(env, env.rewriteProps(e.group1), g), ms))
    else ""
  }

  /** The replacement function of the fragment pass. */
  function TokenReplacer(env: Env, fragments: map<string, Fragment>, globals: Globals): Match -> string
    requires ValidEnv(env)
  {
    (m: Match) => EmbedPostToken(env, fragments, globals, m)
  }

  /** The globals the templates of a post see. */
  function PostGlobals(env: Env, posts: map<PostKey, Post>, layouts: map<string, Layout>, post: Post, layout: Layout): Globals {
    Globals(PostHtml(env, post), posts, post, layouts, Some(layout), None)
  }

  /** The page HandlePostChange writes: the layout with its fragment tokens embedded, then
      its expressions evaluated. */
  function Render(env: Env, posts: map<PostKey, Post>, layouts: map<string, Layout>, fragments: map<string, Fragment>,
                  post: Post, layout: Layout): (r: string)
    requires ValidEnv(env)
    ensures env.fragmentMatches(layout.content) == [] ==>
      r == EmbedVariables(env, layout.content, PostGlobals(env, posts, layouts, post, layout))
  {
    var globals := PostGlobals(env, posts, layouts, post, layout);
    var fm := env.fragmentMatches(layout.content);
    var html := Spliced(layout.content, fm, Apply(TokenReplacer(env, fragments, globals), fm));
    assert fm == [] ==> html == layout.content by {
      if fm == [] {
        SplicedOwnText(layout.content, fm, Apply(TokenReplacer(env, fragments, globals), fm));
      }
    }
    EmbedVariables(env, html, globals)
  }

  /** The page is the variable pass over the layout's text outside the fragment tokens,
      kept in order, interleaved with each token's embedded fragment. */
  lemma RenderSplice(env: Env, posts: map<PostKey, Post>, layouts: map<string, Layout>,
                     fragments: map<string, Fragment>, post: Post, layout: Layout)
    requires ValidEnv(env)
    ensures var g := PostGlobals(env, posts, layouts, post, layout);
      var fm := env.fragmentMatches(layout.content);
      Render(env, posts, layouts, fragments, post, layout)
        == EmbedVariables(env, Interleave(Gaps(layout.content, fm, 0), Apply(TokenReplacer(env, fragments, g), fm)), g)
  {
    var g := PostGlobals(env, posts, layouts, post, layout);
    var fm := env.fragmentMatches(layout.content);
    SplicedGaps(layout.content, fm, Apply(TokenReplacer(env, fragments, g), fm));
  }

  /** A layout without fragment tokens or expressions is published verbatim. */
  lemma RenderPlainLayout(env: Env, posts: map<PostKey, Post>, layouts: map<string, Layout>,
                          fragments: map<string, Fragment>, post: Post, layout: Layout)
    requires ValidEnv(env)
    requires env.fragmentMatches(layout.content) == [] && env.expressionMatches(layout.content) == []
    ensures Render(env, posts, layouts, fragments, post, layout) == layout.content
  {
    SplicedOwnText(layout.content, [], []);
  }

  // ------------------------------------------------------------- HandlePostChange

  /** The caches' and the file system's state after a HandlePostChange call, with how
      the call ended. */
  datatype PostChangeResult = PostChangeResult(posts: map<PostKey, Post>, fs: Fs, outcome: Outcome)

  /** What Program.HandlePostChange does, step by step: create the output directory, update
      the cache (removing the stale output when the path moved), look up the layout,
      render, write. An exception ends the call with the state reached so far. The write
      is the corrected WriteOutput, which re-creates the output directory the cleanup may
      have removed; where the write as written succeeds, the two agree on every file. */
  function PostChange(env: Env, posts: map<PostKey, Post>, layouts: map<string, Layout>,
                      fragments: map<string, Fragment>, fs: Fs, post: Post): (r: PostChangeResult)
    requires ValidEnv(env)
    ensures r.posts == posts || r.posts == PostUpsert(posts, post)
         || (post.Key() in posts && r.posts == PartialUpsert(posts, post))
    ensures r.outcome.Done? ==> post.layout in layouts && r.posts == PostUpsert(posts, post)
    ensures r.outcome.Failed? && PrepareOutputDir(fs, post.outputPath).Err? ==> r.posts == posts && r.fs == fs
  {
    match PrepareOutputDir(fs, post.outputPath)
    case Err(e) => PostChangeResult(posts, fs, Failed(e))
    case Ok(fs1) =>
      var (fs2, cleaned) := Cleanup(fs1, posts, post);
      if cleaned.Failed? then PostChangeResult(PartialUpsert(posts, post), fs2, cleaned)
      else
        var posts' := PostUpsert(posts, post);
        if post.layout !in layouts then PostChangeResult(posts', fs2, Failed(NullReference))
        else
          match WriteOutput(fs2, post.outputPath, Render(env, posts', layouts, fragments, post, layouts[post.layout]))
          case Err(e) => PostChangeResult(posts', fs2, Failed(e))
          case Ok(fs3) => PostChangeResult(posts', fs3, Done)
  }

  /** A call that completes leaves the post in the cache and its page, rendered with the
      updated cache, at its output path in an existing directory. */
  lemma PostChangeDone(env: Env, posts: map<PostKey, Post>, layouts: map<string, Layout>,
                       fragments: map<string, Fragment>, fs: Fs, post: Post)
    requires ValidEnv(env)
    requires PostChange(env, posts, layouts, fragments, fs, post).outcome.Done?
    ensures var r := PostChange(env, posts, layouts, fragments, fs, post);
      && post.outputPath.Some? && post.layout in layouts
      && r.posts == PostUpsert(posts, post)
      && post.outputPath.value in r.fs.files
      && r.fs.files[post.outputPath.value] == Render(env, r.posts, layouts, fragments, post, layouts[post.layout])
      && ParentExists(r.fs, post.outputPath.value)
  {
    var html := Render(env, PostUpsert(posts, post), layouts, fragments, post, layouts[post.layout]);
    var fs2 := PostChangeWritten(env, posts, layouts, fragments, fs, post);
    WrittenPage(fs2, post.outputPath, html);
  }

  /** The state a completed call writes into: the prepared and cleaned-up file system. */
  lemma PostChangeWritten(env: Env, posts: map<PostKey, Post>, layouts: map<string, Layout>,
                          fragments: map<string, Fragment>, fs: Fs, post: Post) returns (fs2: Fs)
    requires ValidEnv(env)
    requires PostChange(env, posts, layouts, fragments, fs, post).outcome.Done?
    ensures post.layout in layouts
    ensures var html := Render(env, PostUpsert(posts, post), layouts, fragments, post, layouts[post.layout]);
      && WriteOutput(fs2, post.outputPath, html).Ok?
      && PostChange(env, posts, layouts, fragments, fs, post)
           == PostChangeResult(PostUpsert(posts, post), WriteOutput(fs2, post.outputPath, html).value, Done)
  {
    var prepared := PrepareOutputDir(fs, post.outputPath);
    assert prepared.Ok?;
    var cleaned := Cleanup(prepared.value, posts, post);
    assert cleaned.1.Done?;
    fs2 := cleaned.0;
  }

  /** A successful write puts the page at the output path, in an existing directory. */
  lemma WrittenPage(fs: Fs, out: Option<string>, html: string)
    requires WriteOutput(fs, out, html).Ok?
    ensures out.Some? && out.value in WriteOutput(fs, out, html).value.files
    ensures WriteOutput(fs, out, html).value.files[out.value] == html
    ensures ParentExists(WriteOutput(fs, out, html).value, out.value)
  {
  }

  lemma CleanupFrame(fs: Fs, posts: map<PostKey, Post>, post: Post, f: string)
    requires f in fs.files
    requires post.Key() in posts ==> Some(f) != posts[post.Key()].outputPath
    ensures f in Cleanup(fs, posts, post).0.files && Cleanup(fs, posts, post).0.files[f] == fs.files[f]
  {
  }

  lemma WriteFrame(fs: Fs, out: Option<string>, html: string, f: string)
    requires f in fs.files && Some(f) != out
    ensures WriteOutput(fs, out, html).Ok? ==>
      f in WriteOutput(fs, out, html).value.files && WriteOutput(fs, out, html).value.files[f] == fs.files[f]
  {
  }

  /** Whatever the outcome, the only files a call touches are the post's new output and
      its previous one. */
  lemma PostChangeFrame(env: Env, posts: map<PostKey, Post>, layouts: map<string, Layout>,
                        fragments: map<string, Fragment>, fs: Fs, post: Post, f: string)
    requires ValidEnv(env)
    requires f in fs.files && Some(f) != post.outputPath
    requires post.Key() in posts ==> Some(f) != posts[post.Key()].outputPath
    ensures var r := PostChange(env, posts, layouts, fragments, fs, post);
      f in r.fs.files && r.fs.files[f] == fs.files[f]
    ensures PostChange(env, posts, layouts, fragments, fs, post).fs.files.Keys <=
      fs.files.Keys + (if post.outputPath.Some? then {post.outputPath.value} else {})
  {
    var prepared := PrepareOutputDir(fs, post.outputPath);
    if prepared.Ok? {
      var fs1 := prepared.value;
      assert fs1.files == fs.files;
      CleanupFrame(fs1, posts, post, f);
      var (fs2, cleaned) := Cleanup(fs1, posts, post);
      if cleaned.Done? && post.layout in layouts {
        var posts' := PostUpsert(posts, post);
        var html := Render(env, posts', layouts, fragments, post, layouts[post.layout]);
        WriteFrame(fs2, post.outputPath, html, f);
      }
    }
  }

  /** Whatever the outcome, a call adds no file but the post's output. */
  lemma PostChangeAddsOnlyOutput(env: Env, posts: map<PostKey, Post>, layouts: map<string, Layout>,
                                 fragments: map<string, Fragment>, fs: Fs, post: Post)
    requires ValidEnv(env)
    ensures PostChange(env, posts, layouts, fragments, fs, post).fs.files.Keys <=
      fs.files.Keys + (if post.outputPath.Some? then {post.outputPath.value} else {})
  {
    var prepared := PrepareOutputDir(fs, post.outputPath);
    if prepared.Ok? {
      var fs1 := prepared.value;
      assert fs1.files == fs.files;
      var cleaned := Cleanup(fs1, posts, post);
      var fs2 := cleaned.0;
      assert fs2.files.Keys <= fs.files.Keys;
      if cleaned.1.Done? && post.layout in layouts {
        var html := Render(env, PostUpsert(posts, post), layouts, fragments, post, layouts[post.layout]);
        WriteAddsOnlyOutput(fs2, post.outputPath, html);
      }
    }
  }

  /** A successful write adds no file but the output. */
  lemma WriteAddsOnlyOutput(fs: Fs, out: Option<string>, html: string)
    ensures WriteOutput(fs, out, html).Ok? ==> out.Some? && WriteOutput(fs, out, html).value.files.Keys <= fs.files.Keys + {out.value}
  {
  }

  /** A post whose layout is not cached fails with a null dereference, after the cache was
      updated. */
  lemma PostChangeMissingLayout(env: Env, posts: map<PostKey, Post>, layouts: map<string, Layout>,
                                fragments: map<string, Fragment>, fs: Fs, post: Post)
    requires ValidEnv(env)
    requires post.layout !in layouts
    requires PrepareOutputDir(fs, post.outputPath).Ok?
    requires Cleanup(PrepareOutputDir(fs, post.outputPath).value, posts, post).1.Done?
    ensures PostChange(env, posts, layouts, fragments, fs, post).outcome == Failed(NullReference)
    ensures PostChange(env, posts, layouts, fragments, fs, post).posts == PostUpsert(posts, post)
  {
  }

  /** The cache stays keyed by identity whatever happens. */
  lemma PostChangeKeyed(env: Env, posts: map<PostKey, Post>, layouts: map<string, Layout>,
                        fragments: map<string, Fragment>, fs: Fs, post: Post)
    requires ValidEnv(env)
    requires PostsKeyed(posts)
    ensures PostsKeyed(PostChange(env, posts, layouts, fragments, fs, post).posts)
  {
    PostUpsertKeyed(posts, post);
  }

  /** Re-handling the cached post leaves the cache as it was. */
  lemma PostChangeCached(env: Env, posts: map<PostKey, Post>, layouts: map<string, Layout>,
                         fragments: map<string, Fragment>, fs: Fs, post: Post)
    requires ValidEnv(env)
    requires post.Key() in posts && posts[post.Key()] == post
    ensures PostChange(env, posts, layouts, fragments, fs, post).posts == posts
  {
    PostUpsertCached(posts, post);
    assert PartialUpsert(posts, post) == posts;
  }

  /** The cache update of HandlePostChange, with the stale-output cleanup. */
  method UpdatePostCache(s: Site, post: Post) returns (cleaned: Outcome)
    modifies s
    ensures s.handled == old(s.handled) && s.layouts == old(s.layouts) && s.fragments == old(s.fragments)
    ensures (s.fs, cleaned) == Cleanup(old(s.fs), old(s.posts), post)
    ensures cleaned.Failed? ==> post.Key() in old(s.posts) && s.posts == PartialUpsert(old(s.posts), post)
    ensures cleaned.Done? ==> s.posts == PostUpsert(old(s.posts), post)
  {
    ghost var p0 := s.posts;
    var k := post.Key();
    cleaned := Done;
    if k in s.posts {
      var oldPost := s.posts[k];
      s.posts := s.posts[k := oldPost.(content := post.content, title := post.title)];
      assert s.posts == PartialUpsert(p0, post);
      if oldPost.outputPath != post.outputPath {
        var (fs', o) := RemoveStale(s.fs, oldPost.outputPath);
        s.fs := fs';
        if o.Failed? {
          return o;
        }
      }
      s.posts := s.posts[k := s.posts[k].(outputPath := post.outputPath)];
      assert s.posts == p0[k := oldPost.(content := post.content, title := post.title, outputPath := post.outputPath)];
    } else {
      s.posts := s.posts[k := post];
    }
  }

  /** The rendering of HandlePostChange: the fragment pass over the layout, then the
      variable pass over its result. */
  method RenderPost(env: Env, posts: map<PostKey, Post>, layouts: map<string, Layout>,
                    fragments: map<string, Fragment>, post: Post, layout: Layout) returns (html: string)
    requires ValidEnv(env)
    ensures html == Render(env, posts, layouts, fragments, post, layout)
  {
    var globals := PostGlobals(env, posts, layouts, post, layout);
    var calls;
    html, calls := ReplaceAsync(layout.content, env.fragmentMatches(layout.content), TokenReplacer(env, fragments, globals));
    html, calls := ReplaceAsync(html, env.expressionMatches(html), VariableReplacer(env, globals));
  }

  /** Program.HandlePostChange. */
  method HandlePostChange(s: Site, post: Post) returns (outcome: Outcome)
    requires s.Valid()
    modifies s
    ensures s.Valid()
    ensures s.handled == old(s.handled) + [post.Key()]
    ensures s.layouts == old(s.layouts) && s.fragments == old(s.fragments)
    ensures PostChangeResult(s.posts, s.fs, outcome) == PostChange(s.env, old(s.posts), s.layouts, s.fragments, old(s.fs), post)
  {
    s.handled := s.handled + [post.Key()];
    PostChangeKeyed(s.env, s.posts, s.layouts, s.fragments, s.fs, post);
    var prepared := PrepareOutputDir(s.fs, post.outputPath);
    if prepared.Err? {
      return Failed(prepared.error);
    }
    s.fs := prepared.value;
    var cleaned := UpdatePostCache(s, post);
    if cleaned.Failed? {
      return cleaned;
    }
    if post.layout !in s.layouts {
      return Failed(NullReference);
    }
    var html := RenderPost(s.env, s.posts, s.layouts, s.fragments, post, s.layouts[post.layout]);
    var written := WriteOutput(s.fs, post.outputPath, html);
    if written.Err? {
      return Failed(written.error);
    }
    s.fs := written.value;
    outcome := Done;
  }
}
