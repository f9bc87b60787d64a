# BlogStudio cache and watch-mode model

BlogStudio is a static blog generator. It turns post files into HTML pages under `publish/`. Each page goes through a layout, and a layout can embed fragments (`{% name key="value" %}`) and C# expressions (`{{ expression }}`). In watch mode it keeps three in-memory caches:

- posts, identified by title and creation date;
- layouts, identified by name;
- fragments, identified by name.

Watch mode also reacts to file-system events:

- A changed post is re-read and re-rendered.
- A changed layout re-renders every post that uses it.
- A changed fragment re-renders every layout that embeds it, and through those layouts every post using them.
- A deleted or renamed post removes its output.
- An asset event copies, deletes or moves the matching file in the output tree.

This project models that core in Dafny:

- **Caches.** The three caches are maps from identity to entity, held in the fields of a `Site` object (module `Caches`).
- **Handlers.** `HandlePostChange`, `HandleLayoutChange` and `HandleFragmentChanged` are methods that change the site in place, and each watcher subscription is one method per event.
- **Handled log.** The site records the identity of every post handed to `HandlePostChange`. This lets the fan-out be stated exactly: after a change, every dependent post is handled exactly once, and no other post is handled.
- **File system.** It is a value: file contents by path plus the set of existing directories. `File.*` and `Directory.*` are functions on that value, and each exception is an `Error` value.
- **Foreign code.** The regular-expression engine, Markdig, the C# script evaluator, the JSON deserialiser, file creation times and the configuration are fields of an `Env` value. Module `Foreign` states what the regular expressions guarantee: ordered, non-overlapping matches inside the text.
- **Path and date logic.** File-name parsing, date formatting and output-path derivation are modelled in full:
  - `Path.Combine` and `Path.GetFileNameWithoutExtension`;
  - `string.Split` and `string.Join`;
  - `int.Parse`, `ToString("D4")` and `DateOnly`.

Two behaviours of the code that a reader might not expect:

- **Created files.** Newly created layout and fragment files have no handler of their own. Only Changed and Deleted events are subscribed for them (BlogStudio/Watch.cs:53-69, BlogStudio/Watch.cs:88-105), so the model has no creation handler for them.
- **Missing layouts.** A post whose layout is not cached fails with a null dereference (BlogStudio/Post.cs:133-142); there is no fallback layout at that point.

## Model

| member | source | states |
|---|---|---|
| Entities.MakeDate | BlogStudio/Post.cs:92 | `new DateOnly(y, m, d)` succeeds exactly for a valid calendar date (year 1-9999, month 1-12, day within the month, leap years included); otherwise it is an out-of-range error |
| Entities.PostEquals | BlogStudio/Post.cs:250 | corrected typed post equality: true iff the other post is non-null with the same title and creation date |
| Entities.PostEqualsAsWritten | BlogStudio/Post.cs:250 | as written, true iff the other post is non-null, whatever its title and date |
| Entities.PostEqualsObjectAsWritten | BlogStudio/Post.cs:249-250 | as written, `Equals(object)` hands a post to the typed `Equals` as written, so it is true iff the object is a post, whatever its identity |
| Entities.PostEqualsObject | BlogStudio/Post.cs:249 | corrected `Equals(object)` (Findings row 1): true iff the object is a post with the same identity |
| Entities.PostEqualsIsKeyEquivalence | BlogStudio/Post.cs:249-251 | the corrected post equality is reflexive, symmetric and transitive, and holds iff the two keys (title, creation date) are equal |
| Entities.PostEqualsAsWrittenIgnoresIdentity | BlogStudio/Post.cs:250 | as written, two posts with different titles and dates compare equal |
| Entities.LayoutEquals | BlogStudio/Layout.cs:61 | layouts are equal iff the other one is non-null with the same name |
| Entities.LayoutEqualsObject | BlogStudio/Layout.cs:60 | `Equals(object)` is true iff the object is a layout of the same name |
| Entities.FragmentEquals | BlogStudio/Fragment.cs:46 | fragments are equal iff the other one is non-null with the same name |
| Entities.FragmentEqualsObjectAsWrittenIsBroken | BlogStudio/Fragment.cs:45 | as written, `Equals(object)` is false for a fragment compared with itself, although the typed `Equals` is true; for a layout argument it never returns |
| Entities.FragmentEqualsObjectAsWritten | BlogStudio/Fragment.cs:45 | as written: a layout argument never returns (an error here); any other object gives false |
| Entities.FragmentEqualsObject | BlogStudio/Fragment.cs:45 | corrected `Equals(object)`: true iff the object is a fragment with the same name |
| Entities.FragmentEqualsObjectConsistent | BlogStudio/Fragment.cs:45-46 | the corrected override is reflexive and symmetric, holds iff the names are equal, and never equates a fragment with a layout |
| Text.TrimIdempotent | BlogStudio/Helpers.cs:62-63 | trimming a trimmed string changes nothing |
| Text.TrimFramed | BlogStudio/Helpers.cs:62-63 | `Trim()` leaves a string that neither starts nor ends with white space and that sits in the input between a prefix and a suffix made only of white space |
| Text.Split | BlogStudio/Post.cs:89 | `Split("-")` gives at least one piece, and no piece contains the separator |
| Text.JoinSplit | BlogStudio/Post.cs:89 | joining the pieces of a split with the separator gives the original string back |
| Text.SplitJoin | BlogStudio/Post.cs:89 | splitting a join of separator-free pieces gives the pieces back |
| Text.ParseInt | BlogStudio/Post.cs:92 | `int.Parse` yields a 32-bit value or fails with a format or overflow error; a character other than a digit, a sign or white space makes it a format error; a plain run of digits yields its decimal value, or Overflow above `Int32.MaxValue` |
| Text.ParseIntRejects | BlogStudio/Post.cs:92 | a character that is not a digit, a sign or white space, at any position, makes the text a format error |
| Text.ParseIntSigned | BlogStudio/Post.cs:92 | a leading `+` keeps a digit run's value; a leading `-` negates it, with Overflow below `Int32.MinValue` |
| Text.ParseIntWhiteAround | BlogStudio/Post.cs:92 | white space before or after the text does not change the result |
| Text.ParseIntSameStrip | BlogStudio/Post.cs:92 | two texts with the same content between their surrounding white space parse alike |
| Text.FormatDValue | BlogStudio/Post.cs:93 | `n.ToString("Dw")` denotes n |
| Text.FormatDLength | BlogStudio/Post.cs:93 | `n.ToString("Dw")` has exactly w characters when n has at most w digits |
| Text.ParseFormatD | BlogStudio/Post.cs:92-93 | parsing a zero-padded number gives the number back |
| Text.FormatD | BlogStudio/Post.cs:93 | `n.ToString("Dw")` is a non-empty run of digits at least w characters long |
| Paths.Combine | BlogStudio/Post.cs:93 | `Path.Combine(a, b)` inserts one separator between a directory and a relative name, gives a rooted `b` unchanged, and always ends with `b` |
| Paths.FileName | BlogStudio/Post.cs:88 | the file name is the part of the path after its last separator: a suffix of the path, with no separator, preceded by a separator when shorter than the path |
| Paths.FileNameWithoutExtension | BlogStudio/Post.cs:88 | the file name without its last extension: the whole file name when it has no dot, otherwise its part before the last dot; never a separator |
| Paths.DirectoryName | BlogStudio/Post.cs:109 | null for an empty path, "" for a bare name, otherwise the part before the last separator, with `/` for a file in the root and null for the root itself |
| Paths.FileNameOfCombine | BlogStudio/Post.cs:120 | `dir/name` has file name `name` and directory name `dir` |
| Paths.WithoutExtension | BlogStudio/Post.cs:88 | `Path.GetFileNameWithoutExtension("dir/name.ext")` is `name` |
| Paths.WithoutExtensionBare | BlogStudio/Post.cs:95 | a name without separator or dot is its own file name without extension |
| Paths.DirChainParent | BlogStudio/Post.cs:110 | the ancestors of a directory's parent are among the directory's own ancestors |
| FileSystem.CreateDirectory | BlogStudio/Post.cs:110 | the directory and all its ancestors exist afterwards, no other directory is created, and no file changes |
| FileSystem.DeleteFileIfExists | BlogStudio/Post.cs:119 | `if (File.Exists(p)) File.Delete(p)` removes exactly that file; a null path changes nothing |
| FileSystem.WriteAllText | BlogStudio/Post.cs:228 | the write succeeds iff the path is non-empty, is not a directory, and its parent exists; then the file holds exactly the text |
| FileSystem.ReadAllText | BlogStudio/Post.cs:36 | the read succeeds iff the file exists under an existing directory, and it yields the file's text |
| FileSystem.DeleteFile | BlogStudio/Watch.cs:123 | `File.Delete` removes that file and nothing else |
| FileSystem.CopyFile | BlogStudio/Watch.cs:119 | `File.Copy` gives the target the source's text; it fails for a missing source, and without overwrite it fails on an existing target |
| FileSystem.MoveFile | BlogStudio/Watch.cs:131 | `File.Move` fails exactly when the matching `File.Copy` would; otherwise the target holds the source's text, the source is gone unless it is the target, and nothing else changes |
| Caches.Site.constructor | BlogStudio/Program.cs:17-19 | the three caches start empty and keyed |
| Helpers.Apply | BlogStudio/Helpers.cs:35-38 | the i-th replacement is the replacement function applied to the i-th match |
| Helpers.ReplaceAsync | BlogStudio/Helpers.cs:30-45 | the loop's output is the splice of the replacements into the input; the replacement function is called once per match, left to right; with no match the output is the input |
| Helpers.SplicedFromOwnText | BlogStudio/Helpers.cs:37-43 | induction step: replacing each match by its own text rebuilds the input from any start position |
| Helpers.SplicedOwnText | BlogStudio/Helpers.cs:37-43 | if every replacement returns its matched text, the output equals the input |
| Helpers.SplicedFromLength | BlogStudio/Helpers.cs:37-43 | induction step of the length law, from any start position |
| Helpers.SplicedLength | BlogStudio/Helpers.cs:37-43 | output length = input length - total match length + total replacement length |
| Helpers.Gaps | BlogStudio/Helpers.cs:37-43 | there is one gap more than there are matches |
| Helpers.SplicedFromGaps | BlogStudio/Helpers.cs:37-43 | induction step of the interleaving law, from any start position |
| Helpers.SplicedGaps | BlogStudio/Helpers.cs:37-43 | the output is the text outside the matches, verbatim and in order (tail included), interleaved with the replacements |
| Helpers.CheckFolderEmpty | BlogStudio/Helpers.cs:15-29 | an empty path is an ArgumentNull error and a missing directory a DirectoryNotFound error; otherwise the result is true iff the directory has no file and no sub-directory |
| Helpers.WrittenFolderNotEmpty | BlogStudio/Helpers.cs:22-25 | a directory a file was just written into is not empty |
| Helpers.CreatedFolderEmpty | BlogStudio/Helpers.cs:22-25 | a directory just created in an empty tree is empty |
| Helpers.SeparateMetaAndContent | BlogStudio/Helpers.cs:56-67 | no match: (null, content unchanged); a match: both groups trimmed, and trimming them again changes nothing |
| Helpers.Props | BlogStudio/Helpers.cs:100-108 | the property dictionary has exactly one key per distinct trimmed capture key |
| Helpers.CollectProps | BlogStudio/Helpers.cs:97-109 | the capture loop builds exactly the property dictionary |
| Helpers.PropsLastWins | BlogStudio/Helpers.cs:105 | a key's value comes from the last capture with that key |
| Helpers.QuotedPropValue | BlogStudio/Helpers.cs:102-105 | the capture `key="word"` is stored under `key` as `word`, without its quotes |
| Helpers.FindFragment | BlogStudio/Helpers.cs:89 | a found fragment carries the name; none is found iff no fragment has the name |
| Helpers.EmbedVariablesAllFailing | BlogStudio/Helpers.cs:143-146 | when every expression throws, each token becomes "" and the text around the tokens is kept in order; the failure never propagates |
| Helpers.EmbedVariables | BlogStudio/Helpers.cs:124-148 | the text outside the expression tokens is kept verbatim and in order, and each token becomes its expression's value, or "" when evaluation throws |
| Helpers.EmbedToken | BlogStudio/Helpers.cs:88-120 | corrected token replacement: "" for an unknown fragment; otherwise the fragment's own text, with its expressions evaluated under the token's properties |
| Helpers.EmbedTokenAsWritten | BlogStudio/Helpers.cs:88-120 | as written: "" for an unknown fragment; for a known one the whole input `content`, with its expressions evaluated under the token's properties |
| Helpers.EmbedFragmentsAsWritten | BlogStudio/Helpers.cs:84-122 | as written: the text outside the fragment tokens is kept in order, and each token is replaced as `EmbedTokenAsWritten` says |
| Helpers.EmbedFragments | BlogStudio/Helpers.cs:84-122 | corrected: the text outside the fragment tokens is kept in order, and each token becomes its fragment's rendered text, or "" |
| Helpers.EmbedFragmentsNoneKnown | BlogStudio/Helpers.cs:113-120 | tokens naming unknown fragments vanish, and the text between them is kept |
| Helpers.EmbedFragmentsAsWrittenEchoesInput | BlogStudio/Helpers.cs:111 | as written, the token `{% f %}` with fragment f = "x" is replaced by the whole input `{% f %}`; the corrected version gives "x" |
| Posts.ParseDate | BlogStudio/Post.cs:92 | the pieces are parsed in order year, month, day, and the first failure is the error; three parsed pieces give `new DateOnly(y, m, d)`, a valid date or a range error |
| Posts.ParsePostPath | BlogStudio/Post.cs:86-103 | on success, the output path is null iff the static-path flag is set, and a non-null output ends in `.html`; with fewer than 4 hyphen pieces: no output path, the file's creation date, the whole base name as title, static path required |
| Posts.CombineEndsWith | BlogStudio/Post.cs:95 | the dated output path ends with `.html` |
| Posts.DateDirSpelled | BlogStudio/Post.cs:93 | the date directory is `publish/YYYY/MM/DD` with zero-padded parts |
| Posts.DatedPartsPlain | BlogStudio/Post.cs:89 | the pieces of a dated name contain no hyphen, separator or dot |
| Posts.NamePieces | BlogStudio/Post.cs:88-89 | the hyphen split of `dir/p1-...-pn.ext` is p1, ..., pn |
| Posts.DatedPartsDate | BlogStudio/Post.cs:92 | zero-padded date pieces parse back to the date, or to its range error |
| Posts.DatedOutput | BlogStudio/Post.cs:94-95 | the output file is the rest of the name joined without hyphens, plus `.html`, in the date directory |
| Posts.ParseDatedName | BlogStudio/Post.cs:89-95 | proof step of `Posts.DatedPostPath`: the dated branch of the path parse, reached once the first three pieces parse to a date |
| Posts.DatedName | BlogStudio/Post.cs:88-92 | a dated file name splits into its pieces, and those pieces parse to its date |
| Posts.DatedOutputSpelled | BlogStudio/Post.cs:93-95 | a dated post's output path is `publish/YYYY/MM/DD/<rest>.html`, and its title is `<rest>` |
| Posts.DatedPostPath | BlogStudio/Post.cs:86-96 | `dir/YYYY-MM-DD-p1-...-pn.ext` maps to `publish/YYYY/MM/DD/p1...pn.html`, created on that date, titled `p1...pn`, with the static-path flag false |
| Posts.HelloWorldPostPath | BlogStudio/Post.cs:89-95 | `posts/2024-01-02-hello-world.md` maps to `publish/2024/01/02/helloworld.html`, dated 2024-01-02, titled `helloworld` |
| Posts.MonthOutOfRange | BlogStudio/Post.cs:92 | a month of 13 is a date-range error |
| Posts.NonNumericDate | BlogStudio/Post.cs:92 | a character other than a digit, a sign or white space in any of the three date pieces makes the date fail, with a format error when the earlier pieces parse |
| Posts.NonNumericPiece | BlogStudio/Post.cs:88-92 | the same for a file name with four or more hyphen pieces: `ParsePostPath` fails, with a format error when the earlier pieces parse |
| Posts.ResolveOutputPath | BlogStudio/Post.cs:51-58 | a date-derived path wins; otherwise `publish/<staticPath>`; if neither exists, the "specify `staticPath`" error |
| Posts.PostFromText | BlogStudio/Post.cs:40-71 | input path, title and creation date always come from the path; with front matter the metadata must deserialise to a non-null value, the layout is the metadata's or the default, `updatedAt` and `staticPath` come from the metadata, there is an output path and the content is the trimmed body; without front matter the content is the whole text, the layout is the default, and reading fails iff the path does not parse |
| Posts.ReadMetadata | BlogStudio/Post.cs:44-45 | blank front matter gives an empty post (`new()`); anything else is exactly what the deserialiser returns, null or an error included |
| Posts.LayoutOrDefault | BlogStudio/Post.cs:71 | the metadata's layout, else `Config.DefaultLayout`, else `EmptyLayout` |
| Posts.ReadPost | BlogStudio/Post.cs:34-84 | a read failure propagates; otherwise the post is built from the file's text |
| Posts.NeedsStaticPath | BlogStudio/Post.cs:51-58 | front matter with no static path and an undated name gives the "specify `staticPath`" error |
| Posts.StaticPathPost | BlogStudio/Post.cs:47-71 | an undated post with front matter is published at `publish/<staticPath>`, titled with its base name and dated by its creation time, with the metadata's layout or the default |
| Posts.NullMetadata | BlogStudio/Post.cs:45 | front matter that deserialises to null fails with a null dereference |
| Posts.PlainPost | BlogStudio/Post.cs:59-71 | a post without front matter and without a configuration takes `EmptyLayout` |
| Posts.PostUpsert | BlogStudio/Post.cs:112-131 | a post with a known identity overwrites only the cached entry's content, title and output path, keeping its layout, input path and dates; an unknown identity is inserted; other entries are unchanged |
| Posts.PartialUpsert | BlogStudio/Post.cs:113-125 | if the cleanup throws, the cached entry has the new content and title but the old output path |
| Posts.PostUpsertKeyed | BlogStudio/Post.cs:112-131 | the post cache stays keyed by identity |
| Posts.PostUpsertIdempotent | BlogStudio/Post.cs:113-127 | upserting the same post twice is the same as upserting it once |
| Posts.PostUpsertCached | BlogStudio/Post.cs:113-127 | re-handling the cached post leaves the cache unchanged |
| Posts.PostUpsertSize | BlogStudio/Post.cs:113-131 | a new identity adds one entry; a known identity adds none |
| Posts.SameIdentitySameEntry | BlogStudio/Post.cs:113-131 | two posts with the same title and date share one entry whatever their input paths: the second post's content wins, and the first keeps its input path |
| Posts.PrepareOutputDir | BlogStudio/Post.cs:108-110 | the output directory exists afterwards and no file changes; a null path, or one without a directory part, changes nothing; the directory name "" of a bare file name is an error, and the only one |
| Posts.RemoveStale | BlogStudio/Post.cs:117-125 | the old output file is deleted; only its own directory can disappear, and it does iff that directory is then empty; a null old path is an ArgumentNull error |
| Posts.Cleanup | BlogStudio/Post.cs:117-125 | nothing happens unless a cached post with that identity had a different output path; then the old output is removed as `RemoveStale` states |
| Posts.EnsureParent | BlogStudio/Post.cs:228 | the output's parent directory exists afterwards; no file changes |
| Posts.WriteOutput | BlogStudio/Post.cs:228 | the corrected write succeeds iff the output path is set and is not a directory; the page is then at the output path, in an existing directory, and no other file changes |
| Posts.WriteOutputAsWritten | BlogStudio/Post.cs:228 | `File.WriteAllTextAsync` as written succeeds iff the output path is set, non-empty, not a directory, and its parent exists; then only that file changes; wherever it succeeds the corrected write gives the same files |
| Posts.ReplaceOutputAsWritten | BlogStudio/Post.cs:108-228 | directory creation, cleanup and write as written; wherever this succeeds the corrected sequence succeeds with the same files |
| Posts.ReplaceOutput | BlogStudio/Post.cs:108-228 | the same sequence with the corrected write: on success the page is at the new output path, whose parent exists, and the old output is gone when it was elsewhere |
| Posts.PreparedDirEmptied | BlogStudio/Post.cs:108-125 | creating the output directory leaves the old one, which is also the new one, empty once the old file is deleted |
| Posts.StaleDirRemoved | BlogStudio/Post.cs:119-124 | deleting the only file of a directory makes the cleanup remove that directory |
| Posts.ReplaceOutputAsWrittenLosesDirectory | BlogStudio/Post.cs:108-228 | as written, a post moving within a directory that held only its old file fails with DirectoryNotFound |
| Posts.ReplaceOutputKeepsDirectory | BlogStudio/Post.cs:108-228 | in the same situation the corrected write publishes the page, removes the old file and leaves the directory in place |
| Posts.EmbedPostToken | BlogStudio/Post.cs:142-201 | a token naming an unknown fragment is replaced by ""; a known fragment's text is kept verbatim and in order outside its expression tokens, and each expression, its `props.x` rewritten, becomes its value under the globals plus the token's properties, or "" when it throws |
| Posts.PostHtml | BlogStudio/Post.cs:135-137 | `.md` and `.markdown` inputs go through Markdig; any other input is used as is |
| Posts.Render | BlogStudio/Post.cs:139-226 | a layout without fragment tokens goes straight to the variable pass over its own content, with the post's globals |
| Posts.RenderSplice | BlogStudio/Post.cs:139-226 | the page is the variable pass, under the post's globals, over the layout's text outside the fragment tokens, kept in order and interleaved with each token's embedded fragment |
| Posts.RenderPlainLayout | BlogStudio/Post.cs:142-226 | a layout with no fragment token and no expression is published verbatim |
| Posts.PostChangeDone | BlogStudio/Post.cs:106-235 | a call that completes leaves the upserted post in the cache and the page, rendered with the updated cache, at the output path inside an existing directory |
| Posts.PostChangeFrame | BlogStudio/Post.cs:106-235 | whatever the outcome, no file other than the new and the old output is touched, and no file appears except at the new output path |
| Posts.PostChangeAddsOnlyOutput | BlogStudio/Post.cs:106-235 | whatever the outcome, no file appears except at the post's output path |
| Posts.PostChangeMissingLayout | BlogStudio/Post.cs:133-142 | a post whose layout is not cached fails with a null dereference after the cache was updated |
| Posts.PostChangeKeyed | BlogStudio/Post.cs:112-131 | the post cache stays keyed whatever the outcome |
| Posts.PostChangeCached | BlogStudio/Post.cs:113-127 | re-handling the cached post leaves the cache as it was |
| Posts.PostChange | BlogStudio/Post.cs:106-235 | with the corrected write (Findings row 3): the post cache is left as it was, upserted, or partially upserted when the cleanup throws; a completed call has the layout cached and the full upsert; a failed directory creation changes neither the cache nor the files |
| Posts.UpdatePostCache | BlogStudio/Post.cs:112-131 | the in-place cache update and cleanup reach the state `PostUpsert` (or `PartialUpsert` when the cleanup throws) and `Cleanup` describe |
| Posts.RenderPost | BlogStudio/Post.cs:135-226 | the fragment pass followed by the variable pass produces `Render` |
| Posts.HandlePostChange | BlogStudio/Post.cs:106-235 | with the corrected write (Findings row 3): the method reaches the caches, file system and outcome that `PostChange` describes, logs the post once, and leaves layouts and fragments alone |
| Layouts.FragmentNamesSnoc | BlogStudio/Layout.cs:17-21 | one more match adds exactly its group-1 name |
| Layouts.FragmentNamesBound | BlogStudio/Layout.cs:16-21 | duplicates collapse: no more names than matches, and none without matches |
| Layouts.ReadLayout | BlogStudio/Layout.cs:12-23 | name = file name without extension, content = the whole file, dependencies = exactly the set of group-1 names of all matches; a read failure propagates |
| Layouts.CollectFragmentNames | BlogStudio/Layout.cs:16-21 | the loop over the matches collects exactly their group-1 names |
| Layouts.LayoutUpsert | BlogStudio/Layout.cs:27-35 | the entry's content and dependencies are replaced, not merged; an unknown name is added; other layouts are unchanged |
| Layouts.LayoutUpsertReplaces | BlogStudio/Layout.cs:27-35 | in a keyed cache the upsert is `layouts[name := layout]`, the cache stays keyed, exactly one layout has the name, and re-handling the cached layout changes nothing |
| Layouts.PostsUsing | BlogStudio/Layout.cs:37 | exactly the cached posts whose layout equals the name |
| Layouts.PostChangeNeedsLayout | BlogStudio/Post.cs:133-142 | handling a post whose layout is not cached always fails |
| Layouts.PostChangeKeeps | BlogStudio/Layout.cs:39 | handling a cached post again changes the file system only at that post's output: other files keep their text and no other file appears |
| Layouts.ChangedOnlyAtTrans | BlogStudio/Layout.cs:37-40 | two steps that each change files only at their posts' outputs together change files only at the outputs of both |
| Layouts.RehandlePost | BlogStudio/Layout.cs:39 | handling a cached post again logs it once and leaves the caches unchanged; the file system and the completion flag are exactly those of `PostChange` on the cached post, so files change only at its output; it fails if its layout is missing |
| Layouts.RehandlePosts | BlogStudio/Layout.cs:37-40 | every post using the layout is handled exactly once and no other post is; the failures are among them, and all of them fail when the layout is absent; files change only at the outputs of those posts |
| Layouts.HandleLayoutChange | BlogStudio/Layout.cs:24-45 | the layout cache becomes the upsert; posts and fragments are unchanged; exactly the posts using the layout are handled, once each; files change only at their outputs |
| Fragments.ReadFragment | BlogStudio/Fragment.cs:27-32 | name = file name without extension (so without separator), content = the file's text; a read failure propagates with its error |
| Fragments.ReadFragmentNamed | BlogStudio/Fragment.cs:29-31 | `dir/name.ext` is read as the fragment `name` with the file's text |
| Fragments.FragmentUpsert | BlogStudio/Fragment.cs:14-20 | a known name has only its content overwritten; an unknown name is added; other fragments are unchanged |
| Fragments.FragmentUpsertReplaces | BlogStudio/Fragment.cs:14-20 | in a keyed cache the upsert is `fragments[name := fragment]`, the cache stays keyed, and re-handling the cached fragment changes nothing |
| Fragments.LayoutsUsing | BlogStudio/Fragment.cs:22 | exactly the cached layouts whose dependencies contain the name |
| Fragments.PostsOfLayouts | BlogStudio/Fragment.cs:22-25 | exactly the cached posts whose layout is one of the given names |
| Fragments.PostsOfOneMore | BlogStudio/Fragment.cs:22-25 | one post has one layout, so the post sets of different layouts are disjoint and add up |
| Fragments.RehandleLayout | BlogStudio/Fragment.cs:24 | handling a cached layout again leaves every cache unchanged and appends one block that holds each post of that layout once; files change only at those posts' outputs |
| Fragments.RehandleLayouts | BlogStudio/Fragment.cs:22-25 | across the layouts, every post of those layouts is handled exactly once and no other post is; files change only at those posts' outputs |
| Fragments.HandleFragmentChanged | BlogStudio/Fragment.cs:12-26 | the fragment cache becomes the upsert, and exactly the posts behind the layouts that depend on the fragment are handled, once each; posts behind unrelated layouts are not handled, and their output files, like every file that is no output of a handled post, keep their text |
| Watch.PostsNotAt | BlogStudio/Watch.cs:28 | `RemoveWhere` keeps exactly the posts whose output path differs, and keeps them unchanged |
| Watch.PostsNotAtKeyed | BlogStudio/Watch.cs:28 | the remaining post cache stays keyed |
| Watch.FragmentsNotNamed | BlogStudio/Watch.cs:61 | keeps exactly the fragments with another name |
| Watch.LayoutsNotNamed | BlogStudio/Watch.cs:97 | keeps exactly the layouts with another name |
| Watch.RemoveByName | BlogStudio/Watch.cs:58-105 | in a keyed cache, removing by name removes exactly that key |
| Watch.UndatedRemoval | BlogStudio/Watch.cs:26-28 | for an undated file name the computed path is null, so every post with a real output path stays and only path-less posts are removed |
| Watch.PostChanged | BlogStudio/Watch.cs:17-22 | events other than Changed are ignored; a read failure changes nothing; otherwise the post is read and handled |
| Watch.ForgetPostAt | BlogStudio/Watch.cs:26-29 | drops the posts at the computed output path and deletes that file; a parse error changes nothing |
| Watch.RemovePostsAt | BlogStudio/Watch.cs:28-29 | `RemoveWhere` followed by delete-if-exists, leaving layouts, fragments and the log alone |
| Watch.PostRenamed | BlogStudio/Watch.cs:24-32 | removes the posts at the old name's output path and deletes that file first, then reads the new file and handles it |
| Watch.PostDeleted | BlogStudio/Watch.cs:36-41 | removes exactly the posts at the computed path and deletes that file, the file system being exactly `DeleteFileIfExists` of the old one (unchanged for a null path); no directory is pruned; layouts and fragments are untouched; nothing is handled |
| Watch.FragmentChanged | BlogStudio/Watch.cs:53-57 | a read fragment is handled as `HandleFragmentChanged` states, files changing only at the handled posts' outputs; a read failure changes nothing |
| Watch.FragmentDeleted | BlogStudio/Watch.cs:58-69 | the fragment with that name is removed, then exactly the posts behind the layouts depending on it are handled, once each; files change only at their outputs |
| Watch.LayoutChanged | BlogStudio/Watch.cs:88-92 | the read layout is upserted and exactly the posts using it are handled, files changing only at their outputs; a read failure changes nothing |
| Watch.LayoutDeleted | BlogStudio/Watch.cs:94-105 | the layout with that name is removed, then every post using it is handled once, and every one of those fails; files change only at their outputs |
| Watch.AssetTarget | BlogStudio/Watch.cs:119 | the target is out of range iff the path is shorter than the asset directory plus a separator |
| Watch.AssetTargetRelative | BlogStudio/Watch.cs:119 | `assetPath/rel` lands at `publish/rel` |
| Watch.AssetChanged | BlogStudio/Watch.cs:117-120 | the asset's text is copied over its target, and nothing else changes |
| Watch.AssetDeleted | BlogStudio/Watch.cs:121-124 | exactly the target is deleted |
| Watch.AssetCreated | BlogStudio/Watch.cs:125-128 | the asset is copied to a free target; an existing target is an error |
| Watch.AssetRenamed | BlogStudio/Watch.cs:129-132 | corrected: on success both targets are in range, the old target's text is at the new target, the old target is gone unless it is the new one, and nothing else changes |
| Watch.AssetRenamedAsWritten | BlogStudio/Watch.cs:129-132 | as written: a new path shorter than 8 characters is an out-of-range error; on success the old target's file moves to `publish/` plus the new path without its first 8 characters, and nothing else changes |
| Watch.AssetRenamedRelative | BlogStudio/Watch.cs:131 | renaming `assetPath/a` to `assetPath/b` moves `publish/a` to `publish/b` |
| Watch.AssetRenamedAgreesAtSeven | BlogStudio/Watch.cs:131 | `Substring(8)` agrees with the other handlers when the asset directory's name has seven characters |
| Watch.AssetRenamedAsWrittenMisplaces | BlogStudio/Watch.cs:131 | with asset directory `assets`, renaming `assets/a.css` to `assets/b.css` moves the output to `publish/.css`, whereas the corrected handler moves it to `publish/b.css` |
| Watch.DisposableBag.constructor | BlogStudio/Watch.cs:148-151 | the bag holds the given disposables and nothing is disposed yet |
| Watch.DisposableBag.AddTo | BlogStudio/Watch.cs:153-156 | appends the item |
| Watch.DisposableBag.Dispose | BlogStudio/Watch.cs:158-162 | disposes every item once, in insertion order |
| Watch.WatchAll | BlogStudio/Watch.cs:12-142 | returns a fresh bag holding the four watchers (posts, fragments, layouts, assets) in creation order |
| Expando.Lookup | BlogStudio/IndexableExpandoObject.cs:20 | the stored value, or null for an absent name |
| Expando.IndexKey | BlogStudio/IndexableExpandoObject.cs:36 | an index call has a key iff it has exactly one index and that index is a string |
| Expando.LookupAfterStore | BlogStudio/IndexableExpandoObject.cs:20-28 | a get after a set of the same key returns the stored value; other keys are unaffected |
| Expando.IndexableExpandoObject.constructor | BlogStudio/IndexableExpandoObject.cs:13-14 | the dictionary starts empty |
| Expando.IndexableExpandoObject.TryGetMember | BlogStudio/IndexableExpandoObject.cs:17-22 | always succeeds, with the stored value or null |
| Expando.IndexableExpandoObject.TrySetMember | BlogStudio/IndexableExpandoObject.cs:25-30 | stores or overwrites the name, returns true, and changes no other key |
| Expando.IndexableExpandoObject.TrySetIndex | BlogStudio/IndexableExpandoObject.cs:33-39 | anything but one string index is an ArgumentException and leaves the dictionary as it was; otherwise it stores the value under that key |
| Expando.IndexableExpandoObject.TryGetIndex | BlogStudio/IndexableExpandoObject.cs:42-48 | anything but one string index is an ArgumentException; otherwise it returns the stored value or null |
| Expando.SharedDictionary | BlogStudio/IndexableExpandoObject.cs:13-48 | a value set by name is read back by index, and a value set by index is read back by name |

## Left out

- Concurrency: `Parallel.ForEachAsync` and `Task.WhenAll` (BlogStudio/Layout.cs:37, BlogStudio/Fragment.cs:22, BlogStudio/Watch.cs:62, BlogStudio/Watch.cs:98) are modelled as a sequential loop over the dependent set, in an unspecified order. A failing handler is recorded in the returned `failed` set, and the loop carries on with the other posts. The real `Parallel.ForEachAsync` may stop scheduling new items after the first exception. Interleavings of concurrent `HandlePostChange` calls on the shared caches are not modelled.
- Debouncing and event delivery: Rx `Throttle`, the `FileSystemWatcher` objects, their notify filters and the event adapters are timers and event sources. Each handler is modelled as one method run for one event.
- Console output: the warnings and status lines printed under `ConsoleLockObj`, including ReadPost's missing-layout warning (BlogStudio/Post.cs:73-80), are not modelled.
- Foreign code: regular-expression matching, Markdig, the C# script evaluator, the `props.x` rewrite and JSON deserialisation are uninterpreted fields of `Env`. Only the regex guarantees the code relies on (ordered, in-range, non-overlapping matches, and the shape of property captures) are assumed.
- Helpers.Props: only quoted property values are modelled. The `int.TryParse` / `float.TryParse` branches (BlogStudio/Helpers.cs:106-107, BlogStudio/Post.cs:162-163) are floating point and are left out; the property captures are assumed to have the quoted shape FragmentPropsRegex matches.
- Helpers.EmbedToken: the `match.Captures.Count == 2` branch (BlogStudio/Helpers.cs:91-94, BlogStudio/Post.cs:147-150) is left out, since a .NET `Match` always has exactly one capture. The loop over `match.Groups` runs once for FragmentRegex's two groups and is modelled as a single pass.
- Posts.EmbedPostToken: the script value's conversion to text (a string, lines joined with the platform newline, or `ToString()`) is part of the uninterpreted evaluator.
- Posts.ParsePostPath: the creation time of an undated post's file is a parameter (`Env.creationDate`). `File.GetCreationTime` is a clock.
- Configuration and paths: `Config`, `EmptyLayout`, `PostPath`, `FragmentPath`, `LayoutPath` and `AssetPath` are defined outside the modelled files. `Config?.DefaultLayout` and `EmptyLayout` are `Env` fields, and the asset directory is a parameter of the asset handlers. `OutDir` is the constant `publish` (BlogStudio/Program.cs:15).
- File system: it is a value with `/` as the only separator. Drive letters, back-slashes, attributes, permissions and I/O errors beyond missing files and directories are not modelled.
- `File.ReadAllTextAsync` and the other asynchronous calls are modelled as ordinary calls.
- Generate.cs `GenerateAsync`, Program.cs `Main` and its older inline watch handlers (which duplicate Watch.cs) are startup and bulk-load glue: directory enumeration, asset copying and waiting for Ctrl+C. They are not part of this model.
- src/main.rs (an older Rust generator), wwwroot/index.js (browser UI), BlogStudio/Page.cs (an unfinished `ReadPage`) and FileSystemWatcherExtensions.cs (event adapters) are not part of this model.
- Post.GetHashCode, Layout.GetHashCode and Fragment.GetHashCode: the caches are maps keyed by the identity that the typed `Equals` compares. Hash buckets are not modelled, and neither is the path by which the as-written `Post.Equals` could merge two posts whose hash codes collide.

- Posts.HandlePostChange: the model writes the page with the corrected `WriteOutput` (Findings row 3), which creates the output's parent before writing; `Posts.WriteOutputAsWritten` and `Posts.ReplaceOutputAsWritten` state that wherever the write as written succeeds, the corrected one gives the same files, and `Posts.ReplaceOutputAsWrittenLosesDirectory` shows where the two differ. The same holds for `Posts.PostChange`.
- Layouts.RehandlePosts: states which files may change (only the handled posts' outputs), not the text each output ends with; that is stated per post by `Layouts.RehandlePost` through `Posts.PostChange` and `Posts.PostChangeDone`, because the loop's order is unspecified and two posts may share an output path. The same holds for `Fragments.RehandleLayouts` and the handlers built on them.
- Paths.DirectoryName: repeated separators are not normalised. `Path.GetDirectoryName("a//b")` is "a", while the model gives "a/", and the file-system value treats "a/b" and "a//b" as different paths; a `staticPath` with a doubled separator therefore creates or prunes a directory spelled with a trailing separator.
- Text.IsWhiteSpace: `char.IsWhiteSpace` is modelled for Latin-1 only (space, tab to carriage return, U+0085, U+00A0); the other Unicode space separators and U+2028/U+2029, which `Trim()` also removes, are not.

## Findings

| source | as written | input that shows it | evidently intended | confidence | as-written member | corrected member |
|---|---|---|---|---|---|---|
| BlogStudio/Post.cs:250 | the pattern variable `post` is `other` itself, so `other` is compared with itself and the receiver is ignored; `Equals(object)` at line 249 delegates to it and inherits this (Entities.PostEqualsObjectAsWritten) | post "a" dated 2024-01-01 compared with post "b" dated 2024-01-02 is reported equal | equal iff title and creation date match those of `this` | not executed; high for the method, low impact because the HashSet compares hash codes first | Entities.PostEqualsAsWrittenIgnoresIdentity | Entities.PostEquals |
| BlogStudio/Fragment.cs:45 | `Equals(object)` tests `obj is Layout` | a fragment compared with itself as `object` is unequal; compared with a layout, `Equals(layout)` binds to `Equals(object)` again and recurses without end | `obj is Fragment fragment && Equals(fragment)` | not executed; high | Entities.FragmentEqualsObjectAsWrittenIsBroken | Entities.FragmentEqualsObject |
| BlogStudio/Post.cs:108-228 | the output directory is created before the stale-output cleanup, and the cleanup removes the old directory when it is empty, even if it is also the new one | a cached post at `publish/pages/about.html`, the only file of `publish/pages`, whose `staticPath` changes to `pages/me.html`: the cleanup deletes `publish/pages`, and the write throws DirectoryNotFound | the page is written in an existing directory, for example by creating the directory right before the write | not executed; medium | Posts.ReplaceOutputAsWrittenLosesDirectory | Posts.WriteOutput |
| BlogStudio/Helpers.cs:111 | a known fragment's token is replaced by the whole input `content`, with its expressions evaluated, instead of by the fragment's text | fragment f = "x" and content "{% f %}" gives "{% f %}" | the fragment's text, as the inlined copy in HandlePostChange uses at BlogStudio/Post.cs:168 | not executed; high (the method has no caller in the modelled files) | Helpers.EmbedFragmentsAsWrittenEchoesInput | Helpers.EmbedToken |
| BlogStudio/Watch.cs:131 | the new target cuts a fixed 8 characters off the path, unlike the `AssetPath.Length + 1` of the other asset handlers | asset directory `assets`, renaming `assets/a.css` to `assets/b.css`: `publish/a.css` moves to `publish/.css` | `Substring(AssetPath.Length + 1)` | not executed; medium (correct when the asset directory's name has 7 characters, such as the `wwwroot` of BlogStudio/Program.cs:85; AssetPath's value is not part of this model) | Watch.AssetRenamedAsWrittenMisplaces | Watch.AssetRenamed |
