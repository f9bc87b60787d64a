/** Helpers.cs: the match splicer ReplaceAsync, CheckFolderEmpty, SeparateMetaAndContent,
    fragment property parsing, and the EmbedFragments / EmbedVariables rewrites. */
module Helpers {
  import opened Wrappers
  import opened Text
  import opened Entities
  import opened FileSystem
  import opened Foreign

  // ------------------------------------------------------------------ ReplaceAsync

  /** The replacements `f` yields for `ms`, in match order. */
  function Apply(f: Match -> string, ms: seq<Match>): (r: seq<string>)
    ensures |r| == |ms|
    ensures forall i :: 0 <= i < |ms| ==> r[i] == f(ms[i])
  {
    seq(|ms|, i requires 0 <= i < |ms| => f(ms[i]))
  }

  lemma OrderedTail(ms: seq<Match>, from: nat, n: nat)
    requires Ordered(ms, from, n) && ms != []
    ensures from <= ms[0].index <= ms[0].End() <= n
    ensures Ordered(ms[1..], ms[0].End(), n)
  {
    forall i | 0 <= i < |ms| - 1
      ensures ms[0].End() <= ms[1..][i].index
    {
      assert ms[1..][i] == ms[i + 1];
    }
  }

  /** The text ReplaceAsync builds from position `from` on: each gap before a match copied
      verbatim, followed by that match's replacement, and finally the tail. */
  function SplicedFrom(input: string, ms: seq<Match>, reps: seq<string>, from: nat): string
    requires |reps| == |ms| && from <= |input| && Ordered(ms, from, |input|)
    decreases |ms|
  {
    if ms == [] then input[from..]
    else
      OrderedTail(ms, from, |input|);
      input[from..ms[0].index] + reps[0] + SplicedFrom(input, ms[1..], reps[1..], ms[0].End())
  }

  function Spliced(input: string, ms: seq<Match>, reps: seq<string>): string
    requires |reps| == |ms| && Ordered(ms, 0, |input|)
  {
    SplicedFrom(input, ms, reps, 0)
  }

  /** One step of the splice: the gap before match `i` and its replacement move from the
      part still to be built to the part already built. */
  lemma SplicedStep(input: string, ms: seq<Match>, reps: seq<string>, i: nat, from: nat, done: string)
    requires |reps| == |ms| && i < |ms| && from <= |input| && Ordered(ms[i..], from, |input|)
    ensures from <= ms[i].index <= ms[i].End() <= |input|
    ensures Ordered(ms[i + 1..], ms[i].End(), |input|)
    ensures done + SplicedFrom(input, ms[i..], reps[i..], from)
         == (done + input[from..ms[i].index] + reps[i]) + SplicedFrom(input, ms[i + 1..], reps[i + 1..], ms[i].End())
  {
    OrderedTail(ms[i..], from, |input|);
    assert ms[i..][1..] == ms[i + 1..] && reps[i..][1..] == reps[i + 1..];
  }

  /** Helpers.ReplaceAsync: walks the matches left to right, appending the text since the
      previous match and then the replacement; `calls` lists the arguments of the calls
      to the replacement function in the order they were made. */
  method ReplaceAsync(input: string, ms: seq<Match>, f: Match -> string) returns (output: string, calls: seq<Match>)
    requires Ordered(ms, 0, |input|)
    ensures output == Spliced(input, ms, Apply(f, ms))
    ensures calls == ms
    ensures ms == [] ==> output == input
  {
    ghost var reps := Apply(f, ms);
    var sb := "";
    var lastIndex: nat := 0;
    calls := [];
    for i := 0 to |ms|
      invariant lastIndex <= |input| && Ordered(ms[i..], lastIndex, |input|)
      invariant sb + SplicedFrom(input, ms[i..], reps[i..], lastIndex) == Spliced(input, ms, reps)
      invariant calls == ms[..i]
    {
      var m := ms[i];
      SplicedStep(input, ms, reps, i, lastIndex, sb);
      var r := f(m);
      sb := sb + input[lastIndex..m.index] + r;
      calls := calls + [m];
      lastIndex := m.End();
    }
    assert ms[|ms|..] == [];
    output := sb + input[lastIndex..];
  }

  /** Replacing every match by the text it matched gives the input back. */
  lemma {:induction false} SplicedFromOwnText(input: string, ms: seq<Match>, reps: seq<string>, from: nat)
    requires |reps| == |ms| && from <= |input| && Ordered(ms, from, |input|)
    requires forall i :: 0 <= i < |ms| ==> reps[i] == input[ms[i].index..ms[i].End()]
    ensures SplicedFrom(input, ms, reps, from) == input[from..]
    decreases |ms|
  {
    if ms != [] {
      OrderedTail(ms, from, |input|);
      SplicedFromOwnText(input, ms[1..], reps[1..], ms[0].End());
      assert input[from..ms[0].index] + input[ms[0].index..ms[0].End()] + input[ms[0].End()..] == input[from..];
    }
  }

  lemma SplicedOwnText(input: string, ms: seq<Match>, reps: seq<string>)
    requires |reps| == |ms| && Ordered(ms, 0, |input|)
    requires forall i :: 0 <= i < |ms| ==> reps[i] == input[ms[i].index..ms[i].End()]
    ensures Spliced(input, ms, reps) == input
  {
    SplicedFromOwnText(input, ms, reps, 0);
  }

  function TotalLength(ms: seq<Match>): nat {
    if ms == [] then 0 else ms[0].length + TotalLength(ms[1..])
  }

  function TotalSize(parts: seq<string>): nat {
    if parts == [] then 0 else |parts[0]| + TotalSize(parts[1..])
  }

  /** Output length = input length - total matched length + total replacement length. */
  lemma {:induction false} SplicedFromLength(input: string, ms: seq<Match>, reps: seq<string>, from: nat)
    requires |reps| == |ms| && from <= |input| && Ordered(ms, from, |input|)
    ensures |SplicedFrom(input, ms, reps, from)| + TotalLength(ms) == |input| - from + TotalSize(reps)
    decreases |ms|
  {
    if ms != [] {
      OrderedTail(ms, from, |input|);
      SplicedFromLength(input, ms[1..], reps[1..], ms[0].End());
    }
  }

  lemma SplicedLength(input: string, ms: seq<Match>, reps: seq<string>)
    requires |reps| == |ms| && Ordered(ms, 0, |input|)
    ensures |Spliced(input, ms, reps)| == |input| - TotalLength(ms) + TotalSize(reps)
  {
    SplicedFromLength(input, ms, reps, 0);
  }

  /** The i-th stretch of input outside the matches: before the first match, between two
      consecutive matches, or after the last one. */
  function Gap(input: string, ms: seq<Match>, from: nat, i: nat): string
    requires from <= |input| && Ordered(ms, from, |input|) && i <= |ms|
  {
    var start := if i == 0 then from else ms[i - 1].End();
    var end := if i == |ms| then |input| else ms[i].index;
    input[start..end]
  }

  function Gaps(input: string, ms: seq<Match>, from: nat): (r: seq<string>)
    requires from <= |input| && Ordered(ms, from, |input|)
    ensures |r| == |ms| + 1
  {
    seq(|ms| + 1, i requires 0 <= i <= |ms| => Gap(input, ms, from, i))
  }

  /** gaps[0] + reps[0] + gaps[1] + reps[1] + ... + gaps[n]. */
  function Interleave(gaps: seq<string>, reps: seq<string>): string
    requires |gaps| == |reps| + 1
  {
    if reps == [] then gaps[0] else gaps[0] + reps[0] + Interleave(gaps[1..], reps[1..])
  }

  /** ReplaceAsync's output is the text outside the matches, verbatim and in order,
      interleaved with the replacements. */
  lemma {:induction false} SplicedFromGaps(input: string, ms: seq<Match>, reps: seq<string>, from: nat)
    requires |reps| == |ms| && from <= |input| && Ordered(ms, from, |input|)
    ensures SplicedFrom(input, ms, reps, from) == Interleave(Gaps(input, ms, from), reps)
    decreases |ms|
  {
    if ms != [] {
      OrderedTail(ms, from, |input|);
      var g := Gaps(input, ms, from);
      var g' := Gaps(input, ms[1..], ms[0].End());
      forall k | 0 <= k < |ms|
        ensures g[1..][k] == g'[k]
      {
        assert g[1..][k] == Gap(input, ms, from, k + 1);
        if k > 0 {
          assert ms[1..][k - 1] == ms[k];
        }
        if k < |ms| - 1 {
          assert ms[1..][k] == ms[k + 1];
        }
      }
      assert g[1..] == g';
      SplicedFromGaps(input, ms[1..], reps[1..], ms[0].End());
    }
  }

  lemma SplicedGaps(input: string, ms: seq<Match>, reps: seq<string>)
    requires |reps| == |ms| && Ordered(ms, 0, |input|)
    ensures Spliced(input, ms, reps) == Interleave(Gaps(input, ms, 0), reps)
  {
    SplicedFromGaps(input, ms, reps, 0);
  }

  /** With every replacement empty, what is left is the text outside the matches. */
  lemma {:induction false} InterleaveEmpty(gaps: seq<string>, reps: seq<string>)
    requires |gaps| == |reps| + 1
    requires forall i :: 0 <= i < |reps| ==> reps[i] == ""
    ensures Interleave(gaps, reps) == Concat(gaps)
    decreases |reps|
  {
    if reps != [] {
      InterleaveEmpty(gaps[1..], reps[1..]);
    } else {
      assert gaps[1..] == [];
    }
  }

  // -------------------------------------------------------------- CheckFolderEmpty

  /** Helpers.CheckFolderEmpty: an empty path is refused, a missing directory is an error,
      otherwise the answer is whether the directory has no entries. */
  function CheckFolderEmpty(fs: Fs, path: string): (r: Result<bool>)
    ensures path == "" ==> r == Err(ArgumentNull)
    ensures path != "" && path !in fs.dirs ==> r == Err(DirectoryNotFound)
    ensures path != "" && path in fs.dirs ==> r == Ok(IsEmptyDir(fs, path))
    ensures r.Ok? ==> path in fs.dirs && (r.value <==> IsEmptyDir(fs, path))
  {
    if path == "" then Err(ArgumentNull)
    else if path in fs.dirs then Ok(IsEmptyDir(fs, path))
    else Err(DirectoryNotFound)
  }

  /** A directory a file has just been written into is not empty. */
  lemma WrittenFolderNotEmpty(fs: Fs, p: string, text: string, d: string)
    requires WriteAllText(fs, p, text).Ok?
    requires Paths.DirectoryName(p) == Some(d) && d != ""
    ensures CheckFolderEmpty(WriteAllText(fs, p, text).value, d) == Ok(false)
  {
    var fs' := WriteAllText(fs, p, text).value;
    assert p in fs'.files && InDir(p, d);
  }

  /** A directory just created under an empty tree is empty. */
  lemma CreatedFolderEmpty(d: string)
    requires d != ""
    ensures CheckFolderEmpty(CreateDirectory(Fs(map[], {}), d), d) == Ok(true)
  {
    var fs := CreateDirectory(Fs(map[], {}), d);
    forall e | e in fs.dirs
      ensures !InDir(e, d)
    {
      assert e in Paths.DirChain(d);
      assert |e| <= |d|;
    }
  }

  // -------------------------------------------------------- SeparateMetaAndContent

  /** Helpers.SeparateMetaAndContent: front matter and body, both trimmed, when PostRegex
      matches; otherwise no front matter and the content unchanged. */
  function SeparateMetaAndContent(env: Env, content: string): (r: (Option<string>, string))
    ensures r.0.None? <==> env.postMatch(content).None?
    ensures r.0.None? ==> r.1 == content
    ensures r.0.Some? ==> r.0.value == Trim(env.postMatch(content).value.0) && r.1 == Trim(env.postMatch(content).value.1)
    ensures r.0.Some? ==> Trim(r.0.value) == r.0.value && Trim(r.1) == r.1
  {
    match env.postMatch(content)
    case None => (None, content)
    case Some((meta, body)) =>
      TrimIdempotent(meta);
      TrimIdempotent(body);
      (Some(Trim(meta)), Trim(body))
  }

  // ------------------------------------------------------------- fragment properties

  /** The key of a property capture: the trimmed text before `=`. */
  function PropKey(c: string): string
    requires PropShaped(c)
  {
    Trim(Split(c, '=')[0])
  }

  /** The value of a property capture: the trimmed text after `=` without its quotes. */
  function PropText(c: string): string
    requires PropShaped(c)
  {
    var v := Trim(Split(c, '=')[1]);
    v[1..|v| - 1]
  }

  /** The property dictionary built from the captures, later keys overwriting earlier ones. */
  function Props(caps: seq<string>): (r: map<string, string>)
    requires forall i :: 0 <= i < |caps| ==> PropShaped(caps[i])
    ensures forall k :: k in r <==> exists i :: 0 <= i < |caps| && PropKey(caps[i]) == k
  {
    if caps == [] then map[]
    else
      var init := caps[..|caps| - 1];
      var last := caps[|caps| - 1];
      PropsInit(caps);
      Props(init)[PropKey(last) := PropText(last)]
  }

  lemma PropsInit(caps: seq<string>)
    requires forall i :: 0 <= i < |caps| ==> PropShaped(caps[i])
    requires caps != []
    ensures forall i :: 0 <= i < |caps| - 1 ==> caps[..|caps| - 1][i] == caps[i]
  {
  }

  /** The loop over the captures in EmbedFragments and HandlePostChange. */
  method CollectProps(caps: seq<string>) returns (props: map<string, string>)
    requires forall i :: 0 <= i < |caps| ==> PropShaped(caps[i])
    ensures props == Props(caps)
  {
    props := map[];
    for i := 0 to |caps|
      invariant props == Props(caps[..i])
    {
      assert caps[..i + 1][..i] == caps[..i];
      props := props[PropKey(caps[i]) := PropText(caps[i])];
    }
    assert caps[..|caps|] == caps;
  }

  /** A key's value is the value of the last capture with that key. */
  lemma {:induction false} PropsLastWins(caps: seq<string>, i: nat)
    requires forall j :: 0 <= j < |caps| ==> PropShaped(caps[j])
    requires i < |caps|
    requires forall j :: i < j < |caps| ==> PropKey(caps[j]) != PropKey(caps[i])
    ensures Props(caps)[PropKey(caps[i])] == PropText(caps[i])
    decreases |caps|
  {
    if i < |caps| - 1 {
      var init := caps[..|caps| - 1];
      assert init[i] == caps[i];
      forall j | i < j < |init|
        ensures PropKey(init[j]) != PropKey(init[i])
      {
        assert init[j] == caps[j];
      }
      PropsLastWins(init, i);
    }
  }

  /** A quoted property `key="word"` is stored under `key` with its quotes stripped. */
  lemma QuotedPropValue(key: string, word: string)
    requires '=' !in key && '=' !in word
    requires key == [] || (!IsWhiteSpace(key[0]) && !IsWhiteSpace(key[|key| - 1]))
    ensures PropShaped(key + "=\"" + word + "\"")
    ensures PropKey(key + "=\"" + word + "\"") == key
    ensures PropText(key + "=\"" + word + "\"") == word
  {
    var c := key + "=\"" + word + "\"";
    var v := Quoted(word);
    QuotedCapture(key, word);
    SplitAfterPiece(key, v, '=');
    SplitWithout(v, '=');
    assert Split(c, '=') == [key, v];
    TrimUntouched(v);
    TrimUntouched(key);
    assert Trim(Split(c, '=')[1]) == v;
    assert v[1..|v| - 1] == word;
  }

  /** The capture `key="word"` is the key, `=`, and the quoted word. */
  lemma QuotedCapture(key: string, word: string)
    requires '=' !in word
    ensures key + "=\"" + word + "\"" == key + ['='] + Quoted(word)
  {
    assert key + "=\"" + word + "\"" == key + ['='] + ("\"" + word + "\"");
  }

  function Quoted(word: string): (v: string)
    requires '=' !in word
    ensures v == "\"" + word + "\"" && |v| == |word| + 2
    ensures '=' !in v && v[0] == '"' && v[|v| - 1] == '"' && v[1..|v| - 1] == word
  {
    var v := "\"" + word + "\"";
    assert forall k :: 0 <= k < |v| ==> v[k] == (if k == 0 || k == |v| - 1 then '"' else word[k - 1]);
    v
  }

  // ------------------------------------------------------------ EmbedVariables

  /** A failed evaluation is replaced by the empty string. */
  function EvalOrEmpty(env: Env, expression: string, globals: Globals): string {
    env.evaluate(expression, globals).GetOr("")
  }

  /** The replacement function of the variable pass: each expression evaluated against
      `globals`. */
  function VariableReplacer(env: Env, globals: Globals): Match -> string {
    (m: Match) => EvalOrEmpty(env, m.group1, globals)
  }

  /** Helpers.EmbedVariables: the text outside the expression tokens is kept verbatim and in
      order, and each token is replaced by the value of its expression, or by "" when
      evaluating it throws. */
  function EmbedVariables(env: Env, content: string, globals: Globals): (r: string)
    requires ValidEnv(env)
    ensures var ms := env.expressionMatches(content);
      r == Interleave(Gaps(content, ms, 0), Apply(VariableReplacer(env, globals), ms))
  {
    var ms := env.expressionMatches(content);
    SplicedGaps(content, ms, Apply(VariableReplacer(env, globals), ms));
    Spliced(content, ms, Apply(VariableReplacer(env, globals), ms))
  }

  /** When every expression fails to evaluate, EmbedVariables drops the tokens and keeps
      the text around them, in order; the failures never surface. */
  lemma EmbedVariablesAllFailing(env: Env, content: string, globals: Globals)
    requires ValidEnv(env)
    requires forall m :: m in env.expressionMatches(content) ==> env.evaluate(m.group1, globals).None?
    ensures EmbedVariables(env, content, globals) == Concat(Gaps(content, env.expressionMatches(content), 0))
  {
    var ms := env.expressionMatches(content);
    var reps := Apply(VariableReplacer(env, globals), ms);
    forall i | 0 <= i < |reps|
      ensures reps[i] == ""
    {
      assert ms[i] in ms;
    }
    SplicedGaps(content, ms, reps);
    InterleaveEmpty(Gaps(content, ms, 0), reps);
  }

  // ------------------------------------------------------------ EmbedFragments

  /** The first fragment of the sequence with the given name. */
  function FindFragment(fragments: seq<Fragment>, name: string): (r: Option<Fragment>)
    ensures r.Some? ==> r.value in fragments && r.value.name == name
    ensures r.None? ==> forall i :: 0 <= i < |fragments| ==> fragments[i].name != name
  {
    if fragments == [] then None
    else if fragments[0].name == name then Some(fragments[0])
    else FindFragment(fragments[1..], name)
  }

  /** The globals a fragment's expressions see: the caller's, with the token's properties. */
  function WithProps(env: Env, globals: Globals, m: Match): Globals
    requires ValidEnv(env)
  {
    globals.(props := Some(Props(env.propCaptures(m.group2))))
  }

  /** The replacement of one fragment token in Helpers.EmbedFragments as written: for a known
      fragment it embeds the whole input `content` again rather than the fragment's text. */
  function EmbedTokenAsWritten(env: Env, fragments: seq<Fragment>, content: string, globals: Globals, m: Match): (r: string)
    requires ValidEnv(env)
    ensures FindFragment(fragments, m.group1).None? ==> r == ""
    ensures FindFragment(fragments, m.group1).Some? ==> r == EmbedVariables(env, content, WithProps(env, globals, m))
  {
    if FindFragment(fragments, m.group1).Some? then EmbedVariables(env, content, WithProps(env, globals, m))
    else ""
  }

  /** Helpers.EmbedFragments as written: the text outside the fragment tokens is kept, and
      each token is replaced as EmbedTokenAsWritten says. */
  function EmbedFragmentsAsWritten(env: Env, fragments: seq<Fragment>, content: string, globals: Globals): (r: string)
    requires ValidEnv(env)
    ensures var ms := env.fragmentMatches(content);
      r == Interleave(Gaps(content, ms, 0), Apply((m: Match) => EmbedTokenAsWritten(env, fragments, content, globals, m), ms))
  {
    var ms := env.fragmentMatches(content);
    SplicedGaps(content, ms, Apply((m: Match) => EmbedTokenAsWritten(env, fragments, content, globals, m), ms));
    Spliced(content, ms, Apply((m: Match) => EmbedTokenAsWritten(env, fragments, content, globals, m), ms))
  }

  /** The replacement of one fragment token as evidently intended: the named fragment's
      text with its expressions evaluated, or "" for an unknown fragment. */
  function EmbedToken(env: Env, fragments: seq<Fragment>, globals: Globals, m: Match): (r: string)
    requires ValidEnv(env)
    ensures FindFragment(fragments, m.group1).None? ==> r == ""
    ensures FindFragment(fragments, m.group1).Some? ==>
      r == EmbedVariables(env, FindFragment(fragments, m.group1).value.content, WithProps(env, globals, m))
  {
    match FindFragment(fragments, m.group1)
    case None => ""
    case Some(f) => EmbedVariables(env, f.content, WithProps(env, globals, m))
  }

  /** Helpers.EmbedFragments, corrected: the text outside the fragment tokens is kept
      verbatim and in order, and each token becomes its fragment's rendered text. */
  function EmbedFragments(env: Env, fragments: seq<Fragment>, content: string, globals: Globals): (r: string)
    requires ValidEnv(env)
    ensures var ms := env.fragmentMatches(content);
      r == Interleave(Gaps(content, ms, 0), Apply((m: Match) => EmbedToken(env, fragments, globals, m), ms))
  {
    var ms := env.fragmentMatches(content);
    SplicedGaps(content, ms, Apply((m: Match) => EmbedToken(env, fragments, globals, m), ms));
    Spliced(content, ms, Apply((m: Match) => EmbedToken(env, fragments, globals, m), ms))
  }

  /** Tokens naming no known fragment vanish: with none known, the output is the text
      between the tokens. */
  lemma EmbedFragmentsNoneKnown(env: Env, fragments: seq<Fragment>, content: string, globals: Globals)
    requires ValidEnv(env)
    requires forall m :: m in env.fragmentMatches(content) ==> FindFragment(fragments, m.group1).None?
    ensures EmbedFragments(env, fragments, content, globals) == Concat(Gaps(content, env.fragmentMatches(content), 0))
  {
    var ms := env.fragmentMatches(content);
    var reps := Apply((m: Match) => EmbedToken(env, fragments, globals, m), ms);
    forall i | 0 <= i < |reps|
      ensures reps[i] == ""
    {
      assert ms[i] in ms;
    }
    SplicedGaps(content, ms, reps);
    InterleaveEmpty(Gaps(content, ms, 0), reps);
  }

  /** An environment where a seven-character text such as "{% f %}" is one fragment token
      and there are no expressions. */
  function TokenEnv(): Env {
    Env(
      s => if |s| == 7 then [Match(0, 7, "f", "")] else [],
      _ => [],
      _ => None,
      _ => [],
      s => s,
      s => s,
      (_, _) => None,
      _ => Ok(None),
      _ => Date(2000, 1, 1),
      None,
      "empty")
  }

  lemma TokenEnvOrdered()
    ensures forall s :: Ordered(TokenEnv().fragmentMatches(s), 0, |s|)
    ensures forall s :: Ordered(TokenEnv().expressionMatches(s), 0, |s|)
  {
    var env := TokenEnv();
    forall s
      ensures Ordered(env.fragmentMatches(s), 0, |s|) && Ordered(env.expressionMatches(s), 0, |s|)
    {
      assert env.expressionMatches(s) == [];
      if |s| == 7 {
        assert env.fragmentMatches(s) == [Match(0, 7, "f", "")];
      } else {
        assert env.fragmentMatches(s) == [];
      }
    }
  }

  lemma TokenEnvOthers()
    ensures forall s, i :: 0 <= i < |TokenEnv().propCaptures(s)| ==> PropShaped(TokenEnv().propCaptures(s)[i])
  {
    var env := TokenEnv();
    forall s
      ensures |env.propCaptures(s)| == 0
    {
    }
  }

  lemma TokenEnvValid()
    ensures ValidEnv(TokenEnv())
  {
    TokenEnvOrdered();
    TokenEnvOthers();
  }

  /** TokenEnv has no expressions, so EmbedVariables leaves every text as it is. */
  lemma TokenEnvNoVariables(content: string, globals: Globals)
    requires ValidEnv(TokenEnv())
    ensures EmbedVariables(TokenEnv(), content, globals) == content
  {
    assert TokenEnv().expressionMatches(content) == [];
    SplicedFromOwnText(content, [], [], 0);
  }

  lemma TokenEnvReplacements(globals: Globals)
    requires ValidEnv(TokenEnv())
    ensures EmbedTokenAsWritten(TokenEnv(), [Fragment("f", "x")], "{% f %}", globals, Match(0, 7, "f", "")) == "{% f %}"
    ensures EmbedToken(TokenEnv(), [Fragment("f", "x")], globals, Match(0, 7, "f", "")) == "x"
  {
    var fr := [Fragment("f", "x")];
    assert FindFragment(fr, "f") == Some(Fragment("f", "x"));
    TokenEnvNoVariables("{% f %}", WithProps(TokenEnv(), globals, Match(0, 7, "f", "")));
    TokenEnvNoVariables("x", WithProps(TokenEnv(), globals, Match(0, 7, "f", "")));
  }

  /** A single match spanning the whole input is replaced wholesale. */
  lemma WholeInputSpliced(input: string, ms: seq<Match>, reps: seq<string>)
    requires |ms| == 1 && |reps| == 1 && ms[0].index == 0 && ms[0].length == |input|
    ensures Ordered(ms, 0, |input|)
    ensures Spliced(input, ms, reps) == reps[0]
  {
    assert ms[1..] == [] && reps[1..] == [];
    assert SplicedFrom(input, ms[1..], reps[1..], |input|) == [];
    assert input[0..0] + reps[0] + [] == reps[0];
  }

  /** With a fragment `f` whose text is "x", the as-written EmbedFragments turns "{% f %}"
      into "{% f %}" again, while the corrected one yields "x". */
  lemma EmbedFragmentsAsWrittenEchoesInput(globals: Globals)
    ensures ValidEnv(TokenEnv())
    ensures EmbedFragmentsAsWritten(TokenEnv(), [Fragment("f", "x")], "{% f %}", globals) == "{% f %}"
    ensures EmbedFragments(TokenEnv(), [Fragment("f", "x")], "{% f %}", globals) == "x"
  {
    TokenEnvValid();
    TokenEnvReplacements(globals);
    var content := "{% f %}";
    var m := Match(0, 7, "f", "");
    assert |content| == 7;
    assert TokenEnv().fragmentMatches(content) == [m];
    var ms := [m];
    WholeInputSpliced(content, ms, Apply((t: Match) => EmbedTokenAsWritten(TokenEnv(), [Fragment("f", "x")], content, globals, t), ms));
    WholeInputSpliced(content, ms, Apply((t: Match) => EmbedToken(TokenEnv(), [Fragment("f", "x")], globals, t), ms));
  }
}
