/** The code the generator calls but does not define: the .NET regular-expression engine
    (PostRegex, FragmentRegex, FragmentPropsRegex, ExpressionRegex and the `props.x`
    rewrite), Markdig, the C# script evaluator, the JSON front-matter deserialiser, the
    file creation clock and the configuration values. Each is an uninterpreted function
    of an `Env`; `ValidEnv` states what the regular expressions guarantee about their
    results. */
module Foreign {
  import opened Wrappers
  import opened Text
  import opened Entities

  /** The matches of a regular expression in a text of length `n`, scanned from `from`:
      each lies within the text, starts at or after `from`, and ends no later than any
      following match starts (Regex.Matches returns them left to right, non-overlapping). */
  predicate Ordered(ms: seq<Match>, from: nat, n: nat) {
    && (forall i :: 0 <= i < |ms| ==> from <= ms[i].index && ms[i].End() <= n)
    && (forall i, j :: 0 <= i < j < |ms| ==> ms[i].End() <= ms[j].index)
  }

  /** The shape of one capture of group 1 of FragmentPropsRegex, `\s?\w+\s?=\s?"\w+"\s?`:
      one `=`, and a value that, trimmed, starts and ends with a double quote. */
  predicate PropShaped(c: string) {
    var kv := Split(c, '=');
    && |kv| == 2
    && var v := Trim(kv[1]);
    && |v| >= 2 && v[0] == '"' && v[|v| - 1] == '"'
  }

  datatype Env = Env(
    /** FragmentRegex.Matches(text): group 1 is the fragment name, group 2 its properties. */
    fragmentMatches: string -> seq<Match>,
    /** ExpressionRegex.Matches(text): group 1 is the expression. */
    expressionMatches: string -> seq<Match>,
    /** PostRegex.Match(text): groups 1 (front matter) and 2 (body) when it matches. */
    postMatch: string -> Option<(string, string)>,
    /** FragmentPropsRegex.Match(kvps).Groups[1].Captures. */
    propCaptures: string -> seq<string>,
    /** Regex.Replace(exp, "props.(\w+)", "props[\"$1\"]"). */
    rewriteProps: string -> string,
    /** Markdown.ToHtml. */
    markdown: string -> string,
    /** CSharpScript.EvaluateAsync followed by the string conversion of its value; None
        when the evaluation throws. */
    evaluate: (string, Globals) -> Option<string>,
    /** JsonSerializer.Deserialize<Post>: an error, a null post, or the front-matter fields. */
    deserialize: string -> Result<Option<Metadata>>,
    /** DateOnly.FromDateTime(File.GetCreationTime(path)). */
    creationDate: string -> CalendarDate,
    /** Config?.DefaultLayout. */
    defaultLayout: Option<string>,
    /** EmptyLayout. */
    emptyLayout: string)

  /** What the regular expressions guarantee about their results. */
  ghost predicate ValidEnv(env: Env) {
    && (forall s :: Ordered(env.fragmentMatches(s), 0, |s|))
    && (forall s :: Ordered(env.expressionMatches(s), 0, |s|))
    && (forall s, i :: 0 <= i < |env.propCaptures(s)| ==> PropShaped(env.propCaptures(s)[i]))
  }
}
