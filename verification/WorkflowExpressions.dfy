/** The concrete evaluator: expression values, the comparison and string
    functions, and the contexts of one hypothetical workflow run. */
module WorkflowExpressions {
  import opened Text
  import opened ExpressionGrammar

  datatype Scalar = Null | Bool(b: bool) | Str(s: string)

  predicate Truthy(v: Scalar) {
    match v
    case Null => false
    case Bool(b) => b
    case Str(s) => s != ""
  }

  /** Comparison folds case and reads null as the empty string. */
  predicate Equal(left: Scalar, right: Scalar) {
    Normal(left) == Normal(right)
  }

  function Normal(v: Scalar): string {
    match v
    case Null => ""
    case Bool(b) => if b then "true" else "false"
    case Str(s) => Lower(s)
  }

  /** The host language's string of a value, which the string functions compare. */
  function Printed(v: Scalar): string {
    match v
    case Null => "None"
    case Bool(b) => if b then "True" else "False"
    case Str(s) => s
  }

  predicate IsTextFunction(name: string) {
    name in {"startsWith", "endsWith", "contains"}
  }

  function TextFunction(name: string, arguments: seq<Scalar>): Evaluated<Scalar>
    requires IsTextFunction(name)
  {
    if |arguments| < 2 then Raised(MissingArgument)
    else
      var subject, sought := Lower(Printed(arguments[0])), Lower(Printed(arguments[1]));
      Value(Bool(
        if name == "startsWith" then StartsWith(subject, sought)
        else if name == "endsWith" then EndsWith(subject, sought)
        else Contains(subject, sought)))
  }

  /** `''` inside a quoted literal is one quote. */
  function Unescape(s: string): string {
    if |s| < 2 then s
    else if s[0] == '\'' && s[1] == '\'' then "'" + Unescape(s[2..])
    else [s[0]] + Unescape(s[1..])
  }

  function Literal(token: Token): Scalar {
    match token
    case Quoted(text) => Str(if |text| < 2 then "" else Unescape(text[1..|text| - 1]))
    case Number(text) => Str(text)
    case Identifier(text) => if Lower(text) == "null" then Null else Bool(Lower(text) == "true")
    case Operator(_) => Null
  }

  /** One run: what each context path holds, and what the functions other than
      `always` and the string functions return in it. */
  datatype Run = Run(
    resolve: string -> Evaluated<Scalar>,
    status: (string, seq<Scalar>) -> Evaluated<Scalar>)

  function CallIn(run: Run, name: string, arguments: seq<Scalar>): Evaluated<Scalar> {
    if name == "always" then Value(Bool(true))
    else if IsTextFunction(name) then TextFunction(name, arguments)
    else run.status(name, arguments)
  }

  function Combine(op: Connective, left: Scalar, right: Scalar): Scalar {
    match op
    case Or => if Truthy(left) then left else right
    case And => if Truthy(left) then right else left
    case Equals => Bool(Equal(left, right))
    case Differs => Bool(!Equal(left, right))
  }

  function Concrete(run: Run): Semantics<Scalar> {
    Semantics(false, Literal, v => v, v => Bool(!Truthy(v)), Combine, run.resolve,
              (name, arguments) => CallIn(run, name, arguments))
  }

  // ---------- the modelled run of one event ----------

  datatype EventContext = EventContext(
    eventName: string,
    ref: string,
    inputs: map<string, string>,
    needsResult: string,
    stepOutputs: map<(string, string), string>,
    actor: string,
    sha: string,
    runId: string,
    variables: map<string, string>,
    jobResults: map<string, string>,
    jobOutputs: map<(string, string), string>)
  {
    /** The value of a context path; an unmodelled one is unsupported. */
    function Resolve(path: string): Evaluated<Scalar> {
      if path == "github.event_name" then Value(Str(eventName))
      else if path == "github.ref" then Value(Str(ref))
      else if path == "github.ref_name" then Value(Str(RefName(ref)))
      else if path == "github.actor" then Value(Str(actor))
      else if path == "github.sha" then Value(Str(sha))
      else if path == "github.run_id" then Value(Str(runId))
      else if path == "github.token" then Value(Str("contract-check-token"))
      else if StartsWith(path, "github.event.inputs.") then
        Value(Str(GetOr(inputs, path[|"github.event.inputs."|..], "")))
      else if StartsWith(path, "vars.") && IsWord(path[5..]) then
        Value(Str(GetOr(variables, path[5..], "")))
      else if StartsWith(path, "needs.") then
        (match Middle(path[6..], ".result")
         case Some(job) => Value(Str(GetOr(jobResults, job, needsResult)))
         case None =>
           match OutputOf(path[6..])
           case Some(output) =>
             if output in jobOutputs then Value(Str(jobOutputs[output])) else Raised(Unsupported)
           case None => Raised(Unsupported))
      else if StartsWith(path, "steps.") then
        if Middle(path[6..], ".outcome").Some? || Middle(path[6..], ".conclusion").Some? then
          Value(Str(needsResult))
        else
          match OutputOf(path[6..])
          case Some(output) =>
            if output in stepOutputs then Value(Str(stepOutputs[output])) else Raised(Unsupported)
          case None => Raised(Unsupported)
      else Raised(Unsupported)
    }

    /** The run this context describes: the job and its needs succeed. */
    function AsRun(): Run {
      Run(path => Resolve(path),
          (name, arguments) =>
            if name == "success" then Value(Bool(true))
            else if name == "failure" || name == "cancelled" then Value(Bool(false))
            else Raised(Unsupported))
    }
  }

  function GetOr(m: map<string, string>, key: string, default: string): string {
    if key in m then m[key] else default
  }

  /** A ref without its `refs/<kind>/` prefix. */
  function RefName(ref: string): string {
    if StartsWith(ref, "refs/heads/") then ref[11..]
    else if StartsWith(ref, "refs/tags/") then ref[10..]
    else if StartsWith(ref, "refs/") && IndexOf(ref[5..], '/') < |ref| - 5 then ref[6 + IndexOf(ref[5..], '/')..]
    else ref
  }

  /** The first index of `c`, or the length when it does not occur. */
  function IndexOf(s: string, c: char): (i: nat)
    ensures i <= |s|
  {
    if s == "" || s[0] == c then 0 else 1 + IndexOf(s[1..], c)
  }

  predicate IsNameChar(c: char) {
    'a' <= c <= 'z' || 'A' <= c <= 'Z' || '0' <= c <= '9' || c == '_' || c == '-'
  }

  predicate IsName(s: string) {
    s != "" && forall i :: 0 <= i < |s| ==> IsNameChar(s[i])
  }

  predicate IsWord(s: string) {
    IsName(s) && '-' !in s
  }

  /** The name before `suffix`, when `s` is a name and then the suffix. */
  function Middle(s: string, suffix: string): Option<string> {
    if EndsWith(s, suffix) && IsName(s[..|s| - |suffix|]) then Some(s[..|s| - |suffix|]) else None
  }

  /** The owner and output name of `<owner>.outputs.<name>`. */
  function OutputOf(s: string): Option<(string, string)> {
    var dot := IndexOf(s, '.');
    if StartsWith(s[dot..], ".outputs.") && IsName(s[..dot]) && IsName(s[dot + 9..])
    then Some((s[..dot], s[dot + 9..]))
    else None
  }

  // ---------- what the paths read ----------

  lemma {:induction false} FirstIndex(a: string, c: char, b: string)
    requires c !in a
    ensures IndexOf(a + [c] + b, c) == |a|
    decreases |a|
  {
    if a != "" {
      FirstIndex(a[1..], c, b);
      assert (a + [c] + b)[1..] == a[1..] + [c] + b && (a + [c] + b)[0] == a[0];
    }
  }

  lemma {:induction false} IndexSplits(s: string, c: char)
    ensures c !in s[..IndexOf(s, c)]
    ensures IndexOf(s, c) < |s| ==> s[IndexOf(s, c)] == c
    ensures IndexOf(s, c) < |s| <==> c in s
    decreases |s|
  {
    if s != "" && s[0] != c {
      IndexSplits(s[1..], c);
      assert s[..IndexOf(s, c)] == [s[0]] + s[1..][..IndexOf(s[1..], c)];
    }
  }

  /** `ref` is `refs/`, a kind without a slash, a slash and a name. */
  ghost predicate IsRef(ref: string, kind: string, name: string) {
    '/' !in kind && ref == "refs/" + (kind + "/" + name)
  }

  /** A ref loses its `refs/<kind>/` and nothing else; what is no such ref stays whole. */
  lemma {:induction false} RefNameExactly(ref: string)
    ensures forall kind, name :: IsRef(ref, kind, name) ==> RefName(ref) == name
    ensures (forall kind, name :: !IsRef(ref, kind, name)) ==> RefName(ref) == ref
  {
    forall kind, name | IsRef(ref, kind, name) ensures RefName(ref) == name {
      RefOfKind(ref, kind, name);
    }
    if RefName(ref) != ref {
      SlashAfterKind(ref);
      RefSplits(ref);
    }
  }

  lemma {:induction false} RefSplits(ref: string)
    requires StartsWith(ref, "refs/") && '/' in ref[5..]
    ensures exists kind, name :: IsRef(ref, kind, name)
  {
    var rest := ref[5..];
    var k := IndexOf(rest, '/');
    IndexSplits(rest, '/');
    assert rest == rest[..k] + "/" + rest[k + 1..] && ref == "refs/" + rest;
    assert IsRef(ref, rest[..k], rest[k + 1..]);
  }

  lemma SlashAfterKind(ref: string)
    ensures RefName(ref) != ref ==> StartsWith(ref, "refs/") && '/' in ref[5..]
  {
    IndexSplits(if |ref| >= 5 then ref[5..] else "", '/');
    if StartsWith(ref, "refs/heads/") {
      assert ref[5..][5] == '/';
    } else if StartsWith(ref, "refs/tags/") {
      assert ref[5..][4] == '/';
    }
  }

  lemma {:induction false} RefOfKind(ref: string, kind: string, name: string)
    requires IsRef(ref, kind, name)
    ensures RefName(ref) == name
  {
    var rest := ref[5..];
    assert rest == kind + "/" + name;
    FirstIndex(kind, '/', name);
    assert rest[|kind| + 1..] == name;
    KindOf(ref, kind, name, "heads");
    KindOf(ref, kind, name, "tags");
    assert "refs/" + "heads" + "/" == "refs/heads/" && "refs/" + "tags" + "/" == "refs/tags/";
  }

  lemma {:induction false} KindOf(ref: string, kind: string, name: string, other: string)
    requires IsRef(ref, kind, name) && '/' !in other
    ensures StartsWith(ref, "refs/" + other + "/") ==> |other| == |kind|
  {
    if StartsWith(ref, "refs/" + other + "/") {
      var tail := ref[6 + |other|..];
      assert ref[5..] == other + "/" + tail && ref[5..] == kind + "/" + name;
      FirstIndex(other, '/', tail);
      FirstIndex(kind, '/', name);
    }
  }

  lemma MiddleOf(name: string, suffix: string)
    requires IsName(name)
    ensures Middle(name + suffix, suffix) == Some(name)
  {
    assert (name + suffix)[|name|..] == suffix && (name + suffix)[..|name|] == name;
  }

  lemma {:induction false} NoMiddle(front: string, name: string, last: string)
    requires '.' in front && '.' !in name && '.' !in last
    ensures Middle(front + "." + name, "." + last).None?
  {
    var s, suffix := front + "." + name, "." + last;
    if EndsWith(s, suffix) {
      var from := |s| - |suffix|;
      assert s[from] == '.' && s[|front|] == '.';
      assert forall k :: |front| < k < |s| ==> s[k] == name[k - |front| - 1];
      assert forall k :: from < k < |s| ==> s[k] == suffix[k - from] == last[k - from - 1];
      assert s[..from] == front;
    }
  }

  lemma {:induction false} OutputOfNames(owner: string, name: string)
    requires IsName(owner) && IsName(name)
    ensures OutputOf(owner + ".outputs." + name) == Some((owner, name))
  {
    var s := owner + ".outputs." + name;
    assert s == owner + "." + ("outputs." + name);
    FirstIndex(owner, '.', "outputs." + name);
    assert s[|owner|..] == ".outputs." + name && s[|owner| + 9..] == name && s[..|owner|] == owner;
  }

  lemma {:induction false} OutputIsNoResult(owner: string, name: string, last: string)
    requires IsName(name) && '.' !in last
    ensures Middle(owner + ".outputs." + name, "." + last).None?
  {
    var front := owner + ".outputs";
    assert owner + ".outputs." + name == front + "." + name;
    assert front[|owner|] == '.';
    NoMiddle(front, name, last);
  }

  lemma NeedsPath(context: EventContext, rest: string)
    ensures context.Resolve("needs." + rest) ==
            match Middle(rest, ".result")
            case Some(job) => Value(Str(GetOr(context.jobResults, job, context.needsResult)))
            case None =>
              match OutputOf(rest)
              case Some(output) =>
                if output in context.jobOutputs then Value(Str(context.jobOutputs[output])) else Raised(Unsupported)
              case None => Raised(Unsupported)
  {
    var path := "needs." + rest;
    assert path[0] == 'n' && path[6..] == rest;
  }

  lemma StepsPath(context: EventContext, rest: string)
    ensures context.Resolve("steps." + rest) ==
            if Middle(rest, ".outcome").Some? || Middle(rest, ".conclusion").Some? then Value(Str(context.needsResult))
            else
              match OutputOf(rest)
              case Some(output) =>
                if output in context.stepOutputs then Value(Str(context.stepOutputs[output])) else Raised(Unsupported)
              case None => Raised(Unsupported)
  {
    var path := "steps." + rest;
    assert path[0] == 's' && path[6..] == rest;
  }

  /** What the paths of a run's jobs read: results, and the outputs it models. */
  lemma {:induction false} NeedsRead(context: EventContext, job: string, output: string)
    requires IsName(job) && IsName(output)
    ensures context.Resolve("needs." + (job + ".result")) ==
            Value(Str(if job in context.jobResults then context.jobResults[job] else context.needsResult))
    ensures context.Resolve("needs." + (job + ".outputs." + output)) ==
            if (job, output) in context.jobOutputs then Value(Str(context.jobOutputs[(job, output)])) else Raised(Unsupported)
  {
    NeedsPath(context, job + ".result");
    NeedsPath(context, job + ".outputs." + output);
    MiddleOf(job, ".result");
    OutputOfNames(job, output);
    OutputIsNotResult(job, output);
  }

  lemma {:induction false} OutputIsNotResult(owner: string, name: string)
    requires IsName(name)
    ensures Middle(owner + ".outputs." + name, ".result").None?
  {
    assert "." + "result" == ".result";
    OutputIsNoResult(owner, name, "result");
  }

  lemma {:induction false} StepsRead(context: EventContext, step: string, output: string)
    requires IsName(step) && IsName(output)
    ensures context.Resolve("steps." + (step + ".outcome")) == Value(Str(context.needsResult))
    ensures context.Resolve("steps." + (step + ".conclusion")) == Value(Str(context.needsResult))
    ensures context.Resolve("steps." + (step + ".outputs." + output)) ==
            if (step, output) in context.stepOutputs then Value(Str(context.stepOutputs[(step, output)])) else Raised(Unsupported)
  {
    StepsPath(context, step + ".outcome");
    StepsPath(context, step + ".conclusion");
    MiddleOf(step, ".outcome");
    MiddleOf(step, ".conclusion");
    StepOutputRead(context, step, output);
  }

  lemma {:induction false} StepOutputRead(context: EventContext, step: string, output: string)
    requires IsName(step) && IsName(output)
    ensures context.Resolve("steps." + (step + ".outputs." + output)) ==
            if (step, output) in context.stepOutputs then Value(Str(context.stepOutputs[(step, output)])) else Raised(Unsupported)
  {
    StepsPath(context, step + ".outputs." + output);
    OutputOfNames(step, output);
    OutputIsNoOutcome(step, output);
  }

  lemma {:induction false} OutputIsNoOutcome(owner: string, name: string)
    requires IsName(name)
    ensures Middle(owner + ".outputs." + name, ".outcome").None? && Middle(owner + ".outputs." + name, ".conclusion").None?
  {
    assert "." + "outcome" == ".outcome" && "." + "conclusion" == ".conclusion";
    OutputIsNoResult(owner, name, "outcome");
    OutputIsNoResult(owner, name, "conclusion");
  }

  lemma GithubRead(context: EventContext)
    ensures context.Resolve("github.event_name") == Value(Str(context.eventName))
    ensures context.Resolve("github.ref") == Value(Str(context.ref))
    ensures context.Resolve("github.actor") == Value(Str(context.actor))
    ensures context.Resolve("github.sha") == Value(Str(context.sha))
    ensures context.Resolve("github.run_id") == Value(Str(context.runId))
  {
  }

  lemma {:induction false} VariablesRead(context: EventContext, name: string, input: string)
    requires IsWord(name)
    ensures context.Resolve("vars." + name) == Value(Str(if name in context.variables then context.variables[name] else ""))
    ensures context.Resolve("github.event.inputs." + input) ==
            Value(Str(if input in context.inputs then context.inputs[input] else ""))
  {
    var a, b := "vars." + name, "github.event.inputs." + input;
    assert a[0] == 'v' && a[5..] == name;
    assert b[|"github.event.inputs."|..] == input && b[7] == 'e' && b[12] == '.';
  }
}
