/** The walk over a job's steps and the local actions they call. */
module CacheWalk {
  import opened Text
  import opened ExpressionGrammar
  import opened SyntaxTrees
  import opened WorkflowExpressions
  import opened OpenExpressions
  import opened CacheSteps

  datatype Work = Caching(use: CacheUse) | Calling(action: string, inputs: map<string, Template>) | Other

  datatype Step = Step(condition: Option<seq<Token>>, work: Work)

  datatype Action = Action(defaults: map<string, string>, steps: seq<Step>)

  /** A cache step found, with the chain of local actions that led to it and the frame it is read in. */
  datatype Found = Found(via: seq<string>, use: CacheUse, frame: Frame)

  /** `Stopped` is the check's own failure: an unreadable or recursive local action, or a missing argument. */
  datatype Walked = Uses(found: seq<Found>) | Stopped

  const DEPTH := 8

  // ---------- the static walk ----------

  function OpenInputs(action: Action, inputs: map<string, Template>, resolve: string -> Open): (m: map<string, Open>) {
    map name | name in action.defaults.Keys + inputs.Keys ::
      if name in inputs && OpenTemplate(inputs[name], resolve, None).Value?
      then OpenTemplate(inputs[name], resolve, None).value
      else if name in action.defaults then Known(Str(action.defaults[name]))
      else UNKNOWN
  }

  predicate CanRead(inputs: map<string, Template>, resolve: string -> Open) {
    forall name :: name in inputs ==> OpenTemplate(inputs[name], resolve, None).Value?
  }

  function Walk(actions: map<string, Action>, steps: seq<Step>, frame: Frame, via: seq<string>): Walked
    decreases 10 - |via|, |steps|
  {
    if steps == [] then Uses([])
    else
      match (WalkStep(actions, steps[0], frame, via), Walk(actions, steps[1..], frame, via))
      case (Uses(first), Uses(rest)) => Uses(first + rest)
      case (_, _) => Stopped
  }

  function WalkStep(actions: map<string, Action>, step: Step, frame: Frame, via: seq<string>): Walked
    decreases 10 - |via|, 0
  {
    match MayHold(step.condition, frame.Resolver())
    case Raised(_) => Stopped
    case Value(may) =>
      if !may then Uses([])
      else
        match step.work
        case Other => Uses([])
        case Caching(use) => Uses([Found(via, use, frame)])
        case Calling(name, inputs) =>
          if name !in actions || name in via || |via| > DEPTH || !CanRead(inputs, frame.Resolver()) then Stopped
          else
            var inner := frame.(inputs := Some(OpenInputs(actions[name], inputs, frame.Resolver())));
            Walk(actions, actions[name].steps, inner, via + [name])
  }

  // ---------- a run ----------

  /** A run of a job or of an action in it: the inputs the action received,
      and everything else the run's contexts hold. */
  datatype JobRun = JobRun(
    base: string -> Evaluated<Scalar>,
    status: (string, seq<Scalar>) -> Evaluated<Scalar>,
    inputs: Option<map<string, string>>)
  {
    function Resolve(path: string): Evaluated<Scalar> {
      if StartsWith(path, "inputs.") && inputs.Some? then Value(Str(GetOr(inputs.value, path[7..], "")))
      else base(path)
    }

    function AsRun(): Run {
      Run(path => Resolve(path), status)
    }
  }

  function RunInputs(action: Action, inputs: map<string, Template>, run: Run): map<string, string> {
    map name | name in action.defaults.Keys + inputs.Keys ::
      if name in inputs && Render(run, inputs[name]).Value? then Render(run, inputs[name]).value
      else if name in action.defaults then action.defaults[name]
      else ""
  }

  predicate CanRender(inputs: map<string, Template>, run: Run) {
    forall name :: name in inputs ==> Render(run, inputs[name]).Value?
  }

  predicate Holds(condition: Option<seq<Token>>, run: Run) {
    condition.None? ||
    (Evaluate(Concrete(run), condition.value).Value? && Truthy(Evaluate(Concrete(run), condition.value).value))
  }

  /** A cache step executed, with the chain of local actions that led to it and the run it is part of. */
  datatype Executed = Executed(via: seq<string>, use: CacheUse, run: JobRun)

  /** `done` is one of the cache steps the run executes, at most `fuel` actions deep. */
  ghost predicate Executes(actions: map<string, Action>, steps: seq<Step>, run: JobRun, via: seq<string>, done: Executed,
                           fuel: nat)
    decreases fuel
  {
    exists i :: 0 <= i < |steps| && Holds(steps[i].condition, run.AsRun()) &&
      match steps[i].work
      case Other => false
      case Caching(use) => done == Executed(via, use, run)
      case Calling(name, inputs) =>
        && fuel > 0 && name in actions && CanRender(inputs, run.AsRun())
        && Executes(actions, actions[name].steps,
                    run.(inputs := Some(RunInputs(actions[name], inputs, run.AsRun()))), via + [name], done, fuel - 1)
  }

  // ---------- the walk misses nothing ----------

  /** Every call the run makes, at most `fuel` actions deep, passes soundly what
      the walk records of its inputs. */
  ghost predicate CallsKept(actions: map<string, Action>, steps: seq<Step>, frame: Frame, run: JobRun, fuel: nat)
    decreases fuel
  {
    forall i :: 0 <= i < |steps| && MakesCall(actions, steps[i], run) ==>
      var name, inputs := steps[i].work.action, steps[i].work.inputs;
      && PassesSoundly(frame, inputs, run)
      && (fuel > 0 ==> CallsKept(actions, actions[name].steps, InnerFrameOf(frame, actions[name], inputs),
                                 InnerRunOf(run, actions[name], inputs), fuel - 1))
  }

  /** The step is a call that the run makes. */
  ghost predicate MakesCall(actions: map<string, Action>, step: Step, run: JobRun) {
    && step.work.Calling? && Holds(step.condition, run.AsRun())
    && step.work.action in actions && CanRender(step.work.inputs, run.AsRun())
  }

  /** No call the walk follows passes an input that it records as falsy: a
      condition on the walk alone. */
  ghost predicate InputsKept(actions: map<string, Action>, steps: seq<Step>, frame: Frame, via: seq<string>)
    decreases 10 - |via|
  {
    forall i :: 0 <= i < |steps| && steps[i].work.Calling? &&
                MayHold(steps[i].condition, frame.Resolver()) == Value(true) ==>
      var name, inputs := steps[i].work.action, steps[i].work.inputs;
      && (forall input :: input in inputs ==> KeepsInput(inputs[input], frame.Resolver()))
      && (name in actions && |via| <= DEPTH ==>
            InputsKept(actions, actions[name].steps, InnerFrameOf(frame, actions[name], inputs), via + [name]))
  }

  /** A walk that keeps its inputs keeps those of every run. */
  lemma {:induction false} KeptForEveryRun(actions: map<string, Action>, steps: seq<Step>, frame: Frame, run: JobRun,
                                           via: seq<string>, fuel: nat)
    requires Agrees(frame.Resolver(), run.AsRun())
    requires Walk(actions, steps, frame, via).Uses? && InputsKept(actions, steps, frame, via)
    ensures CallsKept(actions, steps, frame, run, fuel)
    decreases fuel
  {
    forall i | 0 <= i < |steps| && MakesCall(actions, steps[i], run)
      ensures CallKept(actions, steps[i], frame, run, fuel)
    {
      var name, inputs := steps[i].work.action, steps[i].work.inputs;
      CallIsWalked(actions, steps, frame, run, via, i);
      assert PassesSoundly(frame, inputs, run);
      InnerAgrees(frame, run, actions[name], inputs);
      if fuel > 0 {
        KeptForEveryRun(actions, actions[name].steps, InnerFrameOf(frame, actions[name], inputs),
                        InnerRunOf(run, actions[name], inputs), via + [name], fuel - 1);
      }
    }
  }

  /** The walk follows every call the run makes. */
  lemma {:induction false} CallIsWalked(actions: map<string, Action>, steps: seq<Step>, frame: Frame, run: JobRun,
                                        via: seq<string>, i: nat)
    requires Agrees(frame.Resolver(), run.AsRun()) && Walk(actions, steps, frame, via).Uses?
    requires i < |steps| && MakesCall(actions, steps[i], run)
    ensures var name, inputs := steps[i].work.action, steps[i].work.inputs;
            && MayHold(steps[i].condition, frame.Resolver()) == Value(true)
            && |via| <= DEPTH && CanRead(inputs, frame.Resolver())
            && Walk(actions, actions[name].steps, InnerFrameOf(frame, actions[name], inputs), via + [name]).Uses?
  {
    WalkHasStep(actions, steps, frame, via, i);
    if steps[i].condition.Some? {
      MayHoldSound(frame.Resolver(), run.AsRun(), steps[i].condition.value);
    }
  }

  /** Inside a call the frame agrees with the run exactly when the call passes soundly. */
  lemma {:induction false} InnerAgreesExactly(frame: Frame, run: JobRun, action: Action, inputs: map<string, Template>)
    requires Agrees(frame.Resolver(), run.AsRun())
    requires CanRead(inputs, frame.Resolver()) && CanRender(inputs, run.AsRun())
    ensures Agrees(InnerFrameOf(frame, action, inputs).Resolver(), InnerRunOf(run, action, inputs).AsRun()) <==>
            PassesSoundly(frame, inputs, run)
  {
    if PassesSoundly(frame, inputs, run) {
      InnerAgrees(frame, run, action, inputs);
    } else {
      var input :| input in inputs && !KeepsInput(inputs[input], frame.Resolver()) &&
                   Render(run.AsRun(), inputs[input]).value != "";
      FalsyInputDisagrees(frame, run, action, inputs, input);
    }
  }

  lemma {:induction false} InnerAgrees(frame: Frame, run: JobRun, action: Action, inputs: map<string, Template>)
    requires Agrees(frame.Resolver(), run.AsRun())
    requires CanRead(inputs, frame.Resolver()) && CanRender(inputs, run.AsRun()) && PassesSoundly(frame, inputs, run)
    ensures Agrees(InnerFrameOf(frame, action, inputs).Resolver(), InnerRunOf(run, action, inputs).AsRun())
  {
    var inner, innerRun := InnerFrameOf(frame, action, inputs), InnerRunOf(run, action, inputs);
    forall path | innerRun.Resolve(path).Value?
      ensures Approximates(inner.Resolve(path), innerRun.Resolve(path).value)
    {
      if StartsWith(path, "inputs.") {
        var name := path[7..];
        assert path[0] == 'i';
        if name in inputs {
          TemplateSoundExactly(inputs[name], frame.Resolver(), run.AsRun());
        }
      } else {
        assert run.AsRun().resolve(path) == innerRun.Resolve(path);
        assert frame.Resolver()(path) == inner.Resolve(path);
      }
    }
  }

  /** An input recorded as falsy whose text is not empty is read otherwise inside. */
  lemma {:induction false} FalsyInputDisagrees(frame: Frame, run: JobRun, action: Action, inputs: map<string, Template>,
                                               input: string)
    requires CanRead(inputs, frame.Resolver()) && CanRender(inputs, run.AsRun()) && input in inputs
    requires !KeepsInput(inputs[input], frame.Resolver()) && Render(run.AsRun(), inputs[input]).value != ""
    ensures var inner, innerRun := InnerFrameOf(frame, action, inputs), InnerRunOf(run, action, inputs);
            && inner.Resolve(InputPath(input)) == Unknown(Some(false))
            && innerRun.Resolve(InputPath(input)).Value? && Truthy(innerRun.Resolve(InputPath(input)).value)
            && !Agrees(inner.Resolver(), innerRun.AsRun())
  {
    var innerRun, inner := InnerRunOf(run, action, inputs), InnerFrameOf(frame, action, inputs);
    var path := InputPath(input);
    InputIsPath(input);
    assert OpenTemplate(inputs[input], frame.Resolver(), None) == Value(Unknown(Some(false)));
    assert path[0] == 'i';
    assert inner.inputs.value[input] == Unknown(Some(false));
    assert inner.Resolve(path) == Unknown(Some(false));
    assert innerRun.Resolve(path) == Value(Str(Render(run.AsRun(), inputs[input]).value));
    assert !Approximates(inner.Resolver()(path), innerRun.AsRun().resolve(path).value);
  }

  /** Inside every call the run makes, at most `fuel` actions deep, the walk's
      frame agrees with the run. */
  ghost predicate FramesAgree(actions: map<string, Action>, steps: seq<Step>, frame: Frame, run: JobRun, fuel: nat)
    decreases fuel
  {
    forall i :: 0 <= i < |steps| && MakesCall(actions, steps[i], run) ==>
      var action, inputs := actions[steps[i].work.action], steps[i].work.inputs;
      var inner, innerRun := InnerFrameOf(frame, action, inputs), InnerRunOf(run, action, inputs);
      && Agrees(inner.Resolver(), innerRun.AsRun())
      && (fuel > 0 ==> FramesAgree(actions, action.steps, inner, innerRun, fuel - 1))
  }

  /** Over the whole depth of a run, the walk's frames agree with it if and only
      if no call it makes passes a text that is not empty for an input recorded as falsy. */
  lemma {:induction false} FramesAgreeExactly(actions: map<string, Action>, steps: seq<Step>, frame: Frame, run: JobRun,
                                              via: seq<string>, fuel: nat)
    requires Agrees(frame.Resolver(), run.AsRun()) && Walk(actions, steps, frame, via).Uses?
    ensures FramesAgree(actions, steps, frame, run, fuel) <==> CallsKept(actions, steps, frame, run, fuel)
    decreases fuel
  {
    forall i | 0 <= i < |steps| && MakesCall(actions, steps[i], run)
      ensures CallAgrees(actions, steps[i], frame, run, fuel) <==> CallKept(actions, steps[i], frame, run, fuel)
    {
      var action, inputs := actions[steps[i].work.action], steps[i].work.inputs;
      var inner, innerRun := InnerFrameOf(frame, action, inputs), InnerRunOf(run, action, inputs);
      CallIsWalked(actions, steps, frame, run, via, i);
      InnerAgreesExactly(frame, run, action, inputs);
      if fuel > 0 && Agrees(inner.Resolver(), innerRun.AsRun()) {
        FramesAgreeExactly(actions, action.steps, inner, innerRun, via + [steps[i].work.action], fuel - 1);
      }
    }
    assert FramesAgree(actions, steps, frame, run, fuel) <==>
           forall i :: 0 <= i < |steps| && MakesCall(actions, steps[i], run) ==> CallAgrees(actions, steps[i], frame, run, fuel);
    assert CallsKept(actions, steps, frame, run, fuel) <==>
           forall i :: 0 <= i < |steps| && MakesCall(actions, steps[i], run) ==> CallKept(actions, steps[i], frame, run, fuel);
  }

  ghost predicate CallAgrees(actions: map<string, Action>, step: Step, frame: Frame, run: JobRun, fuel: nat)
    requires MakesCall(actions, step, run)
  {
    var action, inputs := actions[step.work.action], step.work.inputs;
    var inner, innerRun := InnerFrameOf(frame, action, inputs), InnerRunOf(run, action, inputs);
    && Agrees(inner.Resolver(), innerRun.AsRun())
    && (fuel > 0 ==> FramesAgree(actions, action.steps, inner, innerRun, fuel - 1))
  }

  ghost predicate CallKept(actions: map<string, Action>, step: Step, frame: Frame, run: JobRun, fuel: nat)
    requires MakesCall(actions, step, run)
  {
    var action, inputs := actions[step.work.action], step.work.inputs;
    && PassesSoundly(frame, inputs, run)
    && (fuel > 0 ==> CallsKept(actions, action.steps, InnerFrameOf(frame, action, inputs), InnerRunOf(run, action, inputs), fuel - 1))
  }

  lemma {:induction false} WalkHasStep(actions: map<string, Action>, steps: seq<Step>, frame: Frame, via: seq<string>,
                                       i: nat)
    requires i < |steps| && Walk(actions, steps, frame, via).Uses?
    ensures WalkStep(actions, steps[i], frame, via).Uses?
    ensures forall f :: f in WalkStep(actions, steps[i], frame, via).found ==> f in Walk(actions, steps, frame, via).found
    decreases |steps|
  {
    if i > 0 {
      WalkHasStep(actions, steps[1..], frame, via, i - 1);
    }
  }

  /** `found` is where the walk reports the step that was executed, in a frame that agrees with its run. */
  ghost predicate Reports(found: Found, done: Executed) {
    found.via == done.via && found.use == done.use && Agrees(found.frame.Resolver(), done.run.AsRun())
  }

  /** Every cache step that some run of the frame executes, directly or through
      local actions, is among those the static walk reports. */
  lemma {:induction false} WalkMissesNothing(actions: map<string, Action>, steps: seq<Step>, frame: Frame, run: JobRun,
                                             via: seq<string>, done: Executed, fuel: nat) returns (found: Found)
    requires Agrees(frame.Resolver(), run.AsRun())
    requires Walk(actions, steps, frame, via).Uses? && CallsKept(actions, steps, frame, run, fuel)
    requires Executes(actions, steps, run, via, done, fuel)
    ensures found in Walk(actions, steps, frame, via).found && Reports(found, done)
    decreases fuel
  {
    var i :| 0 <= i < |steps| && Holds(steps[i].condition, run.AsRun()) &&
      match steps[i].work
      case Other => false
      case Caching(use) => done == Executed(via, use, run)
      case Calling(name, inputs) =>
        && fuel > 0 && name in actions && CanRender(inputs, run.AsRun())
        && Executes(actions, actions[name].steps,
                    run.(inputs := Some(RunInputs(actions[name], inputs, run.AsRun()))), via + [name], done, fuel - 1);
    var step := steps[i];
    WalkHasStep(actions, steps, frame, via, i);
    if step.condition.Some? {
      MayHoldSound(frame.Resolver(), run.AsRun(), step.condition.value);
    }
    match step.work
    case Caching(use) =>
      found := Found(via, use, frame);
      assert found in WalkStep(actions, step, frame, via).found;
    case Calling(name, inputs) =>
      InnerAgrees(frame, run, actions[name], inputs);
      found := WalkMissesNothing(actions, actions[name].steps,
                        frame.(inputs := Some(OpenInputs(actions[name], inputs, frame.Resolver()))),
                        run.(inputs := Some(RunInputs(actions[name], inputs, run.AsRun()))),
                        via + [name], done, fuel - 1);
      assert found in WalkStep(actions, step, frame, via).found;
  }

  /** A job as the check takes it: the steps it walks and the frame it walks them in. */
  datatype Job = Job(actions: map<string, Action>, steps: seq<Step>, frame: Frame)

  ghost predicate IsWalked(job: Job) {
    Walk(job.actions, job.steps, job.frame, []).Uses?
  }

  /** In `run`, whose calls pass soundly, the job executes `done`. */
  ghost predicate Does(job: Job, run: JobRun, done: Executed, fuel: nat) {
    && Agrees(job.frame.Resolver(), run.AsRun()) && CallsKept(job.actions, job.steps, job.frame, run, fuel)
    && Executes(job.actions, job.steps, run, [], done, fuel)
  }

  /** Two specs, of a restore in one walk and a save in the other, overlap. */
  ghost predicate WalksOverlap(reader: Job, writer: Job, read: Found, written: Found) {
    && Walk(reader.actions, reader.steps, reader.frame, []).Uses? && Walk(writer.actions, writer.steps, writer.frame, []).Uses?
    && read in Walk(reader.actions, reader.steps, reader.frame, []).found
    && written in Walk(writer.actions, writer.steps, writer.frame, []).found
    && KeySpecs(read.use, read.frame.Resolver()).Value? && KeySpecs(written.use, written.frame.Resolver()).Value?
    && var restores, saves := KeySpecs(read.use, read.frame.Resolver()).value.0, KeySpecs(written.use, written.frame.Resolver()).value.1;
       exists i, j :: 0 <= i < |restores| && 0 <= j < |saves| && SpecsOverlap(restores[i], saves[j])
  }

  /** Every use the job's walk reports has keys the check can read. */
  ghost predicate HasSpecs(job: Job) {
    Walk(job.actions, job.steps, job.frame, []).Uses? ==>
      forall found :: found in Walk(job.actions, job.steps, job.frame, []).found ==> KeySpecs(found.use, found.frame.Resolver()).Value?
  }

  /** No coincidence escapes the whole check: if a run of one job saves a key
      that a run of another restores, at any depth of local actions, the two
      walks report uses whose specs overlap, each read in its own frame. */
  lemma {:induction false} NoCoincidenceMissed(reader: Job, readRun: JobRun, restored: Executed, writer: Job, writeRun: JobRun,
                                               saved: Executed, key: string, fuel: nat)
    requires IsWalked(reader) && IsWalked(writer) && HasSpecs(reader) && HasSpecs(writer)
    requires Does(reader, readRun, restored, fuel) && Does(writer, writeRun, saved, fuel)
    requires !restored.use.kind.Save? && !saved.use.kind.Restore?
    requires HasKey(saved.use, saved.run.AsRun(), key) && Restores(restored.use, restored.run.AsRun(), key)
    ensures exists read, written :: WalksOverlap(reader, writer, read, written)
  {
    var read := WalkMissesNothing(reader.actions, reader.steps, reader.frame, readRun, [], restored, fuel);
    var written := WalkMissesNothing(writer.actions, writer.steps, writer.frame, writeRun, [], saved, fuel);
    CoincidenceOverlaps(read.use, read.frame.Resolver(), restored.run.AsRun(),
                        written.use, written.frame.Resolver(), saved.run.AsRun(), key);
    assert WalksOverlap(reader, writer, read, written);
  }

  // ---------- what the walk reports, exactly ----------

  /** The walk can go into the action the step calls. */
  predicate CanEnter(actions: map<string, Action>, step: Step, frame: Frame, via: seq<string>) {
    && step.work.Calling? && step.work.action in actions && step.work.action !in via && |via| <= DEPTH
    && CanRead(step.work.inputs, frame.Resolver())
  }

  /** A step among `steps`, or in an action called by one that may run, read in
      `inner` and reached through the actions `chain`. */
  ghost predicate ComesTo(actions: map<string, Action>, steps: seq<Step>, frame: Frame, via: seq<string>,
                          step: Step, inner: Frame, chain: seq<string>)
    decreases 10 - |via|, 1
  {
    exists i :: 0 <= i < |steps| && ComesFrom(actions, steps[i], frame, via, step, inner, chain)
  }

  ghost predicate ComesFrom(actions: map<string, Action>, first: Step, frame: Frame, via: seq<string>,
                            step: Step, inner: Frame, chain: seq<string>)
    decreases 10 - |via|, 0
  {
    || (step == first && inner == frame && chain == via)
    || (&& MayHold(first.condition, frame.Resolver()) == Value(true) && CanEnter(actions, first, frame, via)
        && var action := actions[first.work.action];
           ComesTo(actions, action.steps, InnerFrameOf(frame, action, first.work.inputs), via + [first.work.action],
                   step, inner, chain))
  }

  /** The check fails at the step: its condition cannot be evaluated, or it may
      call an action that the walk cannot go into. */
  ghost predicate FailsAt(actions: map<string, Action>, step: Step, frame: Frame, via: seq<string>) {
    || MayHold(step.condition, frame.Resolver()).Raised?
    || (MayHold(step.condition, frame.Resolver()) == Value(true) && step.work.Calling? && !CanEnter(actions, step, frame, via))
  }

  /** The step is a cache step that may run. */
  ghost predicate ReportsAt(found: Found, step: Step, frame: Frame, via: seq<string>) {
    MayHold(step.condition, frame.Resolver()) == Value(true) && step.work.Caching? && found == Found(via, step.work.use, frame)
  }

  ghost predicate Stops(actions: map<string, Action>, steps: seq<Step>, frame: Frame, via: seq<string>) {
    exists step, inner, chain ::
      ComesTo(actions, steps, frame, via, step, inner, chain) && FailsAt(actions, step, inner, chain)
  }

  ghost predicate Finds(actions: map<string, Action>, steps: seq<Step>, frame: Frame, via: seq<string>, found: Found) {
    exists step, inner, chain ::
      ComesTo(actions, steps, frame, via, step, inner, chain) && ReportsAt(found, step, inner, chain)
  }

  lemma {:induction false} WalkIsSteps(actions: map<string, Action>, steps: seq<Step>, frame: Frame, via: seq<string>)
    ensures Walk(actions, steps, frame, via).Uses? <==>
            forall i :: 0 <= i < |steps| ==> WalkStep(actions, steps[i], frame, via).Uses?
    ensures Walk(actions, steps, frame, via).Uses? ==>
              forall f :: f in Walk(actions, steps, frame, via).found <==>
                exists i :: 0 <= i < |steps| && f in WalkStep(actions, steps[i], frame, via).found
    decreases |steps|
  {
    if steps != [] {
      var rest := steps[1..];
      WalkIsSteps(actions, rest, frame, via);
      assert forall i :: 0 <= i < |rest| ==> rest[i] == steps[i + 1];
      assert forall i :: 1 <= i < |steps| ==> steps[i] == rest[i - 1];
      if Walk(actions, steps, frame, via).Uses? {
        FoundInSteps(actions, steps, frame, via);
      }
    }
  }

  lemma {:induction false} FoundInSteps(actions: map<string, Action>, steps: seq<Step>, frame: Frame, via: seq<string>)
    requires steps != [] && Walk(actions, steps, frame, via).Uses?
    requires forall i :: 0 <= i < |steps| ==> WalkStep(actions, steps[i], frame, via).Uses?
    requires forall f :: f in Walk(actions, steps[1..], frame, via).found <==>
               exists i :: 0 <= i < |steps[1..]| && f in WalkStep(actions, steps[1..][i], frame, via).found
    ensures forall f :: f in Walk(actions, steps, frame, via).found <==>
              exists i :: 0 <= i < |steps| && f in WalkStep(actions, steps[i], frame, via).found
  {
    forall f ensures f in Walk(actions, steps, frame, via).found <==>
                     exists i :: 0 <= i < |steps| && f in WalkStep(actions, steps[i], frame, via).found
    {
      if i :| 0 <= i < |steps[1..]| && f in WalkStep(actions, steps[1..][i], frame, via).found {
        assert f in WalkStep(actions, steps[i + 1], frame, via).found;
      }
      if i :| 1 <= i < |steps| && f in WalkStep(actions, steps[i], frame, via).found {
        assert f in WalkStep(actions, steps[1..][i - 1], frame, via).found;
      }
    }
  }

  ghost predicate StepStops(actions: map<string, Action>, first: Step, frame: Frame, via: seq<string>) {
    exists step, inner, chain ::
      ComesFrom(actions, first, frame, via, step, inner, chain) && FailsAt(actions, step, inner, chain)
  }

  ghost predicate StepFinds(actions: map<string, Action>, first: Step, frame: Frame, via: seq<string>, found: Found) {
    exists step, inner, chain ::
      ComesFrom(actions, first, frame, via, step, inner, chain) && ReportsAt(found, step, inner, chain)
  }

  /** The walk fails exactly when it comes to a step at which the check fails,
      and otherwise reports exactly the cache steps it comes to that may run. */
  lemma {:induction false} WalkExactly(actions: map<string, Action>, steps: seq<Step>, frame: Frame, via: seq<string>)
    ensures Walk(actions, steps, frame, via).Stopped? <==> Stops(actions, steps, frame, via)
    ensures Walk(actions, steps, frame, via).Uses? ==>
              forall f :: f in Walk(actions, steps, frame, via).found <==> Finds(actions, steps, frame, via, f)
    decreases 10 - |via|, 1
  {
    WalkIsSteps(actions, steps, frame, via);
    forall i | 0 <= i < |steps|
      ensures WalkStep(actions, steps[i], frame, via).Stopped? <==> StepStops(actions, steps[i], frame, via)
      ensures WalkStep(actions, steps[i], frame, via).Uses? ==>
                forall f :: f in WalkStep(actions, steps[i], frame, via).found <==> StepFinds(actions, steps[i], frame, via, f)
    {
      WalkStepExactly(actions, steps[i], frame, via);
    }
    StopsBySteps(actions, steps, frame, via);
    forall f ensures Finds(actions, steps, frame, via, f) <==>
                     exists i :: 0 <= i < |steps| && StepFinds(actions, steps[i], frame, via, f)
    {
      FindsBySteps(actions, steps, frame, via, f);
    }
  }

  lemma {:induction false} StopsBySteps(actions: map<string, Action>, steps: seq<Step>, frame: Frame, via: seq<string>)
    ensures Stops(actions, steps, frame, via) <==> exists i :: 0 <= i < |steps| && StepStops(actions, steps[i], frame, via)
  {
    if Stops(actions, steps, frame, via) {
      var step, inner, chain :| ComesTo(actions, steps, frame, via, step, inner, chain) && FailsAt(actions, step, inner, chain);
      var i :| 0 <= i < |steps| && ComesFrom(actions, steps[i], frame, via, step, inner, chain);
      assert StepStops(actions, steps[i], frame, via);
    }
    if i :| 0 <= i < |steps| && StepStops(actions, steps[i], frame, via) {
      var step, inner, chain :| ComesFrom(actions, steps[i], frame, via, step, inner, chain) && FailsAt(actions, step, inner, chain);
      assert ComesTo(actions, steps, frame, via, step, inner, chain);
    }
  }

  lemma {:induction false} FindsBySteps(actions: map<string, Action>, steps: seq<Step>, frame: Frame, via: seq<string>, f: Found)
    ensures Finds(actions, steps, frame, via, f) <==> exists i :: 0 <= i < |steps| && StepFinds(actions, steps[i], frame, via, f)
  {
    if Finds(actions, steps, frame, via, f) {
      var step, inner, chain :| ComesTo(actions, steps, frame, via, step, inner, chain) && ReportsAt(f, step, inner, chain);
      var i :| 0 <= i < |steps| && ComesFrom(actions, steps[i], frame, via, step, inner, chain);
      assert StepFinds(actions, steps[i], frame, via, f);
    }
    if i :| 0 <= i < |steps| && StepFinds(actions, steps[i], frame, via, f) {
      var step, inner, chain :| ComesFrom(actions, steps[i], frame, via, step, inner, chain) && ReportsAt(f, step, inner, chain);
      assert ComesTo(actions, steps, frame, via, step, inner, chain);
    }
  }

  lemma {:induction false} WalkStepExactly(actions: map<string, Action>, first: Step, frame: Frame, via: seq<string>)
    ensures WalkStep(actions, first, frame, via).Stopped? <==> StepStops(actions, first, frame, via)
    ensures WalkStep(actions, first, frame, via).Uses? ==>
              forall f :: f in WalkStep(actions, first, frame, via).found <==> StepFinds(actions, first, frame, via, f)
    decreases 10 - |via|, 0
  {
    assert ComesFrom(actions, first, frame, via, first, frame, via);
    if MayHold(first.condition, frame.Resolver()) == Value(true) && CanEnter(actions, first, frame, via) {
      var name := first.work.action;
      WalkExactly(actions, actions[name].steps, InnerFrameOf(frame, actions[name], first.work.inputs), via + [name]);
      EnteredExactly(actions, first, frame, via);
    }
  }

  /** A step that is entered stops and finds what its action does. */
  lemma {:induction false} EnteredExactly(actions: map<string, Action>, first: Step, frame: Frame, via: seq<string>)
    requires MayHold(first.condition, frame.Resolver()) == Value(true) && CanEnter(actions, first, frame, via)
    ensures var action := actions[first.work.action];
            var inner, chain := InnerFrameOf(frame, action, first.work.inputs), via + [first.work.action];
            && (StepStops(actions, first, frame, via) <==> Stops(actions, action.steps, inner, chain))
            && forall f :: StepFinds(actions, first, frame, via, f) <==> Finds(actions, action.steps, inner, chain, f)
  {
    var action := actions[first.work.action];
    var below, next := InnerFrameOf(frame, action, first.work.inputs), via + [first.work.action];
    forall step, inner, chain
      ensures ComesFrom(actions, first, frame, via, step, inner, chain) <==>
              (step == first && inner == frame && chain == via) || ComesTo(actions, action.steps, below, next, step, inner, chain)
    {
    }
    assert !FailsAt(actions, first, frame, via);
    assert forall f :: !ReportsAt(f, first, frame, via);
  }

  /** An action receives the texts passed to it, its defaults elsewhere; and
      what the frame knows of a call's templates it knows of the inputs inside. */
  lemma {:induction false} InputsKnown(action: Action, inputs: map<string, Template>, resolve: string -> Open, run: Run)
    requires CanRender(inputs, run)
    ensures RunInputs(action, inputs, run).Keys == OpenInputs(action, inputs, resolve).Keys == action.defaults.Keys + inputs.Keys
    ensures forall name :: name in inputs ==> Fills(inputs[name], InRun(run), RunInputs(action, inputs, run)[name])
    ensures forall name :: name in action.defaults && name !in inputs ==>
              && RunInputs(action, inputs, run)[name] == action.defaults[name]
              && OpenInputs(action, inputs, resolve)[name] == Known(Str(action.defaults[name]))
    ensures forall name :: name in inputs && KnowsTemplate(inputs[name], resolve, run) ==>
              OpenInputs(action, inputs, resolve)[name] == Known(Str(RunInputs(action, inputs, run)[name]))
  {
    forall name | name in inputs ensures Fills(inputs[name], InRun(run), RunInputs(action, inputs, run)[name]) {
      RenderMeans(run, inputs[name], Render(run, inputs[name]).value);
    }
    forall name | name in inputs && KnowsTemplate(inputs[name], resolve, run)
      ensures OpenInputs(action, inputs, resolve)[name] == Known(Str(RunInputs(action, inputs, run)[name]))
    {
      KnownTemplate(inputs[name], resolve, run, None);
    }
  }

  // ---------- a call, exactly ----------

  /** An input of the call that the frame records as falsy is empty in the run. */
  ghost predicate PassesSoundly(frame: Frame, inputs: map<string, Template>, run: JobRun) {
    forall input :: input in inputs && Render(run.AsRun(), inputs[input]).Value? ==>
      KeepsInput(inputs[input], frame.Resolver()) || Render(run.AsRun(), inputs[input]).value == ""
  }

  function InnerFrameOf(frame: Frame, action: Action, inputs: map<string, Template>): Frame {
    frame.(inputs := Some(OpenInputs(action, inputs, frame.Resolver())))
  }

  function InnerRunOf(run: JobRun, action: Action, inputs: map<string, Template>): JobRun {
    run.(inputs := Some(RunInputs(action, inputs, run.AsRun())))
  }

  /** A run that may make the call: it agrees with the frame and its inputs have texts. */
  ghost predicate MayCall(frame: Frame, inputs: map<string, Template>, run: JobRun) {
    Agrees(frame.Resolver(), run.AsRun()) && CanRender(inputs, run.AsRun())
  }

  /** In `run` the action, called with `inputs`, executes `done`, at most `fuel`
      actions deep, and the calls it makes on the way pass soundly. */
  ghost predicate DoesInside(actions: map<string, Action>, action: Action, frame: Frame, inputs: map<string, Template>,
                             run: JobRun, via: seq<string>, done: Executed, fuel: nat) {
    && CallsKept(actions, action.steps, InnerFrameOf(frame, action, inputs), InnerRunOf(run, action, inputs), fuel)
    && Executes(actions, action.steps, InnerRunOf(run, action, inputs), via, done, fuel)
    && Walk(actions, action.steps, InnerFrameOf(frame, action, inputs), via).Uses?
  }

  /** Whatever steps the called action has, and whatever it calls in turn, the
      walk reports every cache step that a run of the call executes. */
  ghost predicate CallIsSound(frame: Frame, inputs: map<string, Template>, via: seq<string>) {
    forall actions: map<string, Action>, action: Action, run: JobRun, done: Executed, fuel: nat ::
      MayCall(frame, inputs, run) && DoesInside(actions, action, frame, inputs, run, via, done, fuel) ==>
        IsReported(Walk(actions, action.steps, InnerFrameOf(frame, action, inputs), via), done)
  }

  ghost predicate IsReported(walked: Walked, done: Executed)
    requires walked.Uses?
  {
    exists found :: found in walked.found && Reports(found, done)
  }

  function InputPath(input: string): string {
    "inputs." + input
  }

  /** An action whose only step saves a cache if `input` is truthy. */
  function Guarding(input: string): Action {
    Action(map[], [Step(Some([Identifier(InputPath(input))]), Caching(GUARDED))])
  }

  lemma InputIsPath(input: string)
    ensures Derives(0, Path(InputPath(input))) && Yield(Path(InputPath(input))) == [Identifier(InputPath(input))]
    ensures StartsWith(InputPath(input), "inputs.") && InputPath(input)[7..] == input
  {
    assert |Lower(InputPath(input))| >= 7;
  }

  /** An input recorded as falsy whose text is not empty hides a step. */
  lemma {:induction false} FalsyInputHides(frame: Frame, inputs: map<string, Template>, via: seq<string>, run: JobRun, input: string)
    requires CanRead(inputs, frame.Resolver()) && MayCall(frame, inputs, run) && input in inputs
    requires !KeepsInput(inputs[input], frame.Resolver()) && Render(run.AsRun(), inputs[input]).value != ""
    ensures !CallIsSound(frame, inputs, via)
  {
    var action := Guarding(input);
    var innerRun, inner := InnerRunOf(run, action, inputs), InnerFrameOf(frame, action, inputs);
    FalsyInputDisagrees(frame, run, action, inputs, input);
    StepRunsUnseen(inner, innerRun, input, via);
    var done := Executed(via, GUARDED, innerRun);
    assert DoesInside(map[], action, frame, inputs, run, via, done, 0);
    assert !IsReported(Walk(map[], action.steps, inner, via), done);
  }

  lemma {:induction false} StepRunsUnseen(inner: Frame, innerRun: JobRun, input: string, via: seq<string>)
    requires inner.Resolve(InputPath(input)) == Unknown(Some(false))
    requires innerRun.Resolve(InputPath(input)).Value? && Truthy(innerRun.Resolve(InputPath(input)).value)
    ensures Walk(map[], Guarding(input).steps, inner, via) == Uses([])
    ensures Executes(map[], Guarding(input).steps, innerRun, via, Executed(via, GUARDED, innerRun), 0)
  {
    var e, steps := Path(InputPath(input)), Guarding(input).steps;
    InputIsPath(input);
    TreeEvaluates(Concrete(innerRun.AsRun()), e);
    TreeOpens(innerRun.AsRun(), inner.Resolver(), e);
    assert MayHold(steps[0].condition, inner.Resolver()) == Value(false);
    assert Walk(map[], steps[1..], inner, via) == Uses([]);
    assert Holds(steps[0].condition, innerRun.AsRun());
  }

  /** A call is walked soundly, whatever the action does, if and only if no run
      that may make it passes a text that is not empty for an input recorded as falsy. */
  lemma {:induction false} CallSoundExactly(frame: Frame, inputs: map<string, Template>, via: seq<string>)
    requires CanRead(inputs, frame.Resolver())
    ensures CallIsSound(frame, inputs, via) <==>
            forall run :: MayCall(frame, inputs, run) ==> PassesSoundly(frame, inputs, run)
  {
    if forall run :: MayCall(frame, inputs, run) ==> PassesSoundly(frame, inputs, run) {
      forall actions: map<string, Action>, action: Action, run: JobRun, done: Executed, fuel: nat |
        MayCall(frame, inputs, run) && DoesInside(actions, action, frame, inputs, run, via, done, fuel)
        ensures IsReported(Walk(actions, action.steps, InnerFrameOf(frame, action, inputs), via), done)
      {
        assert PassesSoundly(frame, inputs, run);
        InnerAgrees(frame, run, action, inputs);
        var found := WalkMissesNothing(actions, action.steps, InnerFrameOf(frame, action, inputs),
                                       InnerRunOf(run, action, inputs), via, done, fuel);
      }
    } else {
      var run :| MayCall(frame, inputs, run) && !PassesSoundly(frame, inputs, run);
      var input :| input in inputs && !KeepsInput(inputs[input], frame.Resolver()) &&
                   Render(run.AsRun(), inputs[input]).value != "";
      FalsyInputHides(frame, inputs, via, run, input);
    }
  }

  // ---------- where it does miss: an input read as known-falsy ----------

  const FLAG_AND_FALSE: Tree := Binary(And, Path("vars.flag"), Leaf(Identifier("false")))
  const INPUT: Tree := Path("inputs.x")
  const GUARDED: CacheUse := CacheUse(Save, None, [])
  const INNER: Action := Action(map[], [Step(Some([Identifier("inputs.x")]), Caching(GUARDED))])
  const PASSED: Template := Part("", Yield(FLAG_AND_FALSE), Plain(""))
  const OUTER: Step := Step(None, Calling("inner", map["x" := PASSED]))
  const STATIC: Frame := Frame(None, "refs/heads/main", None, None)

  function FlaggedRun(): JobRun {
    JobRun(path => if path == "vars.flag" then Value(Str("on")) else Raised(Unsupported),
           (name, arguments) => Raised(Unsupported), None)
  }

  lemma {:induction false} TreeEvaluates<V>(s: Semantics<V>, e: Tree)
    requires Derives(0, e) && Fold(s, e).Value? && !s.callsFirst
    ensures Evaluate(s, Yield(e)) == Fold(s, e)
  {
    OnePassIsParseThenEvaluate(s, Yield(e), Fold(s, e).value);
  }

  lemma {:induction false} TreeOpens(run: Run, resolve: string -> Open, e: Tree)
    requires Derives(0, e) && Fold(Concrete(run), e).Value? && Fold(Opening(resolve), e).Value?
    ensures OpenEvaluate(resolve, Yield(e)) == Fold(Opening(resolve), e)
  {
    TreeEvaluates(Concrete(run), e);
    SameTree(Concrete(run), Opening(resolve), Yield(e));
    ParserDecidesGrammar(Yield(e), e);
  }

  lemma KeywordsOfExample()
    ensures Derives(0, FLAG_AND_FALSE) && Derives(0, INPUT) && Lower("false") == "false"
  {
    assert Lower("false") == "false";
    assert |Lower("vars.flag")| == 9 && |Lower("inputs.x")| == 8;
  }

  function InnerRun(): JobRun {
    FlaggedRun().(inputs := Some(RunInputs(INNER, map["x" := PASSED], FlaggedRun().AsRun())))
  }

  function InnerFrame(): Frame {
    STATIC.(inputs := Some(OpenInputs(INNER, map["x" := PASSED], STATIC.Resolver())))
  }

  /** The call passes the text "false", which the analysis records as falsy. */
  lemma PassedFalse()
    ensures Render(FlaggedRun().AsRun(), PASSED) == Value("false")
    ensures OpenTemplate(PASSED, STATIC.Resolver(), None) == Value(Unknown(Some(false)))
  {
    KeywordsOfExample();
    var run, open := FlaggedRun().AsRun(), STATIC.Resolver();
    assert Fold(Concrete(run), FLAG_AND_FALSE) == Value(Bool(false));
    assert Fold(Opening(open), FLAG_AND_FALSE) == Value(Unknown(Some(false)));
    TreeEvaluates(Concrete(run), FLAG_AND_FALSE);
    TreeOpens(run, open, FLAG_AND_FALSE);
    assert "" + InputText(Bool(false)) + "" == "false";
    assert Render(run, PASSED.rest) == Value("");
  }

  lemma InnerReads()
    ensures Fold(Concrete(InnerRun().AsRun()), INPUT) == Value(Str("false"))
    ensures Fold(Opening(InnerFrame().Resolver()), INPUT) == Value(Unknown(Some(false)))
  {
    PassedFalse();
    assert "inputs.x"[7..] == "x";
  }

  /** The analysis takes the inner step's condition to fail. */
  lemma InnerSkipped()
    ensures Walk(map["inner" := INNER], INNER.steps, InnerFrame(), ["inner"]) == Uses([])
  {
    KeywordsOfExample();
    InnerReads();
    TreeOpens(InnerRun().AsRun(), InnerFrame().Resolver(), INPUT);
    assert MayHold(INNER.steps[0].condition, InnerFrame().Resolver()) == Value(false);
    assert Walk(map["inner" := INNER], INNER.steps[1..], InnerFrame(), ["inner"]) == Uses([]);
  }

  /** In the run it holds: the text "false" is not empty. */
  lemma InnerRuns()
    ensures Executes(map["inner" := INNER], INNER.steps, InnerRun(), ["inner"], Executed(["inner"], GUARDED, InnerRun()), 0)
  {
    KeywordsOfExample();
    InnerReads();
    TreeEvaluates(Concrete(InnerRun().AsRun()), INPUT);
    assert Holds(INNER.steps[0].condition, InnerRun().AsRun());
  }

  /** The falsy flag reaches the action as the text "false", its guarded save
      runs, and the walk has dropped it: `CallsKept` cannot be left out. */
  lemma {:induction false} FalsyInputIsMissed()
    ensures Agrees(STATIC.Resolver(), FlaggedRun().AsRun())
    ensures Walk(map["inner" := INNER], [OUTER], STATIC, []) == Uses([])
    ensures Executes(map["inner" := INNER], [OUTER], FlaggedRun(), [], Executed(["inner"], GUARDED, InnerRun()), 1)
  {
    PassedFalse();
    InnerSkipped();
    InnerRuns();
    var actions := map["inner" := INNER];
    assert [] + ["inner"] == ["inner"];
    assert WalkStep(actions, OUTER, STATIC, []) == Uses([]);
    assert [OUTER][1..] == [];
    assert [OUTER][0] == OUTER && Holds(OUTER.condition, FlaggedRun().AsRun());
  }
}
