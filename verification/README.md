# Verified models of the release and assembly checkers

The repository's release gate is a set of small static analysers, resolvers and
state machines. This project models their logic in Dafny 4.11 and proves what
each of them is for.

- **Workflow expressions** (`Text`, `ExpressionGrammar`, `SyntaxTrees`, `WorkflowExpressions`,
  `ExpressionMeaning`, `OpenExpressions`). The one-pass expression evaluator is a parser
  object over a semantics; the concrete and the three-valued evaluators are two semantics
  for it. The parser decides the grammar, evaluates what it parses to what the operators
  mean, and the three-valued evaluator is sound, monotone and, on read-once conditions, exact.
- **Cache keys** (`Globs`, `CacheSteps`, `CacheWalk`). Glob intersection is an
  exact decision procedure, and a step's patterns are for exactly the keys it may use; no executed cache step and no coincidence of a saved
  with a restored key is missed, except through an input known to be falsy.
- **Native cost** (`RealSquares`, `NativeCost`, `NativeCostCell`). The Fieller interval and the
  threshold difference always decide alike, in exact arithmetic, and are what the
  formulas say of the durations.
- **Component archives** (`ArchiveLinks`, `ArchiveMembers`, `ArchiveExtraction`,
  `ArchiveAssembly`). The link queue is pathname resolution, up to two limits that it breaks
  off at exactly, and stays inside the resources; extraction never takes an illegal step and reproduces the archive.
- **Bazel features** (`BazelFeatures`). A clean closure check means no release
  configuration builds a forbidden feature, exactly as far as it reads the labels.
- **Changelog** (`Changelog`, `ChangelogStamp`, `ChangelogOutcome`, `ChangelogCycle`). Each
  outcome of the stamper and the gate has its exact condition on the lines; stamping conserves the notes and the link chain; every run of the release cycle keeps
  the gate satisfied.
- **Rust sources** (`RustText`, `CommentStripping`, `CfgPredicates`, `CompiledOut`,
  `BlankingCompleteness`, `LiteralMatches`). Comment stripping follows the grammar of
  comments and literals and is idempotent; a `cfg` seen to need a feature
  is false without it; only code compiled out is blanked, by Rust's own literals, in a text
  with no raw C string, no `cfg` inside a literal and none on what merely starts like an item;
  and what a `cfg` compiles out is blanked.
- **Smaller algorithms** (`Ordering`, `RequiredKeys`, `JsonDiff`, `CrateLevels`).
  Required-key normal form with cyclic references, a JSON-pointer difference that
  rebuilds the new document, and optimal publish levels.

Check the project with `dafny verify dfyconfig.toml`.

Six promises turn out to be false of the code. Each has an input that breaks it and the
condition under which it holds:

- an action input recorded as falsy is passed on unchanged, although the text
  "false" is truthy: `AsInputSoundExactly`, `TemplateSoundExactly`, `CallSoundExactly`,
  `FramesAgreeExactly`, `FalsyInputIsMissed`;
- the closure check drops a dependency written as `evil` or `@//app:evil`, which the
  build links: `UnreadLabelHides` for every such spelling, `LabelReadExactly`,
  `CleanCheckSoundExactly`;
- the blanking acts on a `cfg` inside a string literal, misreads raw C strings, and takes a
  match arm that starts with `crate` for an item; each can hide code: `CodeIsHidden`,
  `CodeBehindRawCIsHidden`, `NextArmIsHidden`, and `BlankingSound` without them;
- a stamp whose `[Unreleased]:` reference lies above the first heading puts the
  new heading above the pending notes, and is refused when repeated:
  `MisplacedStamp`, `StampMisplaces`, `StampPlacesNotesExactly`, `StampIdempotentExactly`;
- a changed document that is not an object on both sides is reported as `/`,
  which RFC 6901 reads as the member with the empty name: `ChangedReconstructsExactly`;
- a schema's keywords beside a reference, or beside its first applicator, are not
  read: `KeywordBesideReferenceIgnored`, `LaterApplicatorIgnored`. `PlainNormalForm` has the
  condition to check beforehand, `NormalFormExactly` the exact one, on the variants.

In `cfg_requires`, the empty `any()` is false everywhere and still not seen to need the feature (`EmptyAnyIsMissed`).
The documentation promises nothing about it.

## Model

| member | source | states |
|---|---|---|
| `ExpressionGrammar.Parser.Parse` | scripts/check_release_workflow_contract.py:441-445 | The parser object, started at index 0, returns the grammar's evaluation of the whole token sequence, trailing tokens refused |
| `ExpressionGrammar.Parser.ParseOr` | scripts/check_release_workflow_contract.py:447-453 | The `or` loop is level 0 of the grammar, left associative, and leaves the index where the level ends |
| `ExpressionGrammar.Parser.ParseAnd` | scripts/check_release_workflow_contract.py:455-461 | The `and` loop is level 1 |
| `ExpressionGrammar.Parser.ParseEquality` | scripts/check_release_workflow_contract.py:463-470 | The equality loop is level 2 |
| `ExpressionGrammar.Parser.ParseUnary` | scripts/check_release_workflow_contract.py:472-476 | Negation binds tighter than every connective |
| `ExpressionGrammar.Parser.ParsePrimary` | scripts/check_release_workflow_contract.py:478-508 | Literals, groups, calls and paths, with their errors |
| `ExpressionGrammar.Parser.ParseArguments` | scripts/check_release_workflow_contract.py:494-502 | The argument loop collects every argument up to the closing parenthesis |
| `SyntaxTrees.ParserDecidesGrammar` | scripts/check_release_workflow_contract.py:441-508 | The parser accepts exactly the token sequences with a derivation in the precedence grammar, and the tree it builds is the unique one that yields them |
| `SyntaxTrees.OnePassIsParseThenEvaluate` | scripts/check_release_workflow_contract.py:441-508 | Evaluating while parsing returns a value if and only if some derivation yields the tokens and folds to that value, for every semantics |
| `SyntaxTrees.SameTree` | scripts/check_release_workflow_contract.py:2880-2901 | The overriding parser, which looks for calls first, works on the same tree as the plain one |
| `ExpressionMeaning.EvaluationMeans` | scripts/check_release_workflow_contract.py:376-508 | An expression's tokens evaluate to a value if and only if tables of their own give it on the values of the operands' tokens: `||`, `&&`, comparison without case, negation, the string functions, calls and paths |
| `ExpressionMeaning.ConnectiveTokens` | scripts/check_release_workflow_contract.py:447-470 | Two operands around `||` give the left value unless it is falsy, around `&&` the right one unless the left is falsy, around `==` and `!=` the comparison of their folded texts |
| `ExpressionMeaning.AndBeforeOr` | scripts/check_release_workflow_contract.py:447-461 | `&&` binds tighter than `||`, on either side |
| `ExpressionMeaning.EqualBeforeAnd` | scripts/check_release_workflow_contract.py:455-470 | A comparison binds tighter than `&&`, and comparisons group to the left |
| `ExpressionMeaning.NotBeforeEqual` | scripts/check_release_workflow_contract.py:463-476 | `!` binds to the operand behind it alone |
| `ExpressionMeaning.LiteralMeans` | scripts/check_release_workflow_contract.py:484-493 | A quoted text is read back with its doubled quotes halved, a number as its text, and the keywords in any case |
| `ExpressionMeaning.StatusMeans` | scripts/check_release_workflow_contract.py:396-404 | In an event's run `success()` and `always()` are true, `failure()` and `cancelled()` false |
| `WorkflowExpressions.RefNameExactly` | scripts/check_release_workflow_contract.py:296-308 | A ref loses `refs/`, its kind and a slash, and what is no such ref stays whole |
| `WorkflowExpressions.NeedsRead` | scripts/check_release_workflow_contract.py:354-359 | `needs.<job>.result` and `needs.<job>.outputs.<name>` read what the context has for them, for every job and name |
| `WorkflowExpressions.StepsRead` | scripts/check_release_workflow_contract.py:360-370 | `steps.<id>.outcome`, `.conclusion` and `.outputs.<name>` likewise |
| `WorkflowExpressions.VariablesRead` | scripts/check_release_workflow_contract.py:348-353 | `vars.<name>` and `github.event.inputs.<name>` read the value, or empty |
| `WorkflowExpressions.GithubRead` | scripts/check_release_workflow_contract.py:333-347 | The fixed paths of the github context read its fields |
| `OpenExpressions.EventAgrees` | scripts/check_release_workflow_contract.py:2804-2831 | An open frame over-approximates every event context with its event name and ref |
| `OpenExpressions.FrameKnows` | scripts/check_release_workflow_contract.py:2819-2831 | The frame knows its event, its ref and the ref's name, its inputs and its env by their names |
| `OpenExpressions.OpenParserSound` | scripts/check_release_workflow_contract.py:2834-2901 | Whenever the concrete parser returns a value, the open one returns that value or an unknown with no other truthiness, on every token sequence and agreeing run |
| `OpenExpressions.MayHoldSound` | scripts/check_release_workflow_contract.py:2916-2920 | A condition that holds in some agreeing run may hold: the answer is no only when it is falsy in all of them |
| `OpenExpressions.OpenParserMonotone` | scripts/check_release_workflow_contract.py:2837-2901 | More precise knowledge never makes a result less precise and never contradicts a known truthiness |
| `OpenExpressions.ConnectivesExact` | scripts/check_release_workflow_contract.py:2837-2859 | The three-valued connectives know a truthiness if and only if the operands cannot produce the other one |
| `OpenExpressions.ValuesExact` | scripts/check_release_workflow_contract.py:2837-2871 | A connective keeps a value if and only if every pair of values its operands stand for gives that value |
| `OpenExpressions.KnownIsConcrete` | scripts/check_release_workflow_contract.py:2834-2901 | An expression over known paths, calling only `always` and the string functions, is read as the run evaluates it |
| `OpenExpressions.MayHoldExact` | scripts/check_release_workflow_contract.py:2904-2920 | On conditions that read each unknown once, it says a condition may hold if and only if some context that fits the frame makes it hold |
| `Globs.Match` | scripts/check_release_workflow_contract.py:2975-2987 | The memoised recursion returns what the recursion without memo returns, and keeps the memo correct |
| `Globs.GlobsOverlap` | scripts/check_release_workflow_contract.py:2970-2989 | True if and only if some string matches both patterns, case aside |
| `Globs.OverlapExact` | scripts/check_release_workflow_contract.py:2970-2989 | The recursion decides the existence of a common string, in both directions |
| `CacheSteps.AsInputSoundExactly` | scripts/check_release_workflow_contract.py:2923-2931 | Passing a value as an action input keeps the approximation of every concrete value if and only if it is not an unknown recorded as falsy |
| `CacheSteps.TemplateSoundExactly` | scripts/check_release_workflow_contract.py:2934-2953 | An open template approximates the rendering of an agreeing run if and only if it is no lone expression recorded as falsy, or the rendering is empty |
| `CacheSteps.RenderingMatchesPattern` | scripts/check_release_workflow_contract.py:2934-2953 | Every concrete rendering of a template matches its rendering with stars |
| `CacheSteps.RestoredBy` | scripts/check_release_workflow_contract.py:3082-3109 | Whatever key a step restores, one of its restore patterns matches it |
| `CacheSteps.CoincidenceOverlaps` | scripts/check_release_workflow_contract.py:2956-2967 | If two agreeing runs let a saved key equal a restored key or start with a restore-key, some pair of their specs overlaps |
| `CacheSteps.FamilyOverlapsExactly` | scripts/check_release_workflow_contract.py:2956-2968 | A family and a whole key overlap, in either order, if and only if some key is the family's name, a dash and a suffix and matches both |
| `CacheSteps.SameKindOverlapsExactly` | scripts/check_release_workflow_contract.py:2956-2968 | Two specs of one kind overlap if and only if their patterns have a string in common; equal ones do |
| `CacheSteps.RenderMeans` | scripts/check_release_workflow_contract.py:2934-2953 | A run renders a template to what fills it with the texts of its expressions |
| `CacheSteps.PatternExact` | scripts/check_release_workflow_contract.py:2934-2953 | The `*` rendering matches exactly what fills the template, known parts by their text and unknown ones by anything |
| `CacheSteps.KnownTemplate` | scripts/check_release_workflow_contract.py:2934-2953 | A template whose expressions are known is read as the text the run renders |
| `CacheSteps.KeySpecsExactly` | scripts/check_release_workflow_contract.py:3108-3113 | The specs of a step are for exactly the keys it may restore and save: its key, or any where it is absent or empty, and what a restore key may start |
| `CacheWalk.InnerAgreesExactly` | scripts/check_release_workflow_contract.py:3149-3174 | Inside a call the frame still agrees with the run if and only if the call passes no text that is not empty for an input recorded as falsy |
| `CacheWalk.FramesAgreeExactly` | scripts/check_release_workflow_contract.py:3149-3174 | At every depth of local actions at once, the walk's frames agree with the run if and only if no call the run makes passes such a text |
| `CacheWalk.WalkMissesNothing` | scripts/check_release_workflow_contract.py:3149-3174 | Every cache step that a run executes, at any depth of local actions, is in the walk, in a frame that agrees with its part of the run, when no call of the run passes such a text |
| `CacheWalk.WalkExactly` | scripts/check_release_workflow_contract.py:3149-3174 | The walk fails if and only if it comes to a condition it cannot evaluate or a call it cannot enter, and otherwise reports exactly the cache steps it comes to whose conditions may hold |
| `CacheWalk.InputsKnown` | scripts/check_release_workflow_contract.py:3166-3174 | An action receives the texts passed to it and its defaults elsewhere, and what the frame knows of a call it knows inside |
| `CacheWalk.KeptForEveryRun` | scripts/check_release_workflow_contract.py:3149-3174 | No agreeing run does, when no call the walk follows has an input recorded as falsy: a condition on the walk alone |
| `CacheWalk.CallSoundExactly` | scripts/check_release_workflow_contract.py:3166-3174 | The walk of a call misses no cache step, whatever steps the action has and however deep its own calls, these passing no such text, if and only if no agreeing run passes one in the call itself |
| `CacheWalk.NoCoincidenceMissed` | scripts/check_release_workflow_contract.py:2956-3174 | If a run of one job saves a key that a run of another restores, no call of the two passing such a text, the two walks hold uses whose specs overlap, each read in its own frame |
| `CacheWalk.FalsyInputIsMissed` | scripts/check_release_workflow_contract.py:2923-2931 | A run whose inner cache step executes and which the walk leaves out, through an input recorded as falsy |
| `NativeCost.SumOfSquaresIsQuadratic` | scripts/analyze-native-cost.py:252-257 | The squared deviations of b - r a are the quadratic in r given by the variances and the covariance |
| `NativeCost.DiscriminantNonNegative` | scripts/analyze-native-cost.py:258-260 | With aa > 0 the discriminant is never negative |
| `NativeCost.RatioInInterval` | scripts/analyze-native-cost.py:265-267 | The ratio of means lies in the ratio interval |
| `NativeCost.DecisionsAgree` | scripts/analyze-native-cost.py:265-275 | The decision from the ratio interval at 1.10 is the decision from the difference interval at 0 |
| `NativeCost.ValidatePairOrder` | scripts/analyze-native-cost.py:31-44 | Accepts if and only if the warm-up count is in range and every pair ran in its alternating order |
| `NativeCost.StrataBalanced` | scripts/analyze-native-cost.py:248-251 | Validated pairs put both orders in every adjacent block, so the strata have equal size |
| `NativeCost.StrataPartition` | scripts/analyze-native-cost.py:278-281 | The sizes and sums of the two strata add up to the sample's |
| `NativeCost.MediantBetween` | scripts/analyze-native-cost.py:278-284 | The ratio of sums lies between the two ratios |
| `NativeCostCell.CellFacts` | scripts/analyze-native-cost.py:254-282 | The pooled ratio of a validated cell lies between the ratios of its two order strata |
| `NativeCostCell.FitIs` | scripts/analyze-native-cost.py:248-262 | The fit has the means of the durations, the Fieller coefficients of their block covariances, given by raw moments, and the variance of the threshold difference |
| `NativeCostCell.FixedMeanCell` | scripts/analyze-native-cost.py:245-288 | The ratio interval's ends are the two ordered roots of the Fieller quadratic, the difference interval is centred on the difference with squared half width Q times its variance, both exist exactly where the study's guard holds, and both decide alike; each stratum's figure is the ratio of the totals of its pairs; the classification is Clear or Miss exactly when interval and both strata agree |
| `ArchiveLinks.ResolveLink` | connect/scripts/assemble-connect-product.py:280-303 | The queue and stack loop, terminating by links left and parts pending, computes the recursive resolution |
| `ArchiveLinks.QueueIsLookup` | connect/scripts/assemble-connect-product.py:280-303 | What the queue finds, pathname resolution (section 4.13 of POSIX.1-2017 Base Definitions) finds; what it refuses apart from its own limits, resolution refuses |
| `ArchiveLinks.QueueExactly` | connect/scripts/assemble-connect-product.py:278-305 | The queue answers `Escapes` if and only if the first turn of an unlimited resolution to break a limit is a `..` at three parts or fewer, `TooLong` if and only if it is an expansion to more than 4096 parts, and otherwise finds or refuses exactly what a lookup does |
| `ArchiveLinks.TurnsAreLookup` | connect/scripts/assemble-connect-product.py:278-305 | The turns of the unlimited resolution end with nothing pending if and only if a lookup succeeds, and where it does |
| `ArchiveLinks.RelativeExactly` | connect/scripts/assemble-connect-product.py:273-275 | A target is relative if and only if its text is not empty, does not start with a slash and has no backslash |
| `ArchiveLinks.LookupConcat` | connect/scripts/assemble-connect-product.py:299-300 | Putting a target before the pending parts is resolving the target, then the rest |
| `ArchiveLinks.LookupEndsAtObject` | connect/scripts/assemble-connect-product.py:280-303 | Resolution ends at an existing entry that is not a link |
| `ArchiveLinks.QueueConfined` | connect/scripts/assemble-connect-product.py:284-288 | Once under the resource root, no step of the queue leaves it, and a found path is under it |
| `ArchiveMembers.CollectEntries` | connect/scripts/assemble-connect-product.py:243-266 | Succeeds if and only if every header is acceptable, no collision key repeats and both limits hold; returns the entries |
| `ArchiveMembers.HeaderExactly` | connect/scripts/assemble-connect-product.py:245-266 | A header is accepted if and only if no part is empty, `.`, `..` or has a backslash, it is one of the four layout directories or below the resources, has no special mode bit, and no payload unless a file |
| `ArchiveMembers.CheckEntries` | connect/scripts/assemble-connect-product.py:267-305 | Accepts if and only if the layout, every parent and every link are as required |
| `ArchiveMembers.ComponentMembers` | connect/scripts/assemble-connect-product.py:240-306 | Accepts if and only if both passes do, and returns the entry map |
| `ArchiveMembers.EscapeTestImplied` | connect/scripts/assemble-connect-product.py:304-305 | In an accepted layout the final escape test can never fail, and no intermediate stack leaves the resources |
| `ArchiveMembers.LinkAcceptedExactly` | connect/scripts/assemble-connect-product.py:273-305 | A link is accepted if and only if its target is relative and short enough, no turn climbs out or overflows, and a lookup finds something |
| `ArchiveMembers.AcceptedLinkResolves` | connect/scripts/assemble-connect-product.py:276-305 | Every link of an accepted archive resolves by pathname resolution within forty links to a non-link entry under the resources |
| `ArchiveExtraction.FileSystem.Create` | connect/scripts/assemble-connect-product.py:350-353 | A creation succeeds exactly when the path is absent and reached through real, searchable directories into a writable one |
| `ArchiveExtraction.CreationLegal` | connect/scripts/assemble-connect-product.py:348-352 | In the depth order each creation finds its parents present as real directories and its own path absent |
| `ArchiveExtraction.CreateObjects` | connect/scripts/assemble-connect-product.py:348-355 | All files and directories are created; no step fails |
| `ArchiveExtraction.CreateLinks` | connect/scripts/assemble-connect-product.py:356-362 | Links are created after every object; it fails exactly when a link's mode cannot be given |
| `ArchiveExtraction.ModeLegal` | connect/scripts/assemble-connect-product.py:363-365 | When a directory gets its final mode, it still has its staging mode and every directory above it can be searched |
| `ArchiveExtraction.AboveLater` | connect/scripts/assemble-connect-product.py:363 | In descending name order a directory comes after everything below it, so it gets its final mode last |
| `ArchiveExtraction.RestoreModes` | connect/scripts/assemble-connect-product.py:363-365 | Every directory ends with its own mode |
| `ArchiveExtraction.ExtractComponent` | connect/scripts/assemble-connect-product.py:345-365 | From an empty directory, every step is legal, and the final tree holds exactly the entries: each file with its content and mode, each directory with its mode, each link with its target and mode |
| `ArchiveAssembly.AssembleComponent` | connect/scripts/assemble-connect-product.py:240-365 | Read and extract together: refused archives create nothing, accepted ones are reproduced, entry by entry with content, target and mode |
| `ArchiveAssembly.AcceptedNames` | connect/scripts/assemble-connect-product.py:240-266 | The names of an accepted archive list its entries once each, and each entry is its header's member |
| `BazelFeatures.AlternativesExact` | scripts/check-bazel-release-features.py:141-154 | A value is among the release alternatives if and only if some configuration with the release setting takes it |
| `BazelFeatures.EvaluateCovers` | scripts/check-bazel-release-features.py:157-161 | The evaluated items contain what any release configuration chooses, over sums of lists and selects |
| `BazelFeatures.EvaluateExactly` | scripts/check-bazel-release-features.py:157-187 | A value is refused if and only if some term cannot be read, and otherwise has exactly the items some release configuration may take |
| `BazelFeatures.NonShippingExactly` | scripts/check-bazel-release-features.py:108-109 | A feature is non-shipping if and only if it is a listed name, or ends in a slash and a listed name without one |
| `BazelFeatures.TestVariantExactly` | scripts/check-bazel-release-features.py:59-59 | A test variant is what ends in one of the two suffixes |
| `BazelFeatures.AbsoluteExactly` | scripts/check-bazel-release-features.py:195-196 | A label without a colon gets its last part as its target |
| `BazelFeatures.LabelExactly` | scripts/check-bazel-release-features.py:190-197 | The check reads `:name` in its package and `//` labels in full, and nothing else |
| `BazelFeatures.SuccessorsExactly` | scripts/check-bazel-release-features.py:330-347 | The walk goes from a target to exactly the labels that an item of its rule, in some release configuration, is read as |
| `BazelFeatures.LabelReadExactly` | scripts/check-bazel-release-features.py:190-197 | An item is read as the build reads it if and only if it starts with a colon or two slashes or names another repository |
| `BazelFeatures.LinkedIsReachable` | scripts/check-bazel-release-features.py:181-197 | When no taken item names an unwalked target, everything a release build links is walked, whatever the unwalked rules are |
| `BazelFeatures.CheckClosure` | scripts/check-bazel-release-features.py:315-348 | The worklist terminates, visits exactly the reachable labels, reports exactly the undefined, the other than Rust, the test-named and the listed features enabled among them, and stops with a guard error exactly when a reachable rule cannot be read |
| `BazelFeatures.CleanCheckSoundExactly` | scripts/check-bazel-release-features.py:315-348 | A clean check rules out test variants, unknown rules and listed features in every release build, whatever the rules not walked, if and only if no release build takes an item that names an unwalked target |
| `BazelFeatures.CleanCheckIsSound` | scripts/check-bazel-release-features.py:315-348 | It does when every item taken from a walked rule is read as the build reads it |
| `BazelFeatures.UnreadLabelHides` | scripts/check-bazel-release-features.py:190-197 | Every item the build reads and the check does not gives a workspace with a clean check and a release build that links a listed feature |
| `BazelFeatures.DroppedSpellings` | scripts/check-bazel-release-features.py:190-197 | Two such items: a bare name, and a main-repository label with an at sign |
| `Changelog.ParseChangelog` | scripts/check_semver_breaks.py:550-572 | The pass with an open section gives the sections of the file |
| `Changelog.SectionsPartition` | scripts/check_semver_breaks.py:550-572 | The preamble and the sections, written out again, are the file |
| `Changelog.ReferencePositions` | scripts/stamp-changelog-release.py:57-67 | Succeeds if and only if no reference repeats; maps each name to its line |
| `ChangelogStamp.PrepareLinks` | scripts/stamp-changelog-release.py:70-110 | The in-place edit of two reference lines is the relinking of the file, refused exactly where the checks refuse |
| `ChangelogStamp.ValidateLinks` | scripts/stamp-changelog-release.py:113-140 | Accepts if and only if both references compare the right versions |
| `ChangelogStamp.PositionsDelimit` | scripts/stamp-changelog-release.py:186-193 | The heading positions are where the sections start, and delimit the pending body |
| `ChangelogStamp.ChangelogFile.StampRelease` | scripts/stamp-changelog-release.py:186-267 | The file ends as the specified stamp, and unchanged when refused or already stamped |
| `ChangelogOutcome.PreparedExactly` | scripts/stamp-changelog-release.py:70-110 | The links are advanced if and only if no reference repeats, the previous version has one, the new one has none and one line compares the previous version with the head; that line becomes two |
| `ChangelogOutcome.LinksValidExactly` | scripts/stamp-changelog-release.py:113-140 | The links are valid if and only if no reference repeats and two lines compare the version with the head and the previous version with it, under one prefix |
| `ChangelogOutcome.AlreadyExactly` | scripts/stamp-changelog-release.py:203-244 | A file is already stamped if and only if its topmost heading, an empty pending one apart, is the version's, dated, and the links compare it with the next |
| `ChangelogOutcome.StampedExactly` | scripts/stamp-changelog-release.py:186-267 | A stamp is made if and only if the first heading is pending with notes, no other heading is the version's and the links can be advanced, and it writes exactly those lines; everything else is refused |
| `ChangelogOutcome.GateExactly` | scripts/check_semver_breaks.py:814-850 | The gate accepts a file if and only if the declaring section is the version's and dated, or is pending and the topmost version is the version |
| `ChangelogOutcome.BaselineExactly` | scripts/check_semver_breaks.py:597-625 | The baseline is the workspace version if and only if the declaring section is pending and the topmost version is it, dated |
| `ChangelogCycle.RelinkKeepsSections` | scripts/stamp-changelog-release.py:70-110 | Advancing the links touches no heading and acts on each body by itself |
| `ChangelogCycle.StampConserves` | scripts/stamp-changelog-release.py:258-267 | The pending body moves under the new heading, an empty stub stays above, every other section keeps its place and content |
| `ChangelogCycle.StampMisplaces` | scripts/stamp-changelog-release.py:190-266 | With the reference above the first heading, the new heading lands above the pending one, with an empty body |
| `ChangelogCycle.StampPlacesNotesExactly` | scripts/stamp-changelog-release.py:190-266 | The notes land under the new heading if and only if the reference lies below the first heading |
| `ChangelogCycle.StampTargets` | scripts/stamp-changelog-release.py:103-110 | Exactly one reference is added and one advanced; every other keeps its target |
| `ChangelogCycle.StampLinksValid` | scripts/stamp-changelog-release.py:113-140 | A stamped file passes the link validation |
| `ChangelogCycle.StampIdempotentExactly` | scripts/stamp-changelog-release.py:203-244 | A second stamp for the same version, on any date, changes nothing if and only if the reference lies below the first heading or the first two headings have one name; otherwise it is refused |
| `ChangelogCycle.MisplacedStamp` | scripts/stamp-changelog-release.py:186-267 | A file of five lines whose stamp is misplaced and then refused |
| `ChangelogCycle.ReleaseSucceedsExactly` | scripts/stamp-changelog-release.py:186-267 | From a well-formed file a release succeeds if and only if there are notes and the version is new |
| `ChangelogCycle.ReleaseKeeps` | scripts/stamp-changelog-release.py:186-267 | A release keeps the file well formed: dated headings, no repeated version, references comparing consecutive versions |
| `ChangelogCycle.NoteKeeps` | scripts/check_semver_breaks.py:530-572 | Adding a note under the pending heading keeps the file well formed |
| `ChangelogCycle.GateOnWellFormed` | scripts/check_semver_breaks.py:597-621 | On a well-formed file the gate accepts exactly the workspace version, and the baseline is the workspace version exactly when there are notes |
| `ChangelogCycle.EveryRunStaysReleasable` | scripts/check_semver_breaks.py:814-850 | Both hold after every sequence of notes and releases |
| `ChangelogCycle.HalfReleaseRefused` | scripts/check_semver_breaks.py:814-850 | Stamping without bumping, or bumping without stamping, is refused |
| `CommentStripping.StripComments` | scripts/published_crates_standalone.py:395-446 | The index loop computes the segment-by-segment stripping, nested comments, raw strings and unterminated literals included |
| `CommentStripping.BlockExactly` | scripts/published_crates_standalone.py:407-416 | A block comment ends where the grammar of nested comments says, and at the end of the text when nothing closes it |
| `CommentStripping.NextExactly` | scripts/published_crates_standalone.py:402-446 | At each position the scan takes a line comment, a block comment, a raw string, string or character literal, each by what closes it, or one character |
| `CommentStripping.StripExactly` | scripts/published_crates_standalone.py:395-447 | The result is the text so divided, every character of a comment but newlines a space and everything else kept, and nothing else is |
| `CommentStripping.StripOnlyBlanks` | scripts/published_crates_standalone.py:395-446 | Length and newlines stay, and a changed character became a space |
| `CommentStripping.StripIdempotent` | scripts/published_crates_standalone.py:395-446 | The result has no comment left, and stripping it again changes nothing |
| `CfgPredicates.Parse` | scripts/published_crates_standalone.py:471-494 | The one-pass parse fails exactly when the grammar does, stops where it stops, and answers for the tree it read |
| `CfgPredicates.CfgRequires` | scripts/published_crates_standalone.py:458-500 | True exactly when the tokens parse to the end and the tree needs the feature; then it is false without the feature |
| `CfgPredicates.WrittenIsRead` | scripts/published_crates_standalone.py:471-494 | Every predicate, written out, is read back |
| `CfgPredicates.NeedsExactly` | scripts/published_crates_standalone.py:458-461 | Needing the feature implies being false in every compilation without it, and is equivalent to it when no any() is empty, not() and unknown calls left open |
| `CfgPredicates.EmptyAnyIsMissed` | scripts/published_crates_standalone.py:491-492 | The empty any() is false everywhere and not seen to need the feature |
| `RustText.StringEndExactly` | scripts/published_crates_standalone.py:518-522 | A string ends at the first quote preceded by an even number of backslashes |
| `CompiledOut.StringExactly` | scripts/published_crates_standalone.py:518-522 | A string literal ends after the first quote that no backslash escapes |
| `CompiledOut.RawExactly` | scripts/published_crates_standalone.py:507-516 | A raw string ends after the first quote followed by as many hashes as opened it |
| `CompiledOut.CharacterExactly` | scripts/published_crates_standalone.py:523-528 | A quote starts a character literal if and only if two characters follow and the first is a backslash or the second a quote; it ends behind that quote, or behind the first one after the escaped character |
| `CompiledOut.PrefixExactly` | scripts/published_crates_standalone.py:507-517 | A byte prefix in front of a quote starts what that quote starts, with the same end; only a quote, or an `r` or `b` that opens a raw string or prefixes a quote, starts a literal |
| `CompiledOut.SkipLiteral` | scripts/published_crates_standalone.py:503-528 | The scan finds the end of the literal so delimited, or that none starts |
| `CompiledOut.MatchingClose` | scripts/published_crates_standalone.py:531-546 | The loop finds the recursively defined matching bracket |
| `CompiledOut.CloseExactly` | scripts/published_crates_standalone.py:531-546 | The match is the first bracket outside literals that brings the depth to 0, and is missing only when there is none |
| `CompiledOut.SkipAttributes` | scripts/published_crates_standalone.py:549-558 | The loop skips exactly the attributes and white space |
| `CompiledOut.AttributesExactly` | scripts/published_crates_standalone.py:549-558 | What is skipped is a run of attributes, each up to its matching bracket, and then white space, or an attribute never closed and all that follows |
| `CompiledOut.ItemExactly` | scripts/published_crates_standalone.py:569-587 | An item ends at the first semicolon of the code at depth 0, or at the match of the first opening brace there, and not at all when an unmatched closing bracket comes first |
| `CompiledOut.ItemEnd` | scripts/published_crates_standalone.py:561-587 | The loop gives the extent of the item behind the attributes, and none for anything else |
| `CompiledOut.LiteralsAgreeExactly` | scripts/published_crates_standalone.py:503-528 | The check and Rust read what starts at a position alike if and only if no C string starts there |
| `CompiledOut.ExtentsAgree` | scripts/published_crates_standalone.py:531-587 | In a text without raw C strings the check finds the item extents that Rust's literals give |
| `CompiledOut.VisitsAgree` | scripts/published_crates_standalone.py:531-546 | And both scans visit the same positions, quotes apart |
| `CompiledOut.BlankingSound` | scripts/published_crates_standalone.py:590-619 | Without raw C strings, with every attribute acted on in the code, and with a Rust item wherever the start pattern accepts one behind it, each blanked range is an item, or file, that Rust's literals delimit and whose cfg is false in every compilation without the feature |
| `BlankingCompleteness.BlankingComplete` | scripts/published_crates_standalone.py:590-619 | A cfg that is false without the feature, with no empty `any()`, inside no other cfg attribute and in no item already blanked, has its item blanked from the attribute to its end, or, leading the file, the whole file |
| `CompiledOut.PlanIsGuarded` | scripts/published_crates_standalone.py:590-619 | In a text with no raw C string, no cfg inside a literal and none on what only starts like an item, every blanked character lies in such an item or file |
| `LiteralMatches.CodeIsHidden` | scripts/published_crates_standalone.py:597-619 | A file with a cfg inside a raw string, behind which a character of the code is blanked that nothing compiles out |
| `LiteralMatches.CodeBehindRawCIsHidden` | scripts/published_crates_standalone.py:503-528 | A file with a cfg in the code on a static item with a raw C string, behind whose end a character is blanked that nothing compiles out |
| `LiteralMatches.NextArmIsHidden` | scripts/published_crates_standalone.py:452-455 | A file with a cfg on a match arm that starts with `crate`, where the next arm is blanked, which nothing compiles out |
| `CompiledOut.PlanAscends` | scripts/published_crates_standalone.py:599-618 | The blanked ranges follow each other without overlap |
| `CompiledOut.BlankCompiledOut` | scripts/published_crates_standalone.py:590-619 | Terminates, keeps length and newlines, changes characters to spaces only, and only guarded ones in a text with no raw C string, no cfg inside a literal and none on what only starts like an item |
| `RequiredKeys.FindNamedSchema` | scripts/verify_rpc_signature_parity.py:727-741 | The search returns the first of direct member, definition and local definition, document by document |
| `RequiredKeys.FindExactly` | scripts/verify_rpc_signature_parity.py:727-741 | A name is found if and only if some document defines it, and then in the first that does: its own members, its definitions, or the definitions of its members in order |
| `RequiredKeys.RequiredKeyVariants` | scripts/verify_rpc_signature_parity.py:744-781 | The derivation terminates on cyclic references by names not yet seen and schema size, and computes the variants |
| `RequiredKeys.VariantsMembers` | scripts/verify_rpc_signature_parity.py:760-781 | The variants are exactly the required keys with a variant of one branch of `oneOf`, else of `anyOf`, else with one variant of each branch of `allOf` |
| `RequiredKeys.VariantsDistinct` | scripts/verify_rpc_signature_parity.py:769-780 | No variant is listed twice |
| `RequiredKeys.VariantsExact` | scripts/verify_rpc_signature_parity.py:744-781 | A key set meets a variant if and only if it meets the constraints the code reads, a reference alone or the keys and the first applicator, under references that support each other: the greatest fixed point |
| `RequiredKeys.ValidMeetsVariant` | scripts/verify_rpc_signature_parity.py:744-781 | For every validation that respects the keywords, references meaning what the search finds, a valid object's keys contain some variant |
| `RequiredKeys.LastSegmentClash` | scripts/verify_rpc_signature_parity.py:727-755 | Two documents that define one name: the search takes the first, and what the second asks for meets no variant |
| `RequiredKeys.NormalFormExactly` | scripts/verify_rpc_signature_parity.py:744-781 | The variants are a disjunctive normal form of every constraint if and only if each variant alone meets every constraint |
| `RequiredKeys.PlainNormalForm` | scripts/verify_rpc_signature_parity.py:744-781 | They are one when, in the schema and the definitions it can reach, nothing stands beside a reference and each level has one applicator, references cyclic or not |
| `RequiredKeys.ReferenceFreeNormalForm` | scripts/verify_rpc_signature_parity.py:760-781 | Without references and with one applicator at each level, meeting a variant is meeting the required constraints |
| `RequiredKeys.KeywordBesideReferenceIgnored` | scripts/verify_rpc_signature_parity.py:751-758 | A schema with required keys beside a reference whose variants an object without them meets |
| `RequiredKeys.LaterApplicatorIgnored` | scripts/verify_rpc_signature_parity.py:761-769 | A schema with oneOf and anyOf whose variants a key set meets although the anyOf fails |
| `JsonDiff.ChangedPaths` | connect/scripts/check-library-update.py:701-710 | The recursion with a local list gives the rendered changed paths, in key order |
| `JsonDiff.EscapeRoundTrip` | connect/scripts/check-library-update.py:707 | Unescaping by section 4 of RFC 6901 undoes the escaping of every key |
| `JsonDiff.PointerRoundTrip` | connect/scripts/check-library-update.py:707 | Reading a rendered pointer gives back its reference tokens |
| `JsonDiff.DiffEmptyExactly` | connect/scripts/check-library-update.py:702-703 | No path if and only if the documents are equal |
| `JsonDiff.DiffExactly` | connect/scripts/check-library-update.py:701-710 | A path is listed if and only if both documents are objects down to it, and there they differ and are not both objects |
| `JsonDiff.DiffAscends` | connect/scripts/check-library-update.py:705-709 | The paths come in the order of the keys at which they part |
| `JsonDiff.ChangedExactly` | connect/scripts/check-library-update.py:701-710 | Between two objects a pointer is reported if and only if it is that of a difference |
| `JsonDiff.DiffApart` | connect/scripts/check-library-update.py:701-710 | No path is a prefix of another, and none repeats |
| `JsonDiff.DiffReconstructs` | connect/scripts/check-library-update.py:701-710 | Replacing or deleting the changed paths in turn yields the new document |
| `JsonDiff.ChangedReconstructsExactly` | connect/scripts/check-library-update.py:701-710 | The reported pointers rebuild the new document if and only if the documents are equal or both objects |
| `JsonDiff.DeltaClasses` | connect/scripts/check-library-update.py:713-720 | Added, removed and changed are the three ways a key differs, and a changed key lists exactly the differences of its two objects |
| `JsonDiff.DeltaConserves` | connect/scripts/check-library-update.py:713-720 | The four counts add up to the keys of both sides |
| `CrateLevels.ComputeLevels` | scripts/release_crate_levels.py:70-94 | Each refusal exactly on its condition with its list; otherwise rows in order whose levels put dependencies strictly lower and one of them exactly one below |
| `CrateLevels.DependenciesExactly` | scripts/release_crate_levels.py:60-68 | A release crate is a dependency if and only if some dependency that is not dev-only has its name, and it is not the package itself |
| `CrateLevels.ByNameExactly` | scripts/release_crate_levels.py:77-77 | A crate's package is the last one of its name, and there is one if and only if some package has the name |
| `CrateLevels.RefusalsListed` | scripts/release_crate_levels.py:71-80 | The duplicates are exactly the crates listed twice, ascending; the missing exactly those no package has, in order |
| `CrateLevels.ErrorsListed` | scripts/release_crate_levels.py:86-92 | The pairs refused are exactly a crate and one it needs that comes later |
| `CrateLevels.LevelIsLongestChain` | scripts/release_crate_levels.py:85-91 | A level is the length of the longest dependency chain |
| `CrateLevels.LevelIsMinimal` | scripts/release_crate_levels.py:85-91 | No valid assignment gives any crate a lower level |
| `CrateLevels.LevelledIsAcyclic` | scripts/release_crate_levels.py:85-94 | On success no dependency chain returns to its start |

## Left out

- Tokenising: expressions, cfg predicates and changelog lines enter as tokens or
  line structures; YAML splitting, template extraction and the regular
  expressions are not part of the model. In `CompiledOut` the patterns are
  parameters of which only bounds and the closing bracket are assumed.
- ASCII: lower-casing folds ASCII letters only; letters and digits in the Rust scanners are an arbitrary predicate.
- Unicode normalisation and case folding of archive names: an arbitrary key function.
- The key families of rust-cache and the setup actions: only their overlap rule is
  modelled, not how their names are built. Reusable workflows and the `needs`
  closures of scripts/check_release_workflow_contract.py are left out, and
  defaults of action inputs are literal text.
- Floating point: interval arithmetic is over reals and the square root is any exact root; `quantiles` is left out.
- Archive bytes, digests, the umask and the gateway evidence: content is a number, creation modes are as requested.
- JSON text: two documents have the same canonical encoding when they are the
  same value, a scalar being its canonical text; digests in `delta` are left out.
- Error messages: an error is its kind, or the list it names.
- Live services, registry polling, cargo and git calls: network and processes.
- `cfg_requires` on text that is not tokens: a failed tokenisation is the answer no.
- References in schemas: the model follows the code in taking a reference by its last segment; LastSegmentClash shows where that differs from the document it names.
- Versions: the release cycle takes versions without white space, closing bracket or slash, for which a written heading is read back as written.
- BlankingComplete: takes the attribute pattern to be a search and leaves out a cfg with an empty `any()`, which the check does not see to need the feature.
- PatternExact: leaves out a star in the text of a template or of a known value, which the pattern reads as any text.
- KeySpecsExactly: leaves out the same.
- BlankingSound: goes one way, because a cfg inside a literal of code that is itself compiled out does no harm; which words start a Rust item is a parameter, its extent is brackets, literals and semicolons.
- Compiler flags in BUILD files: a feature set through `rustc_flags` is read neither by the check nor by the model.
- MayHoldExact: is stated for conditions that read each unknown once, because a
  three-valued evaluation cannot relate two readings of the same unknown.
- RestoredBy: covers actions/cache, its restore and its save; rust-cache and setup steps are not modelled.
- CoincidenceOverlaps: covers the same steps.
- WalkMissesNothing: assumes that no call of the run passes a text that is not empty for an input recorded as falsy; FramesAgreeExactly and CallSoundExactly say where this is exact.
- NoCoincidenceMissed: assumes the same of both runs, and that the check can read the keys it reports; rust-cache and setup steps are not modelled.
- StampConserves: assumes the `[Unreleased]:` reference lies below the first heading; StampMisplaces says what happens otherwise and StampPlacesNotesExactly that this is exact.
- StampIdempotentExactly: leaves out releasing a version named "unreleased".
