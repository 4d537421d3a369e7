# HeptaBao verification model

A Dafny model of the checking logic in HeptaBao's `scripts/` directory, with proofs about it.
`dafny verify dfyconfig.toml` checks the whole project.

The scripts decide what counts as evidence for the HeptaBao server: whether a recorded history of a
register is linearizable, whether a signature is good, whether a captured response was normalized,
whether a transport run passed, whether a probe matrix is complete, and who signed for it. The
model has one module or group of modules per script:

- `RegisterSpec`, `BacktrackingSearch`, `LinearizabilityChecker`: the linearizability checker, its
  bit masks (`Bits`) and its memo table.
- `PrimeField`, `EdwardsField`, `EdwardsPoints`, `EdwardsGroup`, `DoubleAndAdd`, `ElementOrder`,
  `ScalarMultiplication`, `PointCodec`, `SignatureVerification`, `Ed25519`: the Ed25519 verifier.
  Everything is proved for an arbitrary record of curve constants; `Ed25519` shows that the
  constants of edwards25519 meet its conditions.
- `SplitMix`, `Shuffle`, `RaftModel`, `TaskMachine`: the seeded behaviour harness, as classes that
  change their fields and as state machines over whole runs.
- `JsonPointer`, `Json`, `StableSort`, `Normalizer`, `Redaction`: the oracle normalizer and what its
  output can reveal. `PointerReplacement` and `DocumentStore`: the normalization of captured responses,
  on values and in place on mutable cells.
- `P0Evidence`, `P0Source`, `P0Classification`, `P0Validation`, `P0Pipeline`, `P0Labels`, `P0Cases`: the
  transport evidence from a broken run and its source record to a validated record.
- `ProbeResults`, `MatrixCommand`, `MatrixSummary`, `HeadMatrix`: the exact-head probe matrix.
- `EvidenceSignatures`, `EvidenceKeys`: the trust store and the signatures of an evidence document,
  and its signing keys as points of the curve.
- `CommentStripper`, `RuntimeClosure`: the nested comment stripper and the dependency closure.
- `Sequences`: facts about sequences and permutations used throughout.

Code that loops or updates state is a method or a class here, proved against a function or a
predicate; the theorems are about those. Errors the scripts raise are `None`, `false` or an error
value, never a precondition.

Hypotheses, each a named predicate in the `requires` of the theorems that use it: FIELD is prime
(`IsPrime`), point addition is associative up to `point_equal` (`Associative`, inside `GroupLaw`),
the base point has the group order as its order (`Generator`), and for the theorems about
scalars modulo the order that the order is prime. That D is not a square, that SQRT_M1 is a root of
-1 and that addition is complete are proved.

Parameters standing for what is outside the model: hash functions and digests, the signature
primitives inside `EvidenceSignatures` (`EvidenceKeys` puts the verifier of `SignatureVerification`
in their place), JSON and TOML parsing, `int()` on text, `str()` on values, case folding, the set of
white-space characters, base64, timestamps, and which manifest paths are canonical.

The results the rest builds up to:

- The linearizability checker decides its specification, on operations and on the entries of a
  history as they are read: `LinearizabilityChecker.CheckLinearizable`, `LinearizabilityChecker.Evaluate`.
- Edwards addition is complete and a congruence: `EdwardsPoints.AddValid`, `EdwardsGroup.AddRespectsBoth`.
- Encodings and points correspond one to one: `PointCodec.EncodeDecode`, `PointCodec.DecodeInjective`,
  `PointCodec.DecodeEncode`; an honest signature is accepted exactly when neither key nor nonce is
  the identity, and accepted ones are not malleable and bind their message:
  `SignatureVerification.HonestSignatureAccepted`, `SignatureVerification.ScalarNotMalleable`,
  `SignatureVerification.SignatureBindsMessage`.
- The generator never repeats within its period, the shuffle follows its draws and reaches every order
  once: `SplitMix.OutputsDiffer`, `Shuffle.ShuffledIsDrawn`, `Shuffle.ShuffleIsBijection`.
- What every run of the cluster and of the task machine keeps: `RaftModel.LogIsAcceptedCommands`,
  `RaftModel.CommitsAreLinked`, `RaftModel.CommitsMeetExactly`, `RaftModel.CommitsMeetOnVoters`,
  `TaskMachine.RunConserves`.
- Normalization rewrites exactly where it says and where its rules reach:
  `Normalizer.NormalizeIsRewrite`, `Normalizer.ChangesAreExact`, `Normalizer.TraversalIsExact`,
  `PointerReplacement.ResolveMeans`, `PointerReplacement.ReplaceAllSet`,
  `PointerReplacement.ReplaceAllFrame`, `DocumentStore.WalkReplaces`; its output says nothing about a
  hidden value beyond digest, length and shape: `Redaction.OutcomeHides`.
- The three transport scripts agree on every input: `P0Validation.ValidateFailed`,
  `P0Pipeline.ValidatePassed`, `P0Pipeline.FailedRunRecorded`, `P0Pipeline.WorkflowRunRecorded`,
  `P0Labels.ClassificationSays`.
- Completeness of the probe matrix, of the signatures, of the comment stripper and of the closure:
  `MatrixSummary.BuildSummary`, `EvidenceSignatures.AdmissionSeparates`,
  `EvidenceKeys.AdmittedPointsDiffer`, `CommentStripper.CommentRemoved`, `RuntimeClosure.Compute`.

Findings about the code:

- Commits before and after the harness's own membership change need not share a node: {1, 2} can
  commit before the change from {1, 2, 3} to {2, 3, 4} and {3, 4} after it
  (`RaftModel.HarnessChangeMayNotMeet`). Between two simple configurations of any run they always
  share one exactly when the two quorums together outnumber the union of the voters; when one of the
  two is joint, exactly when fewer voters of the other are to spare than the joint side must take
  from it (`RaftModel.CommitsMeetExactly`).
- The transport pipeline loses three families of failure artifacts. An error message that is not
  empty but consists of white space only is classified and then refused by the validator of failed
  records (`P0Pipeline.SpaceIsNotRecorded`); an empty message is replaced by a default text and
  passes. A run that was started without the right repository name, or with a malformed commit or
  tree option, gets a source record that `classify` refuses (`P0Pipeline.UnknownIsNotRecorded`). A
  run started without the commit or tree option, where the source does not resolve, gets a commit or
  tree of zeros, which a validator that was told to expect another one refuses
  (`P0Pipeline.ZerosAreNotRecorded`). `P0Pipeline.FailedRunRecorded` is the exact condition for any
  expectations of the caller, with `P0Source.FailureSourceIs` saying what the source record holds.
  For callers that give the runner and the validator the same three names, as the workflows do, only
  malformed names and blank messages are lost, whatever the checkout
  (`P0Pipeline.WorkflowRunRecorded`).
- The validator of passing records does not read the model's classification name or its two counts:
  any values there validate (`P0Pipeline.ModelNameUnread`). `P0Pipeline.ValidatePassed` states
  exactly what it does check.
- The check in `recover_x` for x = 0 with sign 1 is never what rejects such an encoding, because x
  has by then become FIELD (`PointCodec.ZeroRecovered`); the subgroup check rejects it
  (`PointCodec.ZeroEncodingRejected`).
- Normalization fails with an encoding error, after all its own checks, exactly when the rule selected
  for some node that the traversal reaches replaces it by a value without a JSON encoding
  (`Normalizer.EncodingIsExact`): a non-finite number, or a value YAML has and JSON has not, such as
  a date. `Normalizer.UnencodableRoot` gives such inputs; a policy whose replacements all encode
  never fails this way (`Normalizer.PolicyEncodes`).
- Three guards can never fire: the sum of the counts in `classify`, the same in `validate_failed`,
  and the status disagreement in `validate_captured_result`.

## Model

| member | source | states |
|---|---|---|
| `RegisterSpec.ReorderInvariant` | scripts/h02_linearizability_checker_v1.py:120-153 | whether a history is linearizable does not depend on the order in which its operations are listed |
| `RegisterSpec.RealTimeIsStrictOrder` | scripts/h02_linearizability_checker_v1.py:100-104 | with invoke < complete, precedence is irreflexive and transitive |
| `RegisterSpec.SomeUnblocked` | scripts/h02_linearizability_checker_v1.py:135-138 | among any non-empty set of remaining operations of a timed history one is blocked by none of the others |
| `RegisterSpec.IndicesToOperations` | scripts/h02_linearizability_checker_v1.py:152-153 | an order of all indices that is legal and respects real time is a linearization of the operations |
| `RegisterSpec.OperationsToIndices` | scripts/h02_linearizability_checker_v1.py:152-153 | every linearization is such an order of the indices |
| `BacktrackingSearch.EligibleMeaning` | scripts/h02_linearizability_checker_v1.py:136-146 | the mask tests and the value tests admit exactly the remaining, unblocked, admissible operations |
| `BacktrackingSearch.MaskRemove` | scripts/h02_linearizability_checker_v1.py:147 | clearing a bit of the mask removes that operation from the remaining set and no other |
| `BacktrackingSearch.SearchIsLeast` | scripts/h02_linearizability_checker_v1.py:130-150 | the plain recursion returns the lexicographically least legal order of the remaining operations, and None exactly when there is none |
| `BacktrackingSearch.LexMeans` | scripts/h02_linearizability_checker_v1.py:130-150 | the order in which witnesses are least is lexicographic: a prefix comes first, else the first difference decides |
| `LinearizabilityChecker.BuildPredecessors` | scripts/h02_linearizability_checker_v1.py:122-126 | bit j of entry i is set exactly when operation j completes before operation i is invoked |
| `LinearizabilityChecker.Checker.Find` | scripts/h02_linearizability_checker_v1.py:129-130 | the cached search returns what the plain recursion returns and keeps the cache sound |
| `LinearizabilityChecker.Checker.Explore` | scripts/h02_linearizability_checker_v1.py:130-150 | the body, run with the cache, agrees with the plain recursion and never re-enters a pair that is in progress |
| `LinearizabilityChecker.ExploredBound` | scripts/h02_linearizability_checker_v1.py:129-132 | explored pairs number at most 2^n times one more than the writes |
| `LinearizabilityChecker.CheckLinearizable` | scripts/h02_linearizability_checker_v1.py:120-153 | true exactly when some permutation of all operations is legal and respects real time; the witness is the lexicographically least one; explored <= 2^n (1 + writes) |
| `LinearizabilityChecker.ValidateOperations` | scripts/h02_linearizability_checker_v1.py:77-114 | the loop accepts exactly 1 to 64 entries, each an object with the right keys and field types, with pairwise different identifiers |
| `LinearizabilityChecker.ValidateHistory` | scripts/h02_linearizability_checker_v1.py:38-117 | accepts exactly an object with the required keys and constants, a string or null initial value, a hexadecimal seed, and 1 to 64 well-formed operations with distinct identifiers |
| `LinearizabilityChecker.RunIsHeld` | scripts/h02_linearizability_checker_v1.py:139-146 | the register of the search holds, before each place, the input of the last write among the entries before it, or the initial value |
| `LinearizabilityChecker.ExplainsIsLegal` | scripts/h02_linearizability_checker_v1.py:77-153 | an order of the entries explains their fields if and only if the operations made from them are legal and respect real time |
| `LinearizabilityChecker.Evaluate` | scripts/h02_linearizability_checker_v1.py:167-177 | BLOCKED exactly on an invalid history; otherwise a pass if and only if some order of the entries as read has no entry after one invoked after it completed, and gives each entry as output the input of the last write before it, or initial_value when there is none, or null on a write; the witness is the least such order by identifier; explored pairs at most 2^n times one more than the writes |
| `LinearizabilityChecker.WitnessNamesOperations` | scripts/h02_linearizability_checker_v1.py:93-95 | in a valid history the reported identifiers determine the order of operations |
| `EdwardsField.InverseIsInverse` | scripts/heptabao_ed25519_v2_5.py:24-25 | value * pow(value, p - 2) is 1 modulo a prime p, by a proof of Fermat's theorem |
| `EdwardsField.TwoIsNonResidue` | scripts/heptabao_ed25519_v2_5.py:14 | 2 is not a square modulo p, which is what makes SQRT_M1 a root of -1 |
| `EdwardsField.SqrtM1Squared` | scripts/heptabao_ed25519_v2_5.py:14 | pow(2, (p - 1) / 4) squares to -1 |
| `EdwardsField.DIsNonSquare` | scripts/heptabao_ed25519_v2_5.py:13 | D is not a square, derived and not assumed |
| `EdwardsPoints.AddCommutes` | scripts/heptabao_ed25519_v2_5.py:51-67 | addition is exactly commutative, coordinate by coordinate |
| `EdwardsPoints.AddOnCurve` | scripts/heptabao_ed25519_v2_5.py:51-67 | the sum of two points with XY = ZT and -X^2 + Y^2 = Z^2 + D T^2 satisfies both equations |
| `EdwardsPoints.NeverExceptional` | scripts/heptabao_ed25519_v2_5.py:51-67 | the denominators Z1 Z2 +- D T1 T2 never vanish on points of the curve |
| `EdwardsPoints.AddValid` | scripts/heptabao_ed25519_v2_5.py:51-67 | addition is complete: a sum of valid points is valid, Z included, with no exceptional pair |
| `EdwardsGroup.AddIdentity` | scripts/heptabao_ed25519_v2_5.py:15-67 | IDENTITY is neutral up to point_equal |
| `EdwardsGroup.EqualTrans` | scripts/heptabao_ed25519_v2_5.py:83-87 | point_equal is transitive on valid points |
| `EdwardsGroup.AddRespectsBoth` | scripts/heptabao_ed25519_v2_5.py:51-87 | addition respects point_equal in both arguments |
| `ScalarMultiplication.ComputeScalarMult` | scripts/heptabao_ed25519_v2_5.py:70-80 | the double-and-add loop computes the recursive form used in the theorems; a negative scalar is refused |
| `ScalarMultiplication.ScalarMultIsRepeated` | scripts/heptabao_ed25519_v2_5.py:70-80 | [n]P is n-fold repeated addition, for every n >= 0 |
| `ScalarMultiplication.ScalarsAdd` | scripts/heptabao_ed25519_v2_5.py:70-80 | [m + n]P is [m]P + [n]P |
| `ScalarMultiplication.ScalarMultRespectsEqual` | scripts/heptabao_ed25519_v2_5.py:70-87 | equal points have equal multiples |
| `ScalarMultiplication.OddMultipleOfOrderTwo` | scripts/heptabao_ed25519_v2_5.py:101-104 | an odd multiple of a point of order two is the point itself, without associativity |
| `PointCodec.LittleEndianRoundTrip` | scripts/heptabao_ed25519_v2_5.py:93-111 | bytes to integer and back is the identity |
| `PointCodec.XSquaredIsCurve` | scripts/heptabao_ed25519_v2_5.py:29 | x^2 equals the computed quotient exactly for the points of the curve |
| `PointCodec.SquareRootComplete` | scripts/heptabao_ed25519_v2_5.py:30-34 | the two candidate roots find a root whenever there is one |
| `PointCodec.RecoverXDecides` | scripts/heptabao_ed25519_v2_5.py:28-39 | recovery fails exactly when no point of the curve has this y; otherwise it yields a root with the wanted parity |
| `PointCodec.ZeroXRejected` | scripts/heptabao_ed25519_v2_5.py:99-104 | a point of the curve with x = 0 modulo p, however x is represented, is the identity or has order two and fails the subgroup check |
| `PointCodec.ZeroRecovered` | scripts/heptabao_ed25519_v2_5.py:28-39 | when x = 0 fits y, recovery yields 0 for sign 0 and p for sign 1 |
| `PointCodec.ZeroEncodingRejected` | scripts/heptabao_ed25519_v2_5.py:90-104 | every encoding whose y fits x = 0 fails to decode, with either sign |
| `PointCodec.EncodeDecode` | scripts/heptabao_ed25519_v2_5.py:90-111 | encoding an accepted point gives back its bytes |
| `PointCodec.DecodeInjective` | scripts/heptabao_ed25519_v2_5.py:90-104 | different accepted encodings are points that are not equal |
| `PointCodec.EncodeRespectsEqual` | scripts/heptabao_ed25519_v2_5.py:107-111 | equal points have one encoding |
| `PointCodec.DecodeEncode` | scripts/heptabao_ed25519_v2_5.py:90-111 | every point of the prime-order subgroup but the identity survives encoding and decoding |
| `PointCodec.IdentityRejected` | scripts/heptabao_ed25519_v2_5.py:90-111 | the encoding of the identity, however it is represented, fails to decode |
| `SignatureVerification.ScalarMultOfMultiple` | scripts/heptabao_ed25519_v2_5.py:70-80 | [b][a]P is [ab]P |
| `SignatureVerification.VerificationEquation` | scripts/heptabao_ed25519_v2_5.py:120-129 | [(r + h a) mod order]B is [r]B + [h][a]B |
| `SignatureVerification.MultiplesInSubgroup` | scripts/heptabao_ed25519_v2_5.py:101-104 | every multiple of the base point passes the subgroup check |
| `SignatureVerification.HonestSignatureAccepted` | scripts/heptabao_ed25519_v2_5.py:114-129 | verification accepts the signature an honest signer makes from the hash of R, the key and the message if and only if neither the key nor the nonce is the identity |
| `SignatureVerification.IdentityMultiples` | scripts/heptabao_ed25519_v2_5.py:70-104 | with a prime order, [a]B is the identity if and only if the order divides a |
| `SignatureVerification.HonestScalarsAccepted` | scripts/heptabao_ed25519_v2_5.py:114-129 | the same in terms of the scalars: an honest signature is accepted if and only if the order divides neither the secret scalar nor the nonce scalar |
| `SignatureVerification.AcceptedEquation` | scripts/heptabao_ed25519_v2_5.py:114-129 | acceptance means both points decode, the scalar is below the order, and [s]B is R + [h]A between valid points, with h the hash of R, the key and the message modulo the order |
| `SignatureVerification.ScalarNotMalleable` | scripts/heptabao_ed25519_v2_5.py:114-129 | two accepted signatures of one message under one key with the same R are byte for byte equal |
| `SignatureVerification.SignatureBindsMessage` | scripts/heptabao_ed25519_v2_5.py:114-129 | an accepted signature is accepted for another message under the same key if and only if the hashes of R, the key and the two messages agree modulo the order |
| `Ed25519.DIsNumeral` | scripts/heptabao_ed25519_v2_5.py:13 | the formula for D has the published value |
| `Ed25519.Curve25519Encodable` | scripts/heptabao_ed25519_v2_5.py:11-14 | the constants meet every hypothesis of the curve theorems once FIELD is prime, and the order is positive and fits in 32 bytes |
| `Ed25519.BasePointIs` | scripts/heptabao_ed25519_v2_5.py:42-48 | the base point is recovered, is valid, and has the published coordinates |
| `SplitMix.MixIsBijection` | scripts/h02_seeded_behavior_harness_v1.py:62-67 | the output mix is a bijection of 64-bit words, with an explicit inverse |
| `SplitMix.MixByBits` | scripts/h02_seeded_behavior_harness_v1.py:62-67 | the output of a state bit by bit: each bit against the one 30 places up, times the first constant, then 27 and the second, then 31 |
| `SplitMix.StateIsClosedForm` | scripts/h02_seeded_behavior_harness_v1.py:62-63 | after n draws the state is seed + n * gamma modulo 2^64 |
| `SplitMix.OutputsDiffer` | scripts/h02_seeded_behavior_harness_v1.py:62-67 | no output repeats within 2^64 consecutive draws |
| `Shuffle.MakeGenerator` | scripts/h02_seeded_behavior_harness_v1.py:57-60 | a generator exists exactly for unsigned 64-bit seeds and starts at the seed |
| `Shuffle.Generator.Next` | scripts/h02_seeded_behavior_harness_v1.py:62-67 | one draw advances the state by gamma and returns the mix of the new state |
| `Shuffle.Generator.Shuffle` | scripts/h02_seeded_behavior_harness_v1.py:69-74 | the swapping loop consumes exactly max(0, length - 1) draws, and its result is a permutation made by exchanging place i for the place that draw number length - i names modulo i + 1, last place first; the element drawn first lands last |
| `Shuffle.ShuffledPermutes` | scripts/h02_seeded_behavior_harness_v1.py:69-74 | a shuffle is a permutation of its input, for every seed and length |
| `Shuffle.ShuffledIsDrawn` | scripts/h02_seeded_behavior_harness_v1.py:69-74 | for every list and stream the shuffle is the one its draws describe, by choices and by the chain of arrangements |
| `Shuffle.ShuffleIsBijection` | scripts/h02_seeded_behavior_harness_v1.py:71-73 | on distinct values each rearrangement comes from exactly one sequence of choices |
| `RaftModel.LogIsAcceptedCommands` | scripts/h02_seeded_behavior_harness_v1.py:309-315 | over every run the log is the old log followed by exactly the accepted commands, each with its index and term |
| `RaftModel.RunInvariant` | scripts/h02_seeded_behavior_harness_v1.py:334-343 | over every run the leader is a voter, the epoch counts the membership steps and the term counts the changes of leader |
| `RaftModel.AppendAllOrNothing` | scripts/h02_seeded_behavior_harness_v1.py:309-315 | an append without a quorum changes nothing; with one it adds one entry |
| `RaftModel.AdjacentCommitsIntersect` | scripts/h02_seeded_behavior_harness_v1.py:304-307 | two reachable sets able to commit in the same or adjacent configurations share a node |
| `RaftModel.CommitsOfRunIntersect` | scripts/h02_seeded_behavior_harness_v1.py:304-343 | along a run with at most one membership step any two commits share a node |
| `RaftModel.FinalizedCanCommit` | scripts/h02_seeded_behavior_harness_v1.py:336-340 | a configuration that has just been finalized can commit |
| `RaftModel.CommitsAreLinked` | scripts/h02_seeded_behavior_harness_v1.py:304-343 | over any number of membership changes every commit, also one in a joint configuration, is linked to every later one by overlapping quorums |
| `RaftModel.JointMeetsExactly` | scripts/h02_seeded_behavior_harness_v1.py:304-307 | every set with a quorum of each of two groups meets every quorum of a third group exactly when the former must take more of the third than its quorum leaves over, or a group is empty |
| `RaftModel.QuorumsMeetExactly` | scripts/h02_seeded_behavior_harness_v1.py:304-307 | every quorum of one group meets every quorum of another exactly when the two quorums outnumber the union, or a group is empty |
| `RaftModel.ClustersMeetExactly` | scripts/h02_seeded_behavior_harness_v1.py:304-307 | commits of any configuration and of a simple one always share a node exactly under that condition, in either order |
| `RaftModel.CommitsMeetOnVoters` | scripts/h02_seeded_behavior_harness_v1.py:304-307 | for any two configurations, also two joint ones, commits always share a node exactly when no set of voters of the first that can commit leaves the second a quorum among its other voters |
| `RaftModel.CommitsMeetExactly` | scripts/h02_seeded_behavior_harness_v1.py:304-343 | between two ends of a run of which at most one is joint, over any membership steps, commits always share a node exactly under the closed condition; for two simple ends that the quorums outnumber the union |
| `RaftModel.PartitionsOccur` | scripts/h02_seeded_behavior_harness_v1.py:345-359 | any two reachable sets can be in force at the two ends of one run |
| `RaftModel.HarnessChangeMayNotMeet` | scripts/h02_seeded_behavior_harness_v1.py:336-340 | the change from {1, 2, 3} to {2, 3, 4} does not meet the condition, with commits by {1, 2} and {3, 4} that share no node |
| `RaftModel.Model.Append` | scripts/h02_seeded_behavior_harness_v1.py:309-315 | the mutating append is the step of the state machine and reports whether it committed |
| `RaftModel.Model.Partition` | scripts/h02_seeded_behavior_harness_v1.py:345-351 | setting the reachable nodes changes nothing else |
| `RaftModel.Model.ChangeMembership` | scripts/h02_seeded_behavior_harness_v1.py:334-343 | the mutating membership change is the joint step followed by the final step, or stops after the first without a joint quorum |
| `RaftModel.LeastOf` | scripts/h02_seeded_behavior_harness_v1.py:340 | the scan returns the least member |
| `TaskMachine.RunKeepsInv` | scripts/h02_seeded_behavior_harness_v1.py:121-153 | over every run each task has a resource count and only waiting tasks hold anything |
| `TaskMachine.StepFollowsDiagram` | scripts/h02_seeded_behavior_harness_v1.py:126-179 | a step moves its own task along the diagram of statuses and sets what it holds, or changes nothing where the diagram has no edge; no other task changes |
| `TaskMachine.SpawnFollowsDiagram` | scripts/h02_seeded_behavior_harness_v1.py:126-153 | on a task that does not exist every step does nothing but the one that brings it to life, new and holding nothing |
| `TaskMachine.RunGoesForward` | scripts/h02_seeded_behavior_harness_v1.py:126-203 | over every run a task never disappears and never goes back to an earlier stage |
| `TaskMachine.TerminalIsAbsorbing` | scripts/h02_seeded_behavior_harness_v1.py:132-153 | a cancelled, completed or panicked task stays so and holds nothing, whatever follows |
| `TaskMachine.RunConserves` | scripts/h02_seeded_behavior_harness_v1.py:126-153 | over every run, held before plus acquired equals held after plus released |
| `TaskMachine.Model.Spawn` | scripts/h02_seeded_behavior_harness_v1.py:126-130 | a new task, or a refusal that changes nothing |
| `TaskMachine.Model.Start` | scripts/h02_seeded_behavior_harness_v1.py:132-139 | a new task runs, a cancelled one stays cancelled, any other is refused |
| `TaskMachine.Model.Cancel` | scripts/h02_seeded_behavior_harness_v1.py:141-147 | an unfinished task is cancelled and releases everything; a finished one is untouched |
| `TaskMachine.Model.Complete` | scripts/h02_seeded_behavior_harness_v1.py:149-153 | a running or waiting task completes and releases everything |
| `TaskMachine.Model.Wait` | scripts/h02_seeded_behavior_harness_v1.py:161-164 | a running task waits holding the given resources |
| `TaskMachine.Model.Panic` | scripts/h02_seeded_behavior_harness_v1.py:177-179 | a running task panics |
| `TaskMachine.Model.Drain` | scripts/h02_seeded_behavior_harness_v1.py:198-203 | after the final loop nothing is held, every task is terminal, and the finished ones are as they were |
| `JsonPointer.UnescapeEscape` | scripts/oracle_normalize_v1.py:47-52 | unescaping undoes escaping for every segment |
| `JsonPointer.EscapeUnescape` | scripts/oracle_normalize_v1.py:47-52 | escaping undoes unescaping exactly on well-escaped segments |
| `JsonPointer.ParseOfPointer` | scripts/oracle_normalize_v1.py:55-66 | every list of segments survives printing and parsing |
| `JsonPointer.PointerInjective` | scripts/oracle_normalize_v1.py:55-58 | different segment lists print differently |
| `JsonPointer.PointerOfParse` | scripts/oracle_normalize_v1.py:55-66 | a pointer survives parsing and printing exactly when each tilde is followed by 0 or 1 |
| `Normalizer.SelectedIsMostSpecific` | scripts/oracle_normalize_v1.py:210-219 | none is selected exactly when none matches; the selected rule is strictly the most specific match; ambiguity means a tie at the top |
| `Normalizer.LiteralRaises` | scripts/oracle_normalize_v1.py:117-118 | a literal in place of a wildcard makes a rule more specific by one |
| `Normalizer.SpecificityBounds` | scripts/oracle_normalize_v1.py:117-118 | specificity is the length exactly without wildcards and zero exactly when all segments are wildcards |
| `Normalizer.MatchesMeans` | scripts/oracle_normalize_v1.py:120-123 | a rule matches a path if and only if it is the path with wildcards in some places |
| `StableSort.SortPermutes` | scripts/oracle_normalize_v1.py:236-239 | the sorted array is a permutation of the array |
| `StableSort.SortSorts` | scripts/oracle_normalize_v1.py:236-239 | it is in order under the canonical encoding |
| `StableSort.SortTied` | scripts/oracle_normalize_v1.py:236-239 | items that compare alike keep their order |
| `Normalizer.ChangesScattered` | scripts/oracle_normalize_v1.py:246-271 | recorded changes have distinct paths and no path is a prefix of another |
| `Normalizer.NormalizeIsRewrite` | scripts/oracle_normalize_v1.py:246-271 | the result is the input rewritten exactly at the recorded changes, order kept, removed elements dropped |
| `Normalizer.UntouchedIsKept` | scripts/oracle_normalize_v1.py:246-271 | a subtree with no change at or under it is kept |
| `Normalizer.ChangesAreMade` | scripts/oracle_normalize_v1.py:221-244 | every recorded change names a node of the input, with no rule selected above it, and the rule selected for it |
| `Normalizer.ChangesAreExact` | scripts/oracle_normalize_v1.py:221-271 | a change is recorded if and only if it is the selected rule at a node above which no rule is selected |
| `Normalizer.ChangesAreComplete` | scripts/oracle_normalize_v1.py:246-249 | every node of the input is at or under a change, or no rule matches it |
| `Normalizer.TraversalIsExact` | scripts/oracle_normalize_v1.py:221-271 | the traversal succeeds if and only if, at every node with no rule selected above it, selection is unambiguous and the selected rule applies to the value |
| `Normalizer.AppliedLeaves` | scripts/oracle_normalize_v1.py:221-244 | a rule leaves the replacement itself, a placeholder that says kind, digest, length and shape of an encodable value and nothing else, the items of an array of scalars sorted stably, or nothing; it fails exactly on values it does not accept |
| `Normalizer.PlaceholderMeans` | scripts/oracle_normalize_v1.py:95-102 | the test for a placeholder: one member under the placeholder key, holding an object with the four fields |
| `Normalizer.PlaceholderPasses` | scripts/oracle_normalize_v1.py:225-286 | what a secret rule leaves passes the validation under any key |
| `Normalizer.ValidationIsExact` | scripts/oracle_normalize_v1.py:273-286 | validation passes exactly when no object outside a placeholder has a suspicious key with an unprotected value |
| `Normalizer.OutcomeEncodes` | scripts/oracle_normalize_v1.py:288-293 | the result has a canonical encoding exactly when every replacement put into it does |
| `Normalizer.EncodingIsExact` | scripts/oracle_normalize_v1.py:246-304 | the result has a canonical encoding if and only if, by policy and document alone, every replacement selected at a node with no rule selected above it has one |
| `Normalizer.PolicyEncodes` | scripts/oracle_normalize_v1.py:221-244 | a policy whose replacements all encode meets that condition on every document |
| `Normalizer.UnencodableRoot` | scripts/oracle_normalize_v1.py:288-304 | replacing the root by a non-finite number or a value that is not JSON passes traversal and validation and fails the encoding, on every document |
| `Normalizer.Normalizing.Apply` | scripts/oracle_normalize_v1.py:221-244 | one rule applied and its change appended; what it leaves is the replacement, a placeholder holding kind, digest, length and shape, the sorted items, or nothing |
| `Normalizer.Normalizing.Node` | scripts/oracle_normalize_v1.py:246-271 | the recursive traversal that appends to the list of changes agrees with the pure form |
| `Normalizer.Normalizing.Normalize` | scripts/oracle_normalize_v1.py:288-304 | a fresh normalizer returns the rewritten document with distinct change locations, no exposed secret and a canonical encoding, and fails exactly when the traversal, the removal of the root, a secret, or a replacement without an encoding selected for a reached node makes it |
| `Redaction.SecretKeepsTraits` | scripts/oracle_normalize_v1.py:225-234 | a secret rule leaves the same for two encodable values with the same digest, length and shape |
| `Redaction.OutcomeHides` | scripts/oracle_normalize_v1.py:221-271 | documents that differ only inside values that a selected rule replaces, removes, or turns into a placeholder with the same digest, length and shape have the same outcome and the same changes |
| `PointerReplacement.ReplaceCommutes` | scripts/openbao_differential_runner_v2_4.py:123-149 | two replacements by the constant commute, also when one pointer is a prefix of the other and with negative indices |
| `PointerReplacement.ReplaceTwice` | scripts/openbao_differential_runner_v2_4.py:123-149 | repeating a replacement changes nothing |
| `PointerReplacement.ReplaceAllSet` | scripts/openbao_differential_runner_v2_4.py:294-297 | only the set of paths matters, not order or repetition |
| `PointerReplacement.PointersSet` | scripts/openbao_differential_runner_v2_4.py:294-297 | the same for lists of pointer texts |
| `PointerReplacement.ResolveMeans` | scripts/openbao_differential_runner_v2_4.py:123-149 | a path resolves to a location if and only if each of its parts names the next step: the first member with that key, or the item with that number counted from either end |
| `PointerReplacement.ReplaceFrame` | scripts/openbao_differential_runner_v2_4.py:123-149 | one replacement puts the constant at the designated node, keeps every node beside it and the shape of every node above it |
| `PointerReplacement.ReplaceDesignated` | scripts/openbao_differential_runner_v2_4.py:123-149 | stated by what the path designates: the constant is there afterwards, every node beside it is kept and every node above it keeps its shape; nothing designated, nothing changed |
| `PointerReplacement.ResolveStable` | scripts/openbao_differential_runner_v2_4.py:123-149 | after a replacement a path designates what it did before, or nothing |
| `PointerReplacement.ReplaceAllFrame` | scripts/openbao_differential_runner_v2_4.py:294-297 | a list of replacements keeps kind, length and keys of every node not at or under a designated one, and the value of every node beside them |
| `PointerReplacement.ReplaceAllHits` | scripts/openbao_differential_runner_v2_4.py:294-297 | whatever a listed path designates in the result is the constant |
| `PointerReplacement.ReplaceAllCovers` | scripts/openbao_differential_runner_v2_4.py:294-297 | whatever a listed path designates in the input ends as the constant or under one |
| `PointerReplacement.LostUnder` | scripts/openbao_differential_runner_v2_4.py:123-149 | a path loses what it designates only to a replacement at or above it |
| `DocumentStore.StoreKeepsTree` | scripts/openbao_differential_runner_v2_4.py:140-149 | assigning a slot in place keeps the document a tree |
| `DocumentStore.WalkReplaces` | scripts/openbao_differential_runner_v2_4.py:129-149 | walking and assigning the last slot in place is the replacement on the document value |
| `DocumentStore.WalkNowhere` | scripts/openbao_differential_runner_v2_4.py:129-149 | when the walk or the last step designates nothing the replacement changes nothing |
| `DocumentStore.Document.ReplacePointer` | scripts/openbao_differential_runner_v2_4.py:123-149 | the in-place walk and assignment on mutable cells puts the constant at what the pointer designates and changes nothing else; root and non-pointers are refused |
| `DocumentStore.Document.ReplacePointers` | scripts/openbao_differential_runner_v2_4.py:294-297 | the loop performs the whole list, or stops at the first refused pointer |
| `P0Evidence.IndexCases` | scripts/p0_transport_exact_core_v1.py:813-819 | the dictionary holds the first entry of each canonical identifier |
| `P0Evidence.Preserve` | scripts/p0_transport_exact_core_v1.py:821-826 | what is preserved is exactly the longest passed prefix of the canonical order |
| `P0Evidence.MakeFailureCases` | scripts/p0_transport_exact_core_v1.py:789-856 | the loops build the specified matrix for any list of partial results, or all UNEXECUTED without one |
| `P0Evidence.MatrixNames` | scripts/p0_transport_exact_core_v1.py:836-856 | one line per canonical case, in order |
| `P0Evidence.MatrixShape` | scripts/p0_transport_exact_core_v1.py:821-856 | passed cases are a proper prefix kept as recorded, then one FAIL, then only UNEXECUTED |
| `P0Evidence.RawCountsAre` | scripts/p0_transport_exact_core_v1.py:896-901 | each raw count is how often its own status occurs; an unknown status counts as unexecuted |
| `P0Classification.CheckBoundary` | scripts/classify_p0_transport_evidence_v1.py:161-171 | the pass with a flag accepts exactly when no case passes after one that did not |
| `P0Classification.LabelCases` | scripts/classify_p0_transport_evidence_v1.py:134-158 | each case gets its class and execution status; an inadmissible status is refused |
| `P0Classification.GuardHolds` | scripts/classify_p0_transport_evidence_v1.py:235-244 | the counts of a failed report always add up, so this guard never fires |
| `P0Classification.ClassifyCases` | scripts/classify_p0_transport_evidence_v1.py:122-181 | the cases are classified exactly when coverage, statuses and boundary are in order |
| `P0Classification.ClassifyReport` | scripts/classify_p0_transport_evidence_v1.py:89-287 | the script accepts exactly the acceptable reports and returns their classification |
| `P0Labels.LabelSays` | scripts/classify_p0_transport_evidence_v1.py:134-158 | a classified case keeps its raw fields, ends with the pass text of its class exactly when it passed, and with a failure exactly when that is its status |
| `P0Labels.ClassSays` | scripts/classify_p0_transport_evidence_v1.py:153-154 | the class text of a case is the one of its class and of no other |
| `P0Labels.ClassificationSays` | scripts/classify_p0_transport_evidence_v1.py:134-244 | the record of any acceptable run has the cases of the run in their order, and its seven counts are the numbers of its own execution texts |
| `P0Labels.ModelSays` | scripts/classify_p0_transport_evidence_v1.py:246-287 | the model of any record repeats the counts of the record, and its name says whether the run passed, passed a part, or passed nothing |
| `P0Validation.CollectCases` | scripts/validate_p0_transport_evidence_v2.py:234-241 | the collecting loop accepts exactly one entry per canonical identifier |
| `P0Validation.BooleanIsNumber` | scripts/validate_p0_transport_evidence_v2.py:281-363 | in the comparisons of counts true equals 1 and 1.0 |
| `P0Validation.CheckCounts` | scripts/validate_p0_transport_evidence_v2.py:281-314 | the counts are those of the cases under Python's number equality, and the guard after them never fires |
| `P0Validation.CheckModel` | scripts/validate_p0_transport_evidence_v2.py:316-363 | the model is that of the cases, its numbers compared with the record's own counts |
| `P0Validation.ValidateFailed` | scripts/validate_p0_transport_evidence_v2.py:182-363 | accepts exactly the classifications of acceptable failed runs that show a reason, under the caller's source binding |
| `P0Pipeline.CollectPassed` | scripts/validate_p0_transport_evidence_v2.py:122-130 | building the dictionary loses no entry exactly when each canonical case is there once |
| `P0Pipeline.ValidatePassed` | scripts/validate_p0_transport_evidence_v2.py:80-179 | accepts exactly the classifications of acceptable passing runs, except that three model fields are not read |
| `P0Pipeline.FailReportAcceptable` | scripts/p0_transport_exact_core_v1.py:889-906 | the FAIL report of any broken run classifies if and only if its source record is well-formed |
| `P0Pipeline.FailureValidates` | scripts/validate_p0_transport_evidence_v2.py:182-363 | a failed run's classification validates if and only if its reason is not blank and its source is the one the caller expects, for any expectations |
| `P0Pipeline.PassValidates` | scripts/validate_p0_transport_evidence_v2.py:80-179 | a passing run's classification validates if and only if its source is the one the caller expects |
| `P0Pipeline.ModelNameUnread` | scripts/validate_p0_transport_evidence_v2.py:160-179 | a passing record validates with any classification name and any two counts in its model |
| `P0Pipeline.BrokenRunValidates` | scripts/p0_transport_exact_core_v1.py:889-906 | for any source record, message and expectations: a broken run becomes a validated record if and only if the source is well-formed and the expected one and the message is empty or not white space only |
| `P0Source.ResolvedIsBound` | scripts/p0_transport_exact_core_v1.py:85-111 | what resolves is well-formed, clean and equal to the checkout |
| `P0Source.FallbackBound` | scripts/p0_transport_exact_core_v1.py:882-888 | the made-up record is well-formed if and only if the repository is named and the given commit and tree are forty hexadecimal digits |
| `P0Source.FailureSourceBound` | scripts/p0_transport_exact_core_v1.py:874-888 | the source record of a failed run is well-formed under the same condition, whatever the checkout |
| `P0Source.FailureSourceIs` | scripts/p0_transport_exact_core_v1.py:874-888 | the source record of a well-named failed run holds each option that was given, else what git says when the source resolves, else zeros |
| `P0Pipeline.FailedRunRecorded` | scripts/p0_transport_exact_core_v1.py:870-909 | from options, environment, checkout and message to a record validated under any expectations: it succeeds if and only if the run was well named, its source record is the expected one and the message is empty or not white space only |
| `P0Pipeline.WorkflowRunRecorded` | scripts/p0_transport_exact_core_v1.py:870-909 | with the same repository, commit and tree given to runner and validator, as the workflow plan-v1.3.1-final-exact does, a failed run is recorded if and only if the three are well-formed and the message is empty or not white space only, whatever the environment and checkout |
| `P0Pipeline.SpaceIsNotRecorded` | scripts/p0_transport_exact_core_v1.py:890-893 | a message of one space is classified and then refused, under any expectations |
| `P0Pipeline.UnknownIsNotRecorded` | scripts/p0_transport_exact_core_v1.py:882-888 | without a repository name the record says unknown and is never classified |
| `P0Pipeline.ZerosAreNotRecorded` | scripts/p0_transport_exact_core_v1.py:882-888 | without a commit option and outside a checkout the record says zeros, is classified, and is refused by a caller that expects any other commit |
| `P0Pipeline.FailureNeverPasses` | scripts/p0_transport_exact_core_v1.py:828-834 | no record holding a failure matrix validates as a pass, whatever its other fields say |
| `P0Pipeline.CompleteCountsAreCounts` | scripts/classify_p0_transport_evidence_v1.py:203-212 | the constants written for a passing run are the counts of its cases |
| `P0Cases.Ascending` | scripts/classify_p0_transport_evidence_v1.py:33 | the canonical order is the sorted order of the identifiers |
| `P0Cases.CasesValid` | scripts/classify_p0_transport_evidence_v1.py:12-45 | the fourteen identifiers are distinct and each has a class |
| `P0Cases.RuntimeCount` | scripts/validate_p0_transport_evidence_v2.py:158 | eleven cases are runtime-observed |
| `CommentStripper.ScanLine` | scripts/_render_plan_v1_4_7_baseline.py:78-100 | the index-and-depth scan of a line is its recursive form |
| `CommentStripper.StripBlockComments` | scripts/_render_plan_v1_4_7_baseline.py:74-101 | as many lines as before, each a subsequence of its line with no // or /* left, and stripping again changes nothing |
| `CommentStripper.StripLineClean` | scripts/_render_plan_v1_4_7_baseline.py:80-99 | no comment opens in an output line, also where text around a removed comment is joined |
| `CommentStripper.StripIdempotent` | scripts/_render_plan_v1_4_7_baseline.py:74-101 | stripping is idempotent |
| `CommentStripper.BodySkipped` | scripts/_render_plan_v1_4_7_baseline.py:81-90 | inside a comment at any depth, a body whose lone characters form no marker with what follows is skipped, and the depth restored |
| `CommentStripper.NestedCommentRemoved` | scripts/_render_plan_v1_4_7_baseline.py:81-94 | such a comment contributes nothing, however deeply it nests |
| `CommentStripper.ParsedBody` | scripts/_render_plan_v1_4_7_baseline.py:81-90 | every text up to its closing marker is such a body |
| `CommentStripper.CommentRemoved` | scripts/_render_plan_v1_4_7_baseline.py:80-94 | whatever follows an opening marker is removed up to the marker that closes it, or to the end of the line, which is then still inside the comment |
| `RuntimeClosure.ClosedIsReachable` | scripts/validate_current_documentation_semantics.py:46-65 | a closed set reached from the root is the set of reachable packages |
| `RuntimeClosure.Expand` | scripts/validate_current_documentation_semantics.py:51-64 | scanning one manifest adds exactly its new runtime path dependencies, or names an unmapped one |
| `RuntimeClosure.Compute` | scripts/validate_current_documentation_semantics.py:46-65 | terminates with exactly the reachable packages, each expanded once; fails exactly when a reachable dependency is unmapped |
| `EvidenceSignatures.LoadTrustStore` | scripts/validate_external_evidence_v2_5.py:253-313 | loads exactly a store with the right schema and no authority, 1 to 4096 entries that all read, and no repeated identifier or public key; the store holds for each entry, under its identifier, the entry's own actor, role, decoded key, validity window and revocation, and nothing else |
| `EvidenceSignatures.EnrolledSound` | scripts/validate_external_evidence_v2_5.py:293-313 | in a loaded store the public-key bytes determine the identifier |
| `EvidenceSignatures.ReadSignatures` | scripts/validate_external_evidence_v2_5.py:508-556 | the loop accepts exactly entries that are signature objects, eligible, and by pairwise different signers and keys, and counts their roles |
| `EvidenceSignatures.CheckSignatures` | scripts/validate_external_evidence_v2_5.py:502-563 | accepts exactly the admitted lists of signatures |
| `EvidenceSignatures.DenominatorMet` | scripts/validate_external_evidence_v2_5.py:554-563 | each required role is there exactly as often as required and the total is the sum of the requirements |
| `EvidenceSignatures.EligibleExactly` | scripts/validate_external_evidence_v2_5.py:316-345 | under a trust store a signature is eligible if and only if its signer is neither an author nor the issuer and it names the digest of the payload, a required role and an enrolled, unrevoked key of its signer that was valid when signing and verifies it |
| `EvidenceSignatures.AdmissionSeparates` | scripts/validate_external_evidence_v2_5.py:316-345 | as many different signers and different public keys as required, none an author or the issuer, each enrolled, unrevoked, valid when signing, naming the digest of the payload and verified over the payload |
| `EvidenceSignatures.OrderIrrelevant` | scripts/validate_external_evidence_v2_5.py:207-215 | documents that differ only in the order of their signatures are admitted alike |
| `EvidenceKeys.EnrolledIsStrict` | scripts/validate_external_evidence_v2_5.py:253-313 | every key of a loaded store is the strict encoding of a point |
| `EvidenceKeys.AdmittedPointsDiffer` | scripts/validate_external_evidence_v2_5.py:316-345 | with the Ed25519 verifier: as many signatures as required, each verifying over the payload, under keys that are pairwise different points of the curve |
| `ProbeResults.NormalizeReads` | scripts/h02_exact_head_matrix_v1.py:249-256 | the texts that are read as each status |
| `ProbeResults.FindIsFirst` | scripts/h02_exact_head_matrix_v1.py:270-280 | the value of a key is that of its first member, and null without one |
| `ProbeResults.CombineIsWorst` | scripts/h02_exact_head_matrix_v1.py:259-267 | the combined status is the worst one present, and exists exactly when every case has a status |
| `ProbeResults.ExtractorAgrees` | scripts/h02_exact_head_matrix_v1.py:270-393 | for all four probes, when the validator returns, the extractor gives the same status |
| `ProbeResults.ValidatedLines` | scripts/h02_exact_head_matrix_v1.py:289-309 | lines that validate have one head about this seed and without authority, no error, and the six expected cases, each once and each passed |
| `ProbeResults.ValidatedDocument` | scripts/h02_exact_head_matrix_v1.py:312-393 | a document that validates is about this seed, claims no authority and says it passed; the durable one has the seven expected cases, each once and each passed |
| `ProbeResults.JudgeRun` | scripts/h02_exact_head_matrix_v1.py:654-716 | PASS exactly for a started process with valid output, in time, with exit code 0; every other conclusion carries an error; the disagreement error never occurs |
| `MatrixCommand.ParseOfEntry` | scripts/h02_exact_head_matrix_v1.py:441-462 | every cell's identifier reads back as the cell |
| `MatrixCommand.EntryOfParse` | scripts/h02_exact_head_matrix_v1.py:445-462 | only a cell's own identifier reads as that cell |
| `MatrixCommand.CheckCommand` | scripts/h02_exact_head_matrix_v1.py:557-606 | the cursor accepts exactly the commands built from optional flags, a canonical manifest and the cell's own arguments |
| `MatrixCommand.RunnerCommand` | scripts/h02_exact_head_matrix_v1.py:465-516 | under the runner's flags the accepted commands are exactly those the runner builds |
| `MatrixCommand.CommandNamesCell` | scripts/h02_exact_head_matrix_v1.py:465-516 | a command determines its toolchain, seed, flags and manifest |
| `MatrixSummary.CheckTuple` | scripts/h02_exact_head_matrix_v1.py:609-638 | identifier, labels, binary, command and digest name one cell |
| `MatrixSummary.SummarizeEntries` | scripts/h02_exact_head_matrix_v1.py:842-856 | the five counters count every entry exactly once |
| `MatrixSummary.CountsTotal` | scripts/h02_exact_head_matrix_v1.py:842-856 | the five counts sum to the number of entries |
| `MatrixSummary.CoverIffOneToOne` | scripts/h02_exact_head_matrix_v1.py:1077-1085 | no missing, unexpected or repeated identifier means entries and cells are one to one |
| `MatrixSummary.BuildSummary` | scripts/h02_exact_head_matrix_v1.py:1062-1121 | PASS exactly when no error was collected, every tuple is valid, every conclusion is PASS, and entries and cells are one to one |
| `HeadMatrix.TwentyFour` | scripts/h02_exact_head_matrix_v1.py:641-651 | the matrix has twenty-four different identifiers |

## Left out

- Sockets, HTTP capture, processes, git, files and command lines of all scripts: input and output only.
- SHA-256 and SHA-512, base64, JSON, TOML and timestamp parsing: library behaviour, taken as parameters.
- Primality of FIELD and of ORDER, associativity of the curve addition, and the order of the base point: number theory taken as named hypotheses.
- The trace events of the seeded harness, its cases c1 to c6 as scripts, and its TLS model: the operations and their runs are modelled, the particular runs only exercise them.
- The policy checks in the constructor of the normalizer and the digests in its output: constant comparisons and hashing.
- The redaction of response bodies before pointers are applied: a pure rebuild with string tests.
- Text that cannot be encoded as UTF-8: encoding errors are not modelled.
- All checks of `validate_document` before its signatures, and of the artifact files of a matrix: field comparisons and file reads; their errors enter the summary as a list.
- A JSON array or object as the kind of an operation or of a record in the in-memory probe output: the script stops with a TypeError where the model refuses the input.
- Extra keys of a record that no check reads.
- The plan, document and workflow validators, lane arbitration and text templates: token presence and constant comparison.
- CommitsMeetExactly: at most one end is joint; for two joint ends the exact condition is the one over subsets of the voters in CommitsMeetOnVoters, and no closed form is given.
- A mapping in a YAML replacement whose keys are not strings: Python's encoder rewrites such keys, and the model has none.
- HonestSignatureAccepted: the signer is the textbook one; the scripts only verify.
- Checker.Explore: Python's recursion limit is not modelled.
