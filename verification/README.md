# Verification model

Two services of this repository keep state that other programs trust. The World State Fabric keeps transforms between
frames and answers queries over them. The Resource Provider Manager keeps leases, provider dependencies, reviewed
calibrations and the shutdown sequence, and publishes calibrations to the Fabric. Two Python parts feed them: the scene
compiler, whose scenes the Fabric validates on its own, and the BufferRef reader, which copies payloads out of shared
memory while a producer writes. The Dafny modules here model that logic and prove what it is for.

`dafny verify dfyconfig.toml` checks everything. Each module opens with what it covers:

- transforms: `RigidTransforms`, `RigidMotion`, `TransformHistory`, `TransformResolution`, `TransformGraph`,
  `TransformConsistency`, `ShortestWalks`, `SearchOrder`, `TransformQuery`, `TransformAgreement`,
  `TransformDisagreement`, `WakeUp`
- leases, dependencies and shutdown: `ResourcePaths`, `ControlAuthority`, `ControlAuthorityRuns`,
  `ControlAuthorityFence`, `ProviderOrder`, `ShutdownPlan`, `ShutdownExecution`, `ShutdownRuns`
- calibrations and the seam between the services: `Calibration`, `CalibrationRuns`, `CalibrationCauses`, `FabricIngest`,
  `FabricRuns`, `CalibrationSeam`, `CalibrationSync`, `CalibrationAnswers`, `CalibrationDisagreement`
- canonical forms: `Decimals`, `CanonicalNumber`, `CanonicalTree`, `Base64Url`
- scenes and buffers: `SceneTypes`, `Voxel`, `SceneCompiler`, `SceneMeaning`, `SceneRefusals`, `SceneValidator`,
  `SceneBoxes`, `SceneContract`, `BufferRef`
- shared: `Common`, `Text`, `StringOrder`

Code that updates state in place is a class or a method with loops, proved equal to a specification function; what the
code is for is then proved about that function, for every input, every run or every interleaving. What a specification
function computes is also stated without naming it, on the inputs, states and events alone: points and distances for
transforms and scenes, samples for an answer, owners and causes for leases and calibrations, reported marks for the
shutdown plan, instants for a read.

## Modelling decisions

- Floats are reals; distances and radii are compared squared where the source takes a root. One float is kept apart: an
  edge that grows beyond the largest float is infinite, which is what ends the loop of `_voxel_spheres` when no finite
  edge does.
- Rotations are unit quaternions, on which `normalize_quat` is the identity (`NormalizationIsIdentityOnUnits`);
  `quat_slerp` is an arbitrary function to unit quaternions. The Manager takes rotation tokens of norm 0.99 to 1.01 and
  the Fabric normalises them, so a record's rotation keeps its tokens beside the unit quaternion they are normalised to.
- A HashMap is walked in an arbitrary order, and results hold for every order. A map left alone is walked in the same
  order each time, so what two queries of one unmodified store answer together is stated for one order as well as for
  any two.
- Times are integers in the source's unit, and a handler reads its clock once. Fresh UUIDs are parameters that differ
  from those already used.
- What a lease handler does under the lock of the leases is one step. An acquire reads the shutdown fence before it
  takes that lock; in `ControlAuthorityFence` that is a step of its own, and the fence can go up in between. Activation,
  revocation and acceptance of a shutdown execution release their lock in the middle; here they are assumed to run
  without interruption.
- Only the Manager publishes transforms under its own authority; all other observations are arbitrary.
- What the model does not compute is an arbitrary parameter: whether a publication succeeds, whether a provider call
  succeeds, what the review checks of an activation hand over, the SHA-256 digest of a request.
- Strings are sequences of code points. Rust's `trim` and Python's `strip` remove the characters those languages remove.

## What the code does not do

Statements one would expect that are false of the code. Each has its exact condition as a lemma, and a lemma at an input
where it fails.

- The Manager and the Fabric can disagree on the active calibration: what the Fabric answers under the Manager's
  authority, to any query on any edge, against what the Manager holds active there. `StepKeepsSyncIff` says for every
  step, whatever the clock reads, whatever becomes of the publication and however full the edges are, whether it breaks
  agreement; `RunAgreesIff` that a run agrees throughout iff none of its steps does; `ActivationRegainsIff` when an
  activation brings agreement back. `CalibrationDisagreement` holds a run for each kind, with the Fabric's answer at its
  end: a refresh invalidates without publishing (`InvalidationDisagrees`); revoking a superseded record silences the
  active one on its edge (`RevocationDisagrees`); an activation rejected for its frames has already superseded
  (`RejectionDisagrees`); an answer is lost (`LostAnswerDisagrees`); the clock has not passed the last sequence
  (`StalledClockDisagrees`); the Manager or the Fabric restarts with a record active (`RestartDisagrees`,
  `FabricRestartDisagrees`); and samples of another provider on the same edge drive the calibration out of its bounded
  history (`EvictionDisagrees`).
- A published transition is not always taken, although the publication reports success: the one at place `i` of a batch
  is taken iff `t + 4 i` passes the sequence the Fabric holds of this boot (`TakenIff`), so half of a batch can be
  dropped (`HalfIsDropped`). `LatestPublicationWinsIff` says what the Fabric then answers, and for how long.
- The shutdown fence does not stop an acquire that has passed its check: a lease is issued after the fence iff its
  acquire checked before it and the leases allow it then (`IssuedAfterFenceIff`), which can preempt another owner
  (`FenceIsCrossed`). With the fence up a lease can still come iff an acquire with an acceptable request is on its way
  (`StillIssuesIff`), and no more come than are (`NoMoreThanAdmitted`).
- The scene validator does not hold spheres to a region whose layer leaves out its radius or its minimum: an absent
  number is read as NaN, with which every comparison fails. Accepted layers bound the accepted spheres iff all of them
  state both (`LayersBoundSpheresIff`); `UnboundedIsAccepted` is a scene with a sphere a hundred metres off.
- An activation request repeated under an identifier with outer whitespace is not recognised; built and published anew,
  it supersedes its own first effect (`ReplayRecognisedIff`, `ReplaySupersedesIff`, `PaddedRequestRunsTwice`).
- Only the latest shutdown execution is remembered: a request carried out before is carried out again iff another was
  accepted since and nothing is under way (`CarriedOutAgainIff`), and every plan without blockers has a run that does so
  (`FirstThenOtherThenFirst`).
- The scene compiler removes points inside semantic objects with one norm over the whole array, so it removes all points
  or none (`RemovalIsPerPointIff`, `InsidePointIsKept`).
- Opposite transform queries need not undo each other. Under any two orders of the store's edges they do, for all
  frames, iff any two shortest walks between the same frames have the same product (`OppositeQueriesCancelIff`). While
  the store keeps one order, they do iff those agree that use the same edge wherever both pass between the same two
  frames (`OppositeQueriesOfOneOrderIff`). `StoreDisagrees` is a store of four samples and an order in which they do
  not; `PairDisagreesOnlyOverOrders` one in which only a change of order shows.
- Chained queries need not agree with the joint one. Under any three orders they do, for all frames, iff some poses of
  the frames explain every resolved edge (`ChainedQueriesAgreeIff`); in one order, iff some poses explain the edges that
  come first between their frames (`ChainedQueriesOfOneOrderIff`). `TriangleStoreDisagrees` is a store of three samples
  in which they do not in any order, though opposite queries undo each other.
- Re-encoding an accepted base64url value does not always return it (`EncodeDecoded`, `NotReturned`).

## Model

| member | source | states |
|---|---|---|
| RigidTransforms.NormalizationIsIdentityOnUnits | platform_core/fabric/src/main.rs:2002-2012 | normalising always yields a unit quaternion, and leaves a unit quaternion as it is |
| RigidTransforms.MulAssoc | platform_core/fabric/src/main.rs:2018-2027 | quaternion multiplication is associative |
| RigidTransforms.MulNorm | platform_core/fabric/src/main.rs:2018-2027 | the norm is multiplicative, so products of rotations are rotations |
| RigidTransforms.RotateMul | platform_core/fabric/src/main.rs:2029-2034 | rotating by a product is rotating twice |
| RigidTransforms.RotateKeepsPure | platform_core/fabric/src/main.rs:2029-2034 | the scalar part the rotation drops is zero |
| RigidTransforms.RotatePreservesLength | platform_core/fabric/src/main.rs:2029-2034 | a unit quaternion preserves lengths |
| RigidTransforms.ComposeAssoc | platform_core/fabric/src/main.rs:217-228 | composition of transforms is associative |
| RigidTransforms.ComposeIdentity | platform_core/fabric/src/main.rs:197-228 | the identity transform is neutral on both sides |
| RigidTransforms.ComposeInverse | platform_core/fabric/src/main.rs:204-228 | the inverse undoes a transform on both sides |
| RigidTransforms.InverseUnique | platform_core/fabric/src/main.rs:204-228 | whatever undoes a transform is its inverse |
| RigidTransforms.InverseCompose | platform_core/fabric/src/main.rs:204-228 | the inverse of a composition is the composition of the inverses in the other order |
| RigidMotion.ComposeCarries | platform_core/fabric/src/main.rs:217-228 | a composed transform carries every point as its right part does and then its left |
| RigidMotion.InverseCarriesBack | platform_core/fabric/src/main.rs:204-215 | the inverse carries every point back to where it was, from either side |
| RigidMotion.CarryKeepsDistance | platform_core/fabric/src/main.rs:2029-2034 | a transform keeps the distance of any two points |
| RigidMotion.WalkCarries | platform_core/fabric/src/main.rs:1670-1776 | when poses explain all edges, the product along any walk makes of a point's coordinates in the frame it leaves those in the frame it reaches |
| RigidMotion.PathTells | platform_core/fabric/src/main.rs:1670-1776 | the path of an answer explains it: over resolved edges, each read in its stated direction, it leads from one frame to the other and carries every point to where the answered transform puts it |
| TransformHistory.TransformAuthorityHistory.Insert | platform_core/fabric/src/main.rs:304-316 | both vectors list exactly the samples retained, the new one included, sorted strictly by time and insertion id |
| TransformHistory.TransformAuthorityHistory.Remove | platform_core/fabric/src/main.rs:318-330 | after an eviction both vectors list exactly what remains |
| TransformHistory.InsertKeepsVector | platform_core/fabric/src/main.rs:304-316 | inserting at the partition point keeps a vector exact and strictly sorted |
| TransformHistory.RemoveKeepsVector | platform_core/fabric/src/main.rs:318-330 | removing by insertion id keeps a vector exact and strictly sorted |
| TransformHistory.TransformEdgeHistory.Insert | platform_core/fabric/src/main.rs:344-367 | the edge retains the last samples up to the bound, the index is exact and has no empty or shared authority entry |
| TransformResolution.ResolveEdge | platform_core/fabric/src/main.rs:1778-1819 | the indexed resolution of an edge is what a scan of its retained samples gives, the conflict set included |
| TransformResolution.IndexAgreesWithScan | platform_core/fabric/src/main.rs:1786-1906 | one authority's answer from the partition points of sorted vectors equals the answer of a scan that never looks at the index |
| TransformResolution.LatestStaticDecides | platform_core/fabric/src/main.rs:1786-1799 | the latest static sample is an authority's whole answer: usable it is returned, unusable it silences all its samples |
| TransformResolution.InterpolationIsBracketed | platform_core/fabric/src/main.rs:1821-1906 | an answer is interpolated exactly when adjacent eligible samples of one epoch strictly bracket the time, and then from those two |
| TransformResolution.InterpolatedPose | platform_core/fabric/src/main.rs:1847-2000 | the interpolated position is, on each axis, as far on the way from the earlier sample to the later as the time is; the rotation is asked for that part of the way, from the earlier to the later; the origin named is the later sample's |
| TransformResolution.EvenMotionIsFollowed | platform_core/fabric/src/main.rs:1847-2000 | a frame that moves evenly is answered where it is at the query time |
| TransformResolution.ExactHit | platform_core/fabric/src/main.rs:1821-1906 | an eligible dynamic sample at the query time answers, and of several the last inserted |
| TransformResolution.LoneSample | platform_core/fabric/src/main.rs:1786-1992 | a sample alone is answered, as it is, exactly when it is not invalid, expired, kept from motion or under review and, if it moves, is of the session asked for and within the extrapolation limit |
| TransformResolution.WithoutBracket | platform_core/fabric/src/main.rs:1821-1906 | with no two samples to interpolate the answer is the last eligible one up to the time, only failing that the first after it, within the extrapolation limit |
| TransformResolution.AnswersComeFromSamples | platform_core/fabric/src/main.rs:1778-1906 | every answer comes from samples of that authority that stand, of the session asked for and within the limit |
| TransformResolution.SpeaksForItself | platform_core/fabric/src/main.rs:1778-1819 | what one authority says depends on its own samples only |
| TransformResolution.EdgeOfAuthorities | platform_core/fabric/src/main.rs:1778-1819 | an edge conflicts iff two authorities would each answer it alone, and then names all that would; otherwise it is answered as the one would, or left out |
| TransformResolution.RetainsLastInserted | platform_core/fabric/src/main.rs:344-367 | after any inserts the edge holds the last min(n, bound) of them |
| TransformGraph.AddEdgeLists | platform_core/fabric/src/main.rs:1728-1776 | the adjacency lists exactly the two arcs of every resolved edge, each under the frame it leaves |
| TransformGraph.BuildAdjacency | platform_core/fabric/src/main.rs:1665-1668 | the adjacency built from all resolved edges lists exactly their arcs, under each frame in the order of the edges |
| TransformGraph.Search | platform_core/fabric/src/main.rs:1670-1726 | the search finds the target iff it is reachable, by a walk with the fewest edges and no repeated frame, with the ordered product of its transforms; it is the walk the order of the edges determines |
| TransformConsistency.AlongIsBetween | platform_core/fabric/src/main.rs:1728-1776 | when poses explain all edges, the product along any walk is the transform between the poses of its ends |
| TransformConsistency.ForestHasPoses | platform_core/fabric/src/main.rs:1728-1776 | every forest of edges is explained by some poses |
| TransformConsistency.AnswersChain | platform_core/fabric/src/main.rs:1670-1776 | in a forest, walks a to b and b to c compose to every walk a to c |
| TransformConsistency.ForwardAndBack | platform_core/fabric/src/main.rs:1670-1776 | in a forest, a walk there and any walk back compose to exactly the identity |
| SearchOrder.DiscoveredIsShortest | platform_core/fabric/src/main.rs:1670-1726 | whatever the order of the edges, the walk found is a shortest one without a repeated frame |
| SearchOrder.ReachableIsDiscovered | platform_core/fabric/src/main.rs:1670-1726 | every order of the edges finds every reachable frame |
| SearchOrder.DiscoveredOnce | platform_core/fabric/src/main.rs:1670-1726 | one order of the edges finds one walk |
| SearchOrder.DiscoveredIsFirst | platform_core/fabric/src/main.rs:1665-1726 | the walk found uses, between any two frames, the first edge of the order that joins them |
| SearchOrder.LeadIsDiscovered | platform_core/fabric/src/main.rs:1665-1726 | a shortest walk is found when at each of its frames its arc is the first that does not lead back |
| SearchOrder.ShortestIsAttained | platform_core/fabric/src/main.rs:1665-1726 | for every shortest walk there is an order of the edges in which the search finds it |
| SearchOrder.BothAreAttained | platform_core/fabric/src/main.rs:1665-1726 | two shortest walks there and back that share only their ends are both found in one order of the edges |
| TransformQuery.ResolveAll | platform_core/fabric/src/main.rs:1647-1663 | the pass over all edges lists exactly the resolved edges, each once, and exactly the conflicting ones with their authorities |
| TransformQuery.ResolveTransformOnce | platform_core/fabric/src/main.rs:1639-1726 | the answer is a shortest walk's product if the target is reachable, the one the order of the edges determines, else CONFLICT iff some edge had several authorities, else NOT_FOUND |
| TransformQuery.QueryTransform | platform_core/fabric/src/main.rs:1557-1600 | blank frames are refused, a frame is its own identity, and every other query is answered so |
| TransformQuery.FoundBothWays | platform_core/fabric/src/main.rs:1639-1726 | a query succeeds iff the opposite query does |
| TransformQuery.AnswersUndoEachOther | platform_core/fabric/src/main.rs:1639-1726 | in a forest the answers of two opposite queries compose to the identity and are each other's inverse |
| TransformQuery.AnswersCompose | platform_core/fabric/src/main.rs:1639-1726 | in a forest the answers of chained queries compose to the answer of the joint query |
| TransformAgreement.AnswersAreShortest | platform_core/fabric/src/main.rs:1639-1726 | the transforms a query answers with, over all orders of the store's edges, are exactly the products of the shortest walks |
| TransformAgreement.OppositeQueriesCancelIff | platform_core/fabric/src/main.rs:1639-1726 | opposite queries undo each other for all frames under any two orders of the edges iff all shortest walks between the same frames have one product |
| TransformAgreement.EveryOrderCancelsIff | platform_core/fabric/src/main.rs:1665-1726 | what every single order finds there and back cancels iff all shortest walks agree that use the same edge between the same frames |
| TransformAgreement.OppositeQueriesOfOneOrderIff | platform_core/fabric/src/main.rs:1639-1726 | opposite queries undo each other for all frames in every single order of the edges iff all shortest walks agree that use the same edge between the same frames |
| TransformAgreement.ChainedQueriesAgreeIff | platform_core/fabric/src/main.rs:1639-1726 | chained queries compose to the joint query for all frames under any three orders of the edges iff some poses of the frames explain every resolved edge |
| TransformAgreement.ChainsInIff | platform_core/fabric/src/main.rs:1665-1726 | what one order finds chains iff some poses explain the edges that come first between their frames |
| TransformAgreement.ChainedQueriesOfOneOrderIff | platform_core/fabric/src/main.rs:1639-1726 | in one order of the edges chained queries compose to the joint query for all frames iff some poses explain the edges that come first between their frames |
| TransformDisagreement.StoreDisagrees | platform_core/fabric/src/main.rs:1639-1726 | a store of four samples and an order of its edges in which a query and its opposite answer along different ways and do not undo each other |
| TransformDisagreement.PairDisagreesOnlyOverOrders | platform_core/fabric/src/main.rs:1639-1726 | a store with two edges between the same frames whose opposite answers undo each other in every single order, and not over two |
| TransformDisagreement.TriangleStoreDisagrees | platform_core/fabric/src/main.rs:1639-1726 | a store of three samples whose opposite answers undo each other under any two orders and whose chained ones agree in no order |
| WakeUp.StepLosesNothing | platform_core/fabric/src/main.rs:516-559 | no step of a waiter or publisher, the batch error path included, loses a wake-up |
| WakeUp.NoLostWakeUp | platform_core/fabric/src/main.rs:1601-1628 | over all interleavings, a waiter that missed an accepted transform is signalled or some publisher still owes its notification |
| WakeUp.OwingPublisherSignals | platform_core/fabric/src/main.rs:530-559 | a publisher that owes a notification is never stuck, and its remaining steps signal every registered waiter |
| WakeUp.MissedWaiterWakes | platform_core/fabric/src/main.rs:1601-1628 | a parked waiter that missed a transform can wake, now or after some publisher's remaining steps |
| WakeUp.QuietMeansSeen | platform_core/fabric/src/main.rs:1601-1628 | with no publisher at work, a parked unsignalled waiter has seen every accepted transform |
| WakeUp.SignalsAreEarned | platform_core/fabric/src/main.rs:516-559 | over all interleavings, no more publishers owe a notification than transforms were accepted, and nobody is signalled before the first |
| WakeUp.UnsatisfiedOnlyAtDeadline | platform_core/fabric/src/main.rs:1601-1628 | over all interleavings, with the time left computed before the timer starts, an extrapolated or missing outcome is returned only at or after the waiter's deadline |
| WakeUp.WaitsAsAsked | platform_core/fabric/src/main.rs:1601-1628 | a waiter's deadline stays as far from its arrival as it asked to wait, thirty seconds at most, and an unsatisfied outcome is no earlier |
| WakeUp.TimedOutIsCurrent | platform_core/fabric/src/main.rs:1602-1628 | an outcome returned because the timer ran out is the latest, or some publisher still owes its notification |
| WakeUp.EveryWaiterEnds | platform_core/fabric/src/main.rs:1602-1628 | whenever no publisher holds the store, time and its own steps bring a waiter to its answer |
| ResourcePaths.OverlapIsSegmentPrefix | platform_core/manager/src/main.rs:3422-3448 | two resources overlap iff the segments of one are a prefix of the other's |
| ResourcePaths.SiblingsAreApart | platform_core/manager/src/main.rs:3422-3448 | distinct children of one parent never overlap, and each overlaps the parent |
| ResourcePaths.CanonicalIff | platform_core/manager/src/main.rs:3422-3438 | the identifiers taken are exactly the non-empty segments, of letters, digits and three marks, joined by single slashes |
| ResourcePaths.CanonicalIsWalked | platform_core/manager/src/main.rs:3422-3438 | walked as directories, the segments of an identifier lead to themselves |
| ControlAuthority.LeaseManager.Acquire | platform_core/manager/src/main.rs:3227-3329 | the whole new state and reply of an acquire: refusals, expiry, preemption of all overlapping active leases, the next generation |
| ControlAuthority.LeaseManager.Renew | platform_core/manager/src/main.rs:3331-3367 | the whole new state and reply of a renewal |
| ControlAuthority.LeaseManager.Release | platform_core/manager/src/main.rs:3369-3400 | the whole new state and reply of a release |
| ControlAuthority.LeaseManager.ExpireLocked | platform_core/manager/src/main.rs:3450-3463 | exactly the overdue active leases expire, and their resources are reported |
| ControlAuthorityRuns.StepIsGood | platform_core/manager/src/main.rs:3227-3463 | every handler keeps the lease invariants and revives no lease |
| ControlAuthorityRuns.EveryRunIsGood | platform_core/manager/src/main.rs:3227-3463 | over all runs no two active leases overlap, each counter is the number of leases issued on its resource, and an active lease holds the latest generation |
| ControlAuthorityRuns.EndedForEver | platform_core/manager/src/main.rs:3227-3463 | over all runs an ended lease never changes again and no lease is lost |
| ControlAuthorityRuns.AcquireEndsExactlyRivals | platform_core/manager/src/main.rs:3259-3292 | a successful acquire ends exactly the unexpired overlapping active leases and no sibling |
| ControlAuthorityRuns.IssuedGenerationIsNew | platform_core/manager/src/main.rs:3294-3314 | a new lease's generation exceeds every earlier one on its resource |
| ControlAuthorityRuns.StepIsAccounted | platform_core/manager/src/main.rs:3227-3463 | what any event makes of an active lease: released iff its trimmed owner releases it, preempted iff a preempting acquire on an overlapping resource succeeds in time, expired only when overdue; its expiry moves iff its owner renews it in time |
| ControlAuthorityRuns.LeasesEndOnlyFor | platform_core/manager/src/main.rs:3227-3463 | over all runs, a lease no longer active was released by its owner, preempted by an overlapping acquire or ran out, and an expiry that moved was renewed by the owner |
| ControlAuthorityRuns.StepIssuesAsked | platform_core/manager/src/main.rs:3227-3329 | a lease appears only by an acquire that met no fence, and is the one asked for, with the next generation |
| ControlAuthorityRuns.AcquiredIff | platform_core/manager/src/main.rs:3227-3329 | an acquire succeeds iff it met no fence, its request is within the limits, and it preempts or meets no unexpired active lease on an overlapping resource |
| ControlAuthorityRuns.OnlyOwnersSucceed | platform_core/manager/src/main.rs:3331-3400 | a release or renewal succeeds iff the trimmed owner is the lease's, a renewal only while the lease is active and in time; strangers are forbidden and unknown leases not found |
| ControlAuthorityFence.RunsAreRuns | platform_core/manager/src/main.rs:3104-3463 | with the fence check and the locked section as separate steps, every run is on the leases a run of the handlers |
| ControlAuthorityFence.EveryFencedRunIsGood | platform_core/manager/src/main.rs:3104-3463 | so the lease invariants hold over all those runs, wherever the fence goes up |
| ControlAuthorityFence.AdmittedIff | platform_core/manager/src/main.rs:3104-3116 | an acquire is on its way iff its check came before any fence and it has not taken the lock of the leases since |
| ControlAuthorityFence.IssuedAfterFenceIff | platform_core/manager/src/main.rs:3227-3319 | over all runs, a lease is issued after the fence went up iff its acquire's check came before it and the leases allow it at the lock |
| ControlAuthorityFence.NoMoreThanAdmitted | platform_core/manager/src/main.rs:3227-3319 | with the fence up, no more leases are issued than acquires were on their way |
| ControlAuthorityFence.QuietBehindFence | platform_core/manager/src/main.rs:3104-3463 | with the fence up and no acceptable acquire on its way, no lease is issued or preempted, no generation is drawn, and no lease becomes active |
| ControlAuthorityFence.StillIssuesIff | platform_core/manager/src/main.rs:3227-3319 | with the fence up, the run can go on to issue a lease iff an acquire with an acceptable request is on its way |
| ControlAuthorityFence.FenceIsCrossed | platform_core/manager/src/main.rs:3227-3319 | a run in which an acquire checks, the fence goes up, and the acquire then preempts another owner's lease and is issued its own |
| ProviderOrder.OrderBuilder.Visit | platform_core/manager/src/main.rs:4193-4227 | a visit adds exactly what is reachable, dependencies first, or names a reachable unknown or cyclic provider |
| ProviderOrder.ProviderDependencyOrder | platform_core/manager/src/main.rs:4193-4227 | it ends on every graph; Ok iff everything reachable is configured and acyclic, with exactly the reachable providers once each, dependencies first, target last |
| ProviderOrder.OrderMeansOrderable | platform_core/manager/src/main.rs:4193-4227 | an order exists only when everything reachable is configured and off any cycle |
| ProviderOrder.EnsureProviderHot | platform_core/manager/src/main.rs:4290-4316 | no provider is activated before all its transitive dependencies succeeded; it ends hot iff everything needed succeeds, and otherwise with the one failed attempt, none made twice |
| ProviderOrder.AffectedProviderIds | platform_core/manager/src/ui.rs:1069-1089 | it ends with the least set that contains the arm and is closed under dependents |
| ProviderOrder.AffectedIffOrdered | platform_core/manager/src/ui.rs:1069-1089 | a provider with an order is affected iff the arm occurs in the order |
| ShutdownPlan.BuildPlan | platform_core/manager/src/main.rs:3981-4110 | the seven steps list each class's members once and sorted, with exactly the blockers of all providers |
| ShutdownPlan.PlanIsDetermined | platform_core/manager/src/main.rs:3989-4040 | the plan does not depend on the order in which the configuration map is walked |
| ShutdownPlan.ExactlyOneClass | platform_core/manager/src/main.rs:3989-4040 | each configured provider, and nothing else, is in exactly one of the three lists |
| ShutdownPlan.PlacedByMarks | platform_core/manager/src/main.rs:3989-4110 | a provider named `rebot_dm` or reporting gravity float is in steps 3 and 5 only, whatever else it reports; one named `integrated` or reporting a `robot.motion` capability, and neither mark, in step 2 only; any other in step 4 only |
| ShutdownPlan.BlockersByMarks | platform_core/manager/src/main.rs:4011-4037 | the blockers are exactly the providers so marked as support without a safe-state path, and the running ones marked as motion without a report or with an expired one |
| ShutdownPlan.UnblockedIff | platform_core/manager/src/main.rs:4011-4037 | a plan has no blockers iff every provider marked as support has a safe-state path and every running one marked as motion only an unexpired report |
| ShutdownExecution.Execution.ExecuteStep | platform_core/manager/src/main.rs:3737-3841 | every provider of a step is tried in order, also after a failure; only the ordinary stop may fail without blocking |
| ShutdownExecution.Execution.TryProviders | platform_core/manager/src/main.rs:3763-3814 | the attempts and results of a step, one per provider in order |
| ShutdownExecution.Execution.NoteFailures | platform_core/manager/src/main.rs:3683-3699 | the failures recorded are those of the failed providers in order, and then the step's own |
| ShutdownExecution.Execution.Run | platform_core/manager/src/main.rs:3658-3735 | the attempts, results and failures are those of the steps up to the first that blocks; final state and supervisor advice accordingly |
| ShutdownExecution.RunIsPrefix | platform_core/manager/src/main.rs:3669-3735 | BLOCKED iff the last result is of a blocking step, and then nothing after it was done; otherwise all steps were |
| ShutdownExecution.AttemptsInOrder | platform_core/manager/src/main.rs:3669-3682 | an attempt comes after every attempt of the earlier steps |
| ShutdownExecution.BasicStopsLast | platform_core/manager/src/main.rs:3658-3841 | a stop reaches a provider marked as support only after every one marked as motion confirmed its stop and every one marked as support its safe state |
| ShutdownExecution.EndsAs | platform_core/manager/src/main.rs:3658-3841 | said on the providers' marks: BLOCKED iff a motion stop, a support check or a support stop fails; else PARTIAL iff an ordinary stop fails; else AWAITING_SUPERVISOR |
| ShutdownExecution.NoAttemptTwice | platform_core/manager/src/main.rs:3658-3841 | no request is sent twice in a run |
| ShutdownExecution.FailureIff | platform_core/manager/src/main.rs:3683-3699 | the failures recorded for providers are exactly the requests sent and not confirmed |
| ShutdownExecution.CleanIff | platform_core/manager/src/main.rs:3658-3735 | a run ends AWAITING_SUPERVISOR iff it recorded no failure |
| ShutdownExecution.ResultTells | platform_core/manager/src/main.rs:3763-3841 | a step's result lists its requests in order with how each turned out, and is confirmed iff nothing of it failed |
| ShutdownRuns.ShutdownManager.Execute | platform_core/manager/src/main.rs:3554-3637 | the gates of an execution request, replay and refusal while active, and what acceptance stores and spawns |
| ShutdownRuns.AdvanceMatches | platform_core/manager/src/main.rs:3658-3735 | each locked section of a spawned run keeps the stored record in step with that run |
| ShutdownRuns.EveryRunIsGood | platform_core/manager/src/main.rs:3554-3735 | over all interleavings of handlers and spawned runs, all runs but the last have ended and the record belongs to the last |
| ShutdownRuns.OneSequenceAtATime | platform_core/manager/src/main.rs:3593-3609 | two sequences are never under way at once, and none runs on a plan with blockers |
| ShutdownRuns.RequestIsTold | platform_core/manager/src/main.rs:3554-3637 | over all interleavings, a request begins a sequence iff enabled, confirmed, for the stored plan, which has no blockers, with none under way and the last not for the same request; for the same it is shown the record, and otherwise refused for a reason that holds |
| ShutdownRuns.EndedRecordIsComplete | platform_core/manager/src/main.rs:3683-3735 | a record that is no longer active tells the whole run of its plan |
| ShutdownRuns.SupportIsWithdrawnLast | platform_core/manager/src/main.rs:3554-3841 | in every reachable state, at any point of any execution, no provider marked as support was stopped before all confirmations it depends on |
| ShutdownRuns.CarriedOutAgainIff | platform_core/manager/src/main.rs:3593-3609 | over all interleavings, a request carried out before starts a sequence again iff another was accepted after its last time and nothing is under way |
| ShutdownRuns.RepeatedAfterAnother | platform_core/manager/src/main.rs:3593-3609 | over all interleavings, between two sequences for the same request there is one for another |
| ShutdownRuns.FirstThenOtherThenFirst | platform_core/manager/src/main.rs:3554-3637 | every plan without blockers has a run that carries out one request, another, and the first again |
| Calibration.CalibrationManager.List | platform_core/manager/src/main.rs:764-831 | listing refreshes every record from the camera reports |
| Calibration.CalibrationManager.Activate | platform_core/manager/src/main.rs:850-909 | a known request is answered without change; otherwise the batch of supersessions and the new record is offered, and stored iff it is taken |
| Calibration.CalibrationManager.SupersessionBatch | platform_core/manager/src/main.rs:1145-1163 | the batch holds each active record once as revoked, and the new one last |
| Calibration.CalibrationManager.Refine | platform_core/manager/src/main.rs:911-967 | the whole new state and reply of a refinement, the refresh that stays when it is refused included |
| Calibration.CalibrationManager.BuildRefined | platform_core/manager/src/main.rs:969-1125 | exactly when a refinement is built, and the updated copy with its drained journal |
| Calibration.CalibrationManager.Revoke | platform_core/manager/src/main.rs:1165-1212 | the whole new state and reply of a revocation |
| CalibrationRuns.StepIsGood | platform_core/manager/src/main.rs:764-1212 | every handler keeps the calibration invariants, and every record only evolves |
| CalibrationRuns.EveryRunIsGood | platform_core/manager/src/main.rs:764-1212 | over all runs at most one record is active, motion-usable implies active, and each record is the chain of its adopted refinements |
| CalibrationRuns.EndedForEver | platform_core/manager/src/main.rs:764-1212 | over all runs no record becomes active again, its origin and rotation never change, its revision never falls |
| CalibrationRuns.ApplyChain | platform_core/manager/src/main.rs:1086-1125 | an adopted refinement extends the chain: revision, linked journal, name and payload |
| CalibrationRuns.ReplayRecognisedIff | platform_core/manager/src/main.rs:864-878 | a repeated activation is recognised iff its identifier came trimmed, and then changes nothing |
| CalibrationRuns.ReplaySupersedesIff | platform_core/manager/src/main.rs:864-909 | an activation repeated, built and published anew supersedes its active first record iff its identifier came with outer whitespace, and the request then has two records |
| CalibrationRuns.PaddedRequestRunsTwice | platform_core/manager/src/main.rs:864-909 | the run in which a request whose identifier starts with a space is sent twice |
| CalibrationRuns.AdoptedOnce | platform_core/manager/src/main.rs:911-967 | one identical refinement request takes effect at most once |
| CalibrationRuns.ReplayedRefinementIsInert | platform_core/manager/src/main.rs:938-967 | a repeated refinement changes nothing but what refreshing sets, also after its journal entry is gone |
| CalibrationRuns.JournaledReplayAnswers | platform_core/manager/src/main.rs:938-950 | while journaled, a repeated refinement answers with the record and changes nothing |
| CalibrationRuns.DriftIsBounded | platform_core/manager/src/main.rs:1063-1085 | after n refinements each coordinate is within n times 1e-9 of the start plus the adopted deltas |
| CalibrationRuns.RefinedStaysNear | platform_core/manager/src/main.rs:911-1125 | over all runs each coordinate of a record is within its revision times 1e-9 of its start plus the deltas it adopted |
| CalibrationRuns.NamesDiffer | platform_core/manager/src/main.rs:1086-1090 | the calibration names of one record's revisions all differ |
| CalibrationCauses.RefreshedIs | platform_core/manager/src/main.rs:784-831 | a refreshed record is usable iff active and its own camera reports in time, ready and healthy, and invalidated iff active and another camera or calibration reports in its place |
| CalibrationCauses.StepIsAccounted | platform_core/manager/src/main.rs:764-1212 | what any event makes of an active record, and why: superseded, invalidated, revoked, usable, moved iff the event and the record say so |
| CalibrationCauses.EndedIsAccounted | platform_core/manager/src/main.rs:764-1212 | a record not active stays as it is under every event, and can only be revoked |
| CalibrationCauses.AppearsOnlyActivated | platform_core/manager/src/main.rs:850-909 | a record appears only as the one handed over by a configured, new and published activation |
| CalibrationCauses.RefinementIsTold | platform_core/manager/src/main.rs:911-1125 | what a refinement is told: adopted iff it fits the record and is published, answered from the journal iff remembered, else what is missing |
| CalibrationCauses.RevocationIsTold | platform_core/manager/src/main.rs:1165-1212 | what a revocation is told, in every case |
| FabricIngest.FabricStore.Insert | platform_core/fabric/src/main.rs:561-629 | validation, the sequence check per stream, insertion ids and bounded retention: outcome and whole new state |
| FabricIngest.FabricStore.PublishBatch | platform_core/fabric/src/main.rs:530-559 | a batch goes in one by one, stops at the first rejection and keeps what went in before |
| FabricRuns.OutcomeIs | platform_core/fabric/src/main.rs:561-698 | after any run an observation is rejected iff it names no stream, schema or frames, joins a frame to itself or offers an unreviewed calibration for motion; ignored iff no newer than the last taken from its stream by the same boot; else taken |
| FabricRuns.TakenAreNewer | platform_core/fabric/src/main.rs:590-597 | of one boot on one stream, what is taken is always newer than what was taken before it |
| FabricRuns.EdgesRetain | platform_core/fabric/src/main.rs:561-629 | after any run an edge retains the last samples taken for it, in order, numbered by all transforms taken before |
| FabricRuns.NothingUnfitIsRetained | platform_core/fabric/src/main.rs:631-698 | no edge ever retains a sample of an observation that should have been rejected |
| CalibrationSeam.TransformIsValid | platform_core/fabric/src/main.rs:631-698 | the Fabric takes a transition's observations iff its two frames are not blank and differ |
| CalibrationSeam.DeliveredIsPublished | platform_core/manager/src/main.rs:2352-2493 | delivering transitions with bases four apart is publishing the batch of their observations |
| CalibrationSeam.TakenIff | platform_core/fabric/src/main.rs:590-597 | in any batch with valid frames transition i is taken iff the stream is not held of this boot or t + 4 i exceeds the sequence held before the batch; so those taken are its last ones |
| CalibrationSeam.OfferKeeps | platform_core/fabric/src/main.rs:590-629 | every offer, whatever its clock reading and sequence, keeps each edge within its bound, in arrival order, with the Manager's samples as it writes them |
| CalibrationSeam.BatchDecides | platform_core/manager/src/main.rs:2352-2493 | after a batch an edge says what the latest says of the samples it held and the transitions taken there, within the bound |
| CalibrationSeam.DecidingAnswers | platform_core/fabric/src/main.rs:1778-1819 | to every query the Fabric's answer under the Manager's authority is what the latest of the Manager's samples retained on the edge says |
| CalibrationSeam.EdgeAnswers | platform_core/fabric/src/main.rs:1778-1819 | that answer is the edge's while no other authority speaks there, and conflicts with one that does |
| CalibrationSeam.EvictsIff | platform_core/fabric/src/main.rs:344-367 | a sample of another provider changes that answer iff the edge is full, its oldest sample decides, and the next in line says something else |
| CalibrationSeam.EveryRunIsKept | platform_core/fabric/src/main.rs:561-629 | over all runs, with any clock and any number of boots, every edge stays within its bound, in arrival order, with the Manager's samples as it writes them |
| CalibrationSeam.LatestPublicationWinsIff | platform_core/manager/src/main.rs:2352-2493 | over all runs, the Fabric answers with the last transition published for an edge iff it was taken, fewer samples of others than the bound were taken since, and nothing observed later still stands; otherwise with what still stands |
| CalibrationSeam.LatestPublicationWins | platform_core/manager/src/main.rs:2352-2493 | if the clock passes the last used sequence before each batch, the answer is what the last transition published for the edge says, until as many samples of others as the edge holds are taken |
| CalibrationSeam.HalfIsDropped | platform_core/fabric/src/main.rs:590-597 | of a batch of two on different edges, three ticks too early, the first is dropped and the second taken, with success reported |
| CalibrationSync.SupersessionIsShort | platform_core/manager/src/main.rs:1145-1163 | with one record active at most, an activation publishes at most two transitions |
| CalibrationSync.RefreshEndsIff | platform_core/manager/src/main.rs:784-831 | refreshing takes an active record out of ACTIVE iff the camera's report names another device or calibration revision |
| CalibrationSync.CallAgreesIff | platform_core/manager/src/main.rs:764-1212 | from any state, agreeing or not, a handler call leaves the Fabric's answers and the Manager agreeing iff every edge comes to say what the Manager comes to hold there |
| CalibrationSync.CallKeepsSyncIff | platform_core/manager/src/main.rs:764-1212 | a handler call from agreement leaves the Fabric's answers and the Manager agreeing iff it does not break, for every clock reading and every fate of its publication; what breaks is said by the guards and the edges before the call |
| CalibrationSync.ActivationRegainsIff | platform_core/manager/src/main.rs:850-909 | a confirmed activation brings agreement back from any state iff its edge comes to say the new calibration and every other edge nothing |
| CalibrationSync.StepKeepsSyncIff | platform_core/manager/src/main.rs:764-1212 | the same for every step: an observation of another provider breaks iff it drives out the sample that decides its edge and the next says something else, a restart of either service iff a record is active |
| CalibrationSync.RunAgreesIff | platform_core/manager/src/main.rs:764-1212 | over all runs of calls, foreign observations and restarts of both services, the Fabric's answers and the Manager agree at each moment iff none of the steps breaks |
| CalibrationSync.FabricAnswersActive | platform_core/fabric/src/main.rs:1778-1819 | over runs without a breaking step the Fabric's answer for an edge under the Manager's authority is the pose, revision and epoch of the record active there, and nothing iff there is none |
| CalibrationAnswers.ActiveCalibrationAnswers | platform_core/fabric/src/main.rs:1557-1726 | over runs without a breaking step, a client asking for the way from the arm's base to the world gets the pose of the record active between them, and its inverse for the way back, as long as nobody else speaks on that edge or joins the two frames directly |
| CalibrationDisagreement.InvalidationDisagrees | platform_core/manager/src/main.rs:764-831 | a run in which a refresh invalidates the active record and the Fabric goes on answering with it |
| CalibrationDisagreement.RevocationDisagrees | platform_core/manager/src/main.rs:1165-1212 | a run in which revoking a superseded record makes the Fabric answer nothing while another is active on the edge |
| CalibrationDisagreement.RejectionDisagrees | platform_core/manager/src/main.rs:889-909 | a run in which a rejected activation makes the Fabric answer nothing for the record still active |
| CalibrationDisagreement.LostAnswerDisagrees | platform_core/manager/src/main.rs:889-909 | a run in which the Fabric takes an activation whose answer is lost, and answers with a record the Manager does not hold |
| CalibrationDisagreement.StalledClockDisagrees | platform_core/manager/src/main.rs:2352-2411 | a run in which a confirmed activation supersedes nothing on the Fabric, because the clock reads the same microsecond again: the Fabric goes on answering with the record superseded |
| CalibrationDisagreement.RestartDisagrees | platform_core/manager/src/main.rs:603-608 | a run in which the Manager restarts and the Fabric goes on answering with the record it forgot |
| CalibrationDisagreement.FabricRestartDisagrees | platform_core/fabric/src/main.rs:404-409 | a run in which the Fabric restarts and answers nothing for the active record |
| CalibrationDisagreement.EvictionDisagrees | platform_core/fabric/src/main.rs:344-367 | for every bound, a run in which as many samples of another provider as the edge holds make the Fabric answer nothing for the active record, the last of them alone breaking agreement |
| CanonicalNumber.NormalizeSpelling | platform_core/manager/src/main.rs:2026-2055 | the normal form of a token from its sign, digits, point and exponent |
| CanonicalNumber.NormalizeDenotes | platform_core/manager/src/main.rs:2026-2055 | normalising keeps the rational a token denotes |
| CanonicalNumber.SameNormalIffSameRational | platform_core/manager/src/main.rs:2026-2055 | two tokens have one normal form iff they denote one rational, both zeros coinciding |
| CanonicalNumber.NormalizedFloatIsExact | platform_core/manager/src/main.rs:2026-2055 | the digest texts of two decimals agree iff they denote one rational |
| CanonicalTree.HexInjective | platform_core/manager/src/main.rs:2187-2195 | different byte strings have different hex texts |
| CanonicalTree.HexIsTwoDigits | platform_core/manager/src/main.rs:2187-2195 | each byte is two letters of the lower-case table, the upper half first |
| CanonicalTree.SortSorts | platform_core/manager/src/main.rs:2006-2021 | entries with distinct keys are sorted strictly and kept |
| CanonicalTree.NumberIsExact | platform_core/manager/src/main.rs:1992-2000 | two numbers have one tree iff they are the same integer or the same decimal rational |
| CanonicalTree.TypedIsExact | platform_core/manager/src/main.rs:1988-2024 | two JSON values have one tree iff they are equal up to key order and decimal spelling, integers and decimals kept apart |
| Base64Url.NextDigit | platform_core/manager/src/main.rs:2212-2230 | one letter through the truncating 32-bit accumulator keeps it equal to the text's value |
| Base64Url.Decode | platform_core/manager/src/main.rs:2208-2235 | a value is accepted iff the text before any padding denotes whole bytes with zero spare bits, and those bytes are returned |
| Base64Url.Encode | platform_core/manager/src/main.rs:5034-5058 | the encoder is the grouping by three of section 4 of RFC 4648 with the letters of section 5 |
| Base64Url.EncodedValue | platform_core/manager/src/main.rs:5034-5058 | an encoding denotes the bytes with zero spare bits, in as few letters as possible |
| Base64Url.DecodeEncoded | platform_core/manager/src/main.rs:2208-2235 | decoding any encoding returns the bytes, and nothing else is decoded from it |
| Base64Url.EncodeDecoded | platform_core/manager/src/main.rs:2208-2235 | re-encoding an accepted value returns it iff it has no padding and its length is not 1 modulo 4 |
| Base64Url.NotReturned | platform_core/manager/src/main.rs:2208-2235 | two accepted values that re-encoding does not return, one padded and one of length 1 |
| SceneTypes.MeanInBall | providers/arm_scene_compiler/python/arm_scene_compiler/compiler.py:405-417 | the mean of points of a ball lies in the ball |
| SceneTypes.MeanIsNearest | providers/arm_scene_compiler/python/arm_scene_compiler/compiler.py:405-417 | around any other point the squared distances of the points together exceed those around their mean, by the count times its squared distance to the mean |
| Voxel.AtLeastOctants | providers/arm_scene_compiler/python/arm_scene_compiler/compiler.py:399-404 | at every edge length at least one cell per occupied octant remains |
| Voxel.ExactlyOctants | providers/arm_scene_compiler/python/arm_scene_compiler/compiler.py:399-404 | once the edge is as long as the points reach, exactly one cell per occupied octant remains |
| Voxel.EightOctants | providers/arm_scene_compiler/python/arm_scene_compiler/compiler.py:397-404 | at most eight octants are occupied, so a budget of eight always suffices |
| Voxel.NeverFits | providers/arm_scene_compiler/python/arm_scene_compiler/compiler.py:399-404 | with more occupied octants than the budget no finite edge fits |
| Voxel.FiniteIff | providers/arm_scene_compiler/python/arm_scene_compiler/compiler.py:394-404 | the loop ends at a finite edge iff at most the budget of octants is occupied, and otherwise at the infinite one with a single cell |
| Voxel.UniqueCellsAre | providers/arm_scene_compiler/python/arm_scene_compiler/compiler.py:400-402 | the unique rows are exactly the occupied cells, in lexicographic order |
| Voxel.CellIff | providers/arm_scene_compiler/python/arm_scene_compiler/compiler.py:399-400 | a point is in the cell whose index times the edge, and the next, its offset lies between on each axis |
| Voxel.Coarsen | providers/arm_scene_compiler/python/arm_scene_compiler/compiler.py:394-404 | the loop ends, for every positive budget, at the first of the growing edges whose cells fit the budget |
| Voxel.EdgeIsNoLonger | providers/arm_scene_compiler/python/arm_scene_compiler/compiler.py:394-404 | a finite edge chosen is twice the minimum radius times a power of five fourths, and if longer than that, an edge of four fifths of it would leave too many cells |
| Voxel.VoxelSpheres | providers/arm_scene_compiler/python/arm_scene_compiler/compiler.py:385-439 | at most the budget of spheres, one per occupied cell in order; the error case exactly; the edge is the first that fits |
| Voxel.EveryPointIsCovered | providers/arm_scene_compiler/python/arm_scene_compiler/compiler.py:418-438 | every point lies in the sphere of its own cell |
| Voxel.SphereIsTight | providers/arm_scene_compiler/python/arm_scene_compiler/compiler.py:418-438 | a sphere has the minimum radius or touches a point of its cell |
| Voxel.CentersStayInside | providers/arm_scene_compiler/python/arm_scene_compiler/compiler.py:405-417 | centres of voxel spheres stay in every ball that holds all points |
| Voxel.CellTextInjective | providers/arm_scene_compiler/python/arm_scene_compiler/compiler.py:427 | different cells have different names |
| SceneCompiler.ApplySelfFilter | providers/arm_scene_compiler/python/arm_scene_compiler/compiler.py:169-209 | the kept points are the specification's, whose geometry `SceneMeaning.KeptPointsAre` states, and the error cases |
| SceneCompiler.CompileLayer | providers/arm_scene_compiler/python/arm_scene_compiler/compiler.py:577-600 | a voxel layer is the cell spheres at the first edge within the budget, or fails exactly when there are points and no room |
| SceneCompiler.BuildLayeredScene | providers/arm_scene_compiler/python/arm_scene_compiler/compiler.py:478-675 | a scene returned holds the normalised and filtered objects with distinct ids, the newest box per object, and both voxel layers at the first edges within their budgets; a refusal names a condition of the request that holds |
| SceneMeaning.MeetIff | providers/arm_scene_compiler/python/arm_scene_compiler/compiler.py:205-208 | two balls share a point iff their centres are no further apart than their radii together |
| SceneMeaning.KeptPointsAre | providers/arm_scene_compiler/python/arm_scene_compiler/compiler.py:169-209 | the self filter keeps, as often as seen, exactly the points whose ball of published radius shares no point with any self sphere grown by the margin |
| SceneMeaning.RemainingPointsAre | providers/arm_scene_compiler/python/arm_scene_compiler/compiler.py:478-564 | the points a scene is made of are those kept, unless one object bounds them all |
| SceneMeaning.NoPointIsLost | providers/arm_scene_compiler/python/arm_scene_compiler/compiler.py:478-601 | every kept point of a published scene lies in a sphere of its own layer, unless one object bounds them all |
| SceneMeaning.EverySphereHoldsAPoint | providers/arm_scene_compiler/python/arm_scene_compiler/compiler.py:405-438 | every voxel sphere of a scene holds a kept point, and has its layer's minimum radius or touches one |
| SceneMeaning.NormalizedIff | providers/arm_scene_compiler/python/arm_scene_compiler/compiler.py:212-285 | an object is taken in iff it can be, and then with its kind, place, region and radius as supplied |
| SceneMeaning.SceneObjectsAre | providers/arm_scene_compiler/python/arm_scene_compiler/compiler.py:443-475 | the objects of a scene are those supplied, except the tracked ones that meet a self sphere grown by the margin |
| SceneMeaning.SceneBoxesAre | providers/arm_scene_compiler/python/arm_scene_compiler/compiler.py:324-382 | the boxes of a scene are, per work object, the newest supplied, and every box of a work object was fit to publish |
| SceneMeaning.SceneIsAsAsked | providers/arm_scene_compiler/python/arm_scene_compiler/compiler.py:478-675 | revision, origins, total number of spheres and the gripper layer's share of the room are as the request asks |
| SceneRefusals.RefusalIsDue | providers/arm_scene_compiler/python/arm_scene_compiler/compiler.py:212-675 | every error the compiler gives is deserved by something in the request, so a request with no such fault gets its scene |
| SceneCompiler.RemovalIsPerPointIff | providers/arm_scene_compiler/python/arm_scene_compiler/compiler.py:556-564 | the removal inside objects is per point iff nothing is inside an object, or one object bounds even the joint norm |
| SceneCompiler.InsidePointIsKept | providers/arm_scene_compiler/python/arm_scene_compiler/compiler.py:556-564 | two points, one inside the only object, and both are kept |
| SceneValidator.Validate | platform_core/fabric/src/main.rs:1145-1343 | the validator accepts exactly the scenes that meet its rules on layers, spheres and boxes, a number left out of a layer being compared as NaN |
| SceneValidator.ValidateLayers | platform_core/fabric/src/main.rs:1186-1250 | layers are accepted iff all are canonical in what they state and their scopes differ, and are then looked up by scope |
| SceneValidator.ValidateSpheres | platform_core/fabric/src/main.rs:1252-1340 | spheres are accepted iff each lies in its layer as far as the layer states its radius and minimum, and their trimmed ids differ |
| SceneValidator.ValidateAabbs | platform_core/fabric/src/main.rs:727-909 | boxes are accepted iff there are at most 1024, each is valid, and their object ids differ |
| SceneBoxes.CornersPointTheWay | platform_core/fabric/src/main.rs:847-907 | every corner of an accepted box is a point of it, and no point lies further in a direction than the corners it names, read as the box's own axis texts say |
| SceneBoxes.CenterAndSizeAre | platform_core/fabric/src/main.rs:824-846 | an accepted box is symmetric about its centre and spans its size, within the tolerance |
| SceneBoxes.TimesIff | platform_core/fabric/src/main.rs:803-823 | the times of a box are accepted iff all are positive 64-bit numbers and it expires as long after observation as it is fresh, or at the last number there is |
| SceneValidator.LayersBoundSpheresIff | platform_core/fabric/src/main.rs:1221-1340 | accepted layers make every accepted sphere keep to its region and minimum iff each of them states both numbers |
| SceneValidator.UnboundedIsAccepted | platform_core/fabric/src/main.rs:1221-1340 | an accepted scene whose only sphere, of negative radius, lies a hundred metres from the centre of its region |
| SceneContract.LayersAreAccepted | platform_core/fabric/src/main.rs:1186-1250 | the layers of every scene the compiler returns are accepted |
| SceneContract.ObjectIsProper | providers/arm_scene_compiler/python/arm_scene_compiler/compiler.py:212-285 | every semantic object published lies in its region, is no smaller than its minimum and has an object id |
| SceneContract.VoxelsAreProper | providers/arm_scene_compiler/python/arm_scene_compiler/compiler.py:566-600 | every voxel sphere published lies in its region, with the layer's minimum radius and an id of its own |
| SceneContract.VoxelIdInjective | providers/arm_scene_compiler/python/arm_scene_compiler/compiler.py:427-430 | voxel identifiers differ across layers and cells |
| SceneContract.BoxesAreAcceptedIff | providers/arm_scene_compiler/python/arm_scene_compiler/compiler.py:324-382 | the compiler's boxes are accepted iff at most 1024, each described and expiring within 64 bits |
| SceneContract.ProducerMeetsValidatorIff | platform_core/fabric/src/main.rs:1145-1343 | every scene the compiler returns is accepted iff its objects' ids, trimmed, are not blank, differ and name no voxel, and its boxes are described |
| SceneContract.ServiceableIdsServe | providers/arm_scene_compiler/python/arm_scene_compiler/compiler.py:263 | supplied ids that are trimmed and do not start with `voxel:` always meet that condition |
| SceneContract.SceneFits | providers/arm_scene_compiler/python/arm_scene_compiler/compiler.py:553-601 | a scene never holds more spheres than the request allows |
| BufferRef.SharedMemory.ReadPayload | contracts/python/midbrain_bufferref/windows.py:108-109 | each byte read was in place at some instant of the read |
| BufferRef.BufferRefReader.Open | contracts/python/midbrain_bufferref/windows.py:64-86 | a view is opened iff not yet open, given references, all valid, and the mapping has room for them; otherwise exactly the error is given |
| BufferRef.ValidatedIff | contracts/python/midbrain_bufferref/windows.py:118-143 | a reference is accepted iff it names this mapping and the transport and its fields make sense |
| BufferRef.FaultIs | contracts/python/midbrain_bufferref/windows.py:118-143 | a reference refused is at the fault its error names |
| BufferRef.RequiredIff | contracts/python/midbrain_bufferref/windows.py:64-86 | the bytes mapped are the fewest that hold every reference, and the error is that of the first in error |
| BufferRef.WordIsRead | contracts/python/midbrain_bufferref/windows.py:145-148 | the generation read is the signed little-endian word in place |
| BufferRef.BufferRefReader.ReadRef | contracts/python/midbrain_bufferref/windows.py:94-116 | the exact course of a read: Ok iff its last look finds the requested generation, with bytes seen between its last two looks; Expired iff a pass begins on another; Inconsistent iff the last pass ends on another; under the producer's protocol the payload committed, at the first pass |
| BufferRef.StandingIsRead | contracts/python/midbrain_bufferref/windows.py:94-116 | a failed read met another generation; while the slot stands still a read returns the payload in place |
| BufferRef.PayloadStands | contracts/python/midbrain_bufferref/windows.py:94-116 | between two instants of one even generation the payload does not change |
| BufferRef.CommittedOnce | contracts/python/midbrain_bufferref/windows.py:94-116 | a generation is committed with one payload only |
| BufferRef.CopyBufferRefs | contracts/python/midbrain_bufferref/windows.py:151-163 | an opened copy fails only if some slot showed another generation meanwhile; if all stand still it returns every payload in place, and what it returns is what each reference names |
| BufferRef.CopiesAgree | contracts/python/midbrain_bufferref/windows.py:151-163 | under every schedule two successful copies of the same references are equal |

## Left out

- HTTP routing, task scheduling, process control, file writes and the publications themselves; a publication or a
  provider call is an outcome.
- SHA-256, HMAC and hex of digests: the digest claim is on the canonical tree.
- Floating-point rounding and the trigonometry of `quat_slerp`.
- The field-by-field checks of `build_workcell_activation_record`, of the hand angular projection and of provider
  payloads: their verdict is a parameter.
- Wrap-around of the u64 insertion counter, of refinement revisions and of sequence numbers at the end of their range.
- The wording of reasons and error messages, and fields that are only copied through.
- The bound on each stream's plain history and the counters of accepted observations.
- TransformHistory.TransformEdgeHistory.Insert: the index per edge is modelled here; `FabricIngest` keeps the retained
  samples of every edge as values, so sharing between edges' indexes is not modelled there.
- CalibrationRuns.EveryRunIsGood: a refinement's checks on identities and the arm's report are one arbitrary verdict.
- BufferRef.BufferRefReader.ReadRef: the eight bytes of a generation are read in one access; a torn generation word is
  not modelled.
- Base64Url.Encode: the encoder belongs to the Manager's tests; the service itself only decodes.
- CanonicalNumber.Normalize: exponents beyond 64 bits, on which the source stops with an error, are treated as integers.
- Voxel.Coarsen: the largest float is a parameter; between it and zero the edge grows by exactly a quarter, so rounding
  of the edge is not modelled.
- SceneCompiler.BuildLayeredScene: upper-casing of types, scopes and sources happens before the model's inputs.
- Calibration.Payload: the norm test of `validate_transform_payload` on rotation tokens is part of a verdict; the
  tokens' value is the unit quaternion after normalisation.
- CalibrationSync.StepKeepsSyncIff: a restart interrupts no handler; a call cut short by it is one whose answer is lost
  or whose publication never arrives, followed by the restart.
- WakeUp.UnsatisfiedOnlyAtDeadline: whether an outcome needs a bracket is an arbitrary verdict of each resolution, and
  the wait of at most 30 seconds and the clock are whole numbers of one unit.
- Voxel.AtLeastOctants: over the reals a point below the centre has a negative floor at every edge; in floats a tiny
  offset over a huge edge underflows to a floor of -0, which merges it with the octant above.
- SceneMeaning.KeptPointsAre: a negative margin that takes more off a self sphere than its radius leaves no ball to speak
  of; for such margins only the comparison of the source is modelled.
- SceneValidator.Validate: corner and axis names are enumerations, so a box with further names in those objects is not
  expressible.
- Point-cloud and semantic-assertion observations, the other providers, skills and user interfaces of the repository.
