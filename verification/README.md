# Sliding-mesh magnetics: a verified model

This project models the parts of xfemm that let one magnetic model be solved again and again while
its rotor turns: building an air gap once and repositioning it instead of meshing again, predicting
sparsity patterns for whole intervals of rotor angles, keeping a solver, its mesh and its committed
field behind a session, and the in-place kernels around them.

- **Sliding air gaps** (`Angles`, `StableOrder`, `RingTurning`, `AirGapRing`, `AirGapBuild`,
  `AirGapPosition`, `Tiling`, `Stencil`, `EvenGaps`, `Crossing`). A sector's boundary nodes are tiled
  around a ring, stored relative to zero, turned and re-sorted. Reuse equals rebuilding for all
  inputs, ties included, because both use a stable sort.
- **Pattern buckets** (`EntryOrder`, `Linking`, `PeriodicClosure`, `Bucket`, `Coverage`). Finitely many sampled
  angles cover a continuum: every entry needed anywhere in a bucket's window is in its definition.
  For arbitrary angles of both rings the exact condition is proved.
- **Sparse topologies** (`SparseSystem`, `RingInference`, `UniversalTopology`). Two rings inferred by
  two-colouring the changed edges, a union pattern, padding and lower-triangle extraction.
- **Sessions** (`SessionModel`, `AnalysisSession`, `SessionKeeps`, `SessionRuns`, `SessionFields`,
  `SessionGaps`,
  `SessionSetters`, `SessionEdges`, `SessionObject` over `GapPlacement`, `SolverBackend`, `BackendRuns`; and
  `MotorSession` with `EvaluatorRuns`). The objects' methods are proved to take the steps of specification functions;
  runs are sequences of such steps with arbitrary answers of mesher and solver.
- **Kernels** (`PeriodicSides`, `PeriodicPairs`, `Renumber`, `PrescribedValues`, `Assembly`,
  `Linkage`).

Numbers are exact reals. `atan2` and the rotation matrix are replaced by one given natural angle per
boundary node. The device branch of the solver is modelled as compiled in.

Where the code does less than its operations suggest, the model keeps the code and states exactly when:

- A sector repeats around its ring if and only if points that share a place in the sector are whole
  turns apart (`Tiling.QuasiPeriodicIffUntangled`); the converter accepts others too
  (`EvenGaps.TangledGapIsBuilt`).
- A bucket samples relative angles with the outer ring unturned. For an outer ring turned by whole
  elements the definition covers the placement (`Bucket.DefinitionCoversPlacement`); for arbitrary
  angles exactly when the placement's relative crossings lie, modulo the sector, between those at the
  first and at the greatest sample, or these leave fewer than nine distances out
  (`Coverage.CoveredExactly`, `Coverage.CoveredInClosedForm`). This fails for some placement when both
  rings start at zero, the sector has ten elements or more and a bucket is no wider than an element
  (`Coverage.TurnedOuterIsNotCovered`, and `Coverage.BuiltGapIsNotCovered` for gaps of the converter).
  The code merges the graph as positioned into the bucket elsewhere, which is not part of this model.
- A line of length zero with a side length set adds no segment, so "one more segment than nodes"
  holds if and only if no side length is set or the line has length
  (`PeriodicSides.OneMoreSegmentThanNodes`).
- Without the device, synchronizing after a failed positioning succeeds with gaps out of place, since
  the topology counts as imported before the gaps are positioned
  (`SessionEdges.RetrySkipsPositioning`, `SessionEdges.BadRemeshHappens`).
- `acceptSolution` commits the field the solver holds, which in every state of every run is the one
  the history tells (`SessionFields.HistoryHolds`): that of the last issued trial until a rollback,
  the initializing solve or a new mesh replaces it. So an accepted state has the committed field if
  and only if its trial has that field (`SessionFields.AcceptCommitsHeld`,
  `SessionFields.AcceptCommitsLiveTrial`); neither a rollback nor a new mesh changes a revision
  (`SessionFields.AcceptAfterRollback`, `SessionFields.AcceptAfterNewTopology`,
  `SessionEdges.RollbackDoesNotRevoke`).
- A rollback does not switch the selected bucket back: after any trials and a rollback, a commit
  stores the old field under the bucket of the angles last synchronized, which is the old bucket if
  and only if those angles have its identity (`BackendRuns.CommitAfterTrialsAndRollback`,
  `BackendRuns.RollbackKeepsOtherBucket`).
- Changing a material blocks later parameter updates that keep the old initial state
  (`SessionEdges.MaterialChangeBlocksUpdates`, `SessionEdges.BlockedUpdateHappens`); an update may
  drop a circuit's constraint, and nothing solves from then on until it is set
  (`SessionEdges.CircuitsNeedConstraints`).
- Completing a trial to an accepted state after the solver has come to show another field, as after
  a rollback, mixes the two: whatever the integrals are, it is what evaluating would have given if and
  only if the snapshot is the same or there is no gap (`MotorSession.CompletionNeedsSameSnapshot`).
  Completing it to full diagnostics leaves nothing of the field it was evaluated for, except a
  stranded linkage that has got lost where there are no weights (`MotorSession.FullCompletionForgets`,
  `MotorSession.StrandedLinkageStays`). The completion is accepted all the same
  (`MotorSession.CompletedAfterRollback`).
- The evaluator extracts its weights once, while the session it hands out can be asked for another
  mesh. Its linkages are those of the mesh at hand, whatever the meshes are, if and only if no new
  topology has reached the solver since the extraction, or there is no circuit
  (`EvaluatorRuns.LinkagesOfPresentMesh`, `EvaluatorRuns.StaleWeightsAreUsed`).

## Model

| member | source | states |
|---|---|---|
| Angles.CanonicalDegrees | cfemm/fsolver/FSolverAnalysisBackend.cpp:29-34 | the signed remainder, corrected, lies in [0, 360) and differs from the angle by its whole turns rounded down |
| Angles.CanonicalIffWholeTurns | cfemm/fsolver/FSolverAnalysisBackend.cpp:29-34 | two angles wrap alike if and only if they differ by whole turns |
| Angles.CanonicalAbsorbs | cfemm/fsolver/FSolverAnalysisBackend.cpp:48 | wrapping before a further rotation changes nothing |
| StableOrder.StablySortedUnique | cfemm/fmesher/TangleMeshConverter.cpp:156-160 | a list has only one stable sort: ascending positions and, at each position, the old order |
| StableOrder.BubbleSort | cfemm/fmesher/writepoly.cpp:1562-1596 | the early-exit bubble sort of the mesher is the stable sort, in place |
| RingTurning.SortingFirstIsHarmless | cfemm/fsolver/FSolverAnalysisBackend.cpp:43-58 | sorting a ring before turning it leaves the sorted turned ring unchanged, ties included |
| RingTurning.RepositionedIsRotation | cfemm/fsolver/FSolverAnalysisBackend.cpp:43-58 | a repositioned ascending ring within one turn is the stored one rotated cyclically, at the cut where the first point comes round |
| RingTurning.RepositionedWholeTurns | cfemm/fsolver/FSolverAnalysisBackend.cpp:48 | repositioning depends on the angle modulo 360 only |
| AirGapBuild.BuildAirGap | cfemm/fmesher/TangleMeshConverter.cpp:72-203 | accepts a definition if and only if every check holds, and then returns the gap with both full rings, stored relative to zero, and the brackets; otherwise the error of the first check that fails |
| AirGapBuild.BuildableIff | cfemm/fmesher/TangleMeshConverter.cpp:77-118 | a definition is accepted if and only if its format is 0 or 1, both rings have n > 0 nodes, 0 <= ri < ro, the arc is positive, every node exists and some number of sectors tiles the annulus |
| AirGapBuild.ErrorIs | cfemm/fmesher/TangleMeshConverter.cpp:77-118 | the error names the first fault in the order of the checks |
| AirGapBuild.CheckTiling | cfemm/fmesher/TangleMeshConverter.cpp:105-118 | the tiling test: counts within tolerance, products equal, an even number of copies when antiperiodic |
| AirGapBuild.CollectRings | cfemm/fmesher/TangleMeshConverter.cpp:120-155 | the nested loops list every copy of every point at its rotated, wrapped position with its copy sign |
| AirGapBuild.EmitBrackets | cfemm/fmesher/TangleMeshConverter.cpp:191-201 | n + 1 brackets, each holding ring points i - 1 and i around both rings |
| AirGapBuild.TilesIff | cfemm/fmesher/TangleMeshConverter.cpp:105-118 | a sector tiles the annulus if and only if some number of sectors (even when antiperiodic) makes a turn, and that many times its elements all elements, each to 1e-9; that number is the number of copies |
| AirGapBuild.BuiltGapIs | cfemm/fmesher/TangleMeshConverter.cpp:72-203 | the rings of a built gap hold exactly the copies of the boundary nodes: copy c stands c arcs on, wrapped, with sign -1 for odd copies of an antiperiodic sector and 1 otherwise |
| AirGapBuild.BuiltSigns | cfemm/fmesher/TangleMeshConverter.cpp:120-201 | every ring point and every bracket has sign 1, or -1 when antiperiodic |
| AirGapRing.ReuseIsRebuild | cfemm/fmesher/TangleMeshConverter.cpp:120-190 | turning the ring stored at angle a by b is the ring built at b: nodes, signs, positions and order, without any distinctness assumption |
| AirGapRing.ReuseRotates | cfemm/fmesher/TangleMeshConverter.cpp:120-190 | repositioning a stored ring rotates its nodes and signs cyclically |
| AirGapPosition.AirGapElement.PositionGap | cfemm/fsolver/FSolverAnalysisBackend.cpp:36-77 | in place: rings turned, sorted, bracketed; fails exactly on rings of different size and then changes nothing |
| AirGapPosition.PositionedStores | cfemm/fsolver/FSolverAnalysisBackend.cpp:61-73 | the stored angles are the asked ones less whole turns, in [0, 360); the shifts are the lowest positions on the turned rings; without two rings the angles are stored as they are |
| AirGapPosition.RewriteBrackets | cfemm/femmcli/LuaMagneticsCommands.cpp:131-145 | the bracket loop that gives up when the ring is too short, with what it has written by then |
| AirGapPosition.RepositionReusable | cfemm/femmcli/LuaMagneticsCommands.cpp:90-148 | one gap of a reusable mesh: succeeds exactly when boundary, rings and element count fit |
| AirGapPosition.ReusableMesh.PositionReusableAirGaps | cfemm/femmcli/LuaMagneticsCommands.cpp:87-150 | all gaps in turn, stopping at the first that does not fit; those before it repositioned, those after it untouched |
| AirGapPosition.BoundaryForIs | cfemm/femmcli/LuaMagneticsCommands.cpp:93-105 | the boundary found is the first one with the name of the gap, and it is found if and only if that one is magnetic |
| AirGapPosition.ReuseRefinesRebuild | cfemm/fsolver/FSolverAnalysisBackend.cpp:36-77 | a gap built at one pair of angles and repositioned to another has exactly the brackets, signs and shifts of a gap built there |
| AirGapPosition.ReusableRefinesRebuild | cfemm/femmcli/LuaMagneticsCommands.cpp:87-150 | a built gap of a reusable mesh, however often repositioned, is repositioned if and only if the first boundary of its name is magnetic, and then is the gap built at the two angles of that boundary, its stored rings excepted |
| AirGapPosition.ReusableMeshRefinesRebuild | cfemm/femmcli/LuaMagneticsCommands.cpp:87-150 | the same for all gaps of the mesh |
| AirGapPosition.OnlyTheLastAnglesMatter | cfemm/fsolver/FSolverAnalysisBackend.cpp:36-77 | repositioning twice is repositioning once at the last angles modulo whole turns |
| Tiling.FullRingIsUnrolled | cfemm/fmesher/TangleMeshConverter.cpp:120-160 | when the copies fill the turn, the sorted full ring is one sorted sector repeated, each point in the copy that lands there |
| Tiling.BuiltRingIsQuasiPeriodic | cfemm/fmesher/TangleMeshConverter.cpp:105-160 | ring[(k+n) mod N] is ring[k] one sector on with the sign flipped exactly when antiperiodic, across the wrap too |
| Tiling.QuasiPeriodicIffUntangled | cfemm/fmesher/TangleMeshConverter.cpp:105-160 | for distinct nodes this holds if and only if points that share a place in the sector are whole turns apart |
| Tiling.EveryNodeOncePerCopy | cfemm/fmesher/TangleMeshConverter.cpp:120-160 | every boundary node stands on the full ring once per copy, ties or not |
| Stencil.StencilIsFullRing | cfemm/fpproc/fpproc.cpp:1563-1634 | the ten stencil nodes read from n + 1 brackets with wrapped indices and end corrections are five consecutive points of each full ring |
| Stencil.AppendAgeStructure | cfemm/fsolver/FSolverAnalysisBackend.cpp:80-103 | appends exactly the entries of all slices |
| Stencil.StructureIsFullRing | cfemm/fsolver/FSolverAnalysisBackend.cpp:80-103 | these entries are exactly the pairs of nodes that meet somewhere around the full annulus |
| EvenGaps.BuiltStencils | cfemm/fmesher/TangleMeshConverter.cpp:120-201 | so the stencils of a built, exactly tiling gap are those of its full rings |
| EvenGaps.BuiltGapIsEven | cfemm/fmesher/TangleMeshConverter.cpp:120-190 | evenly spaced sectors give gaps whose stored rings are evenly spaced, as bucket coverage needs |
| EvenGaps.BuiltGapIsImported | cfemm/fmesher/TangleMeshConverter.cpp:72-203 | every gap the converter builds meets what the solver relies on in the gaps of its mesh |
| EvenGaps.TangledGapIsBuilt | cfemm/fmesher/TangleMeshConverter.cpp:105-160 | the converter accepts a definition with points half a turn apart that share a place; its rings do not repeat |
| Crossing.UniformRotates | cfemm/fsolver/FSolverAnalysisBackend.cpp:43-58 | an even ring turned by an angle is rotated by the number of points that have come past zero |
| Crossing.SameRelativeCrossings | cfemm/fsolver/FSolverAnalysisBackend.cpp:36-103 | two placements with the same relative crossings, modulo the ring, have the same sparsity pattern |
| PeriodicClosure.Root | cfemm/fsolver/FSolverAnalysisBackend.cpp:105-117 | following parents terminates at the root |
| PeriodicClosure.BuildForest | cfemm/fsolver/FSolverAnalysisBackend.cpp:105-117 | the parent array stays an acyclic forest and represents the pairs |
| PeriodicClosure.SameRootIffLinked | cfemm/fsolver/FSolverAnalysisBackend.cpp:105-117 | two nodes share a root if and only if a chain of periodic pairs links them |
| PeriodicClosure.CloseUnderPeriodicConstraints | cfemm/fsolver/FSolverAnalysisBackend.cpp:105-139 | the result is the source and every ordered pair (r, c) with r linked to a and c to b for some source entry (a, b), and nothing else |
| EntryOrder.BeforeIsRowMajor | cfemm/fsolver/FSolverAnalysisBackend.cpp:311-314 | entries are in the order of their places in a matrix read row by row |
| Bucket.CollectSamples | cfemm/fsolver/FSolverAnalysisBackend.cpp:284-303 | the sampled angles: both ends, both sides of every event, the half-pitch grid |
| Bucket.SamplesAre | cfemm/fsolver/FSolverAnalysisBackend.cpp:286-303 | an angle is sampled if and only if it is the window start, the last number before its end, a tolerance before or after a multiple of the pitch and within the window, or on the half-pitch grid |
| Bucket.WindowIs | cfemm/fsolver/FSolverAnalysisBackend.cpp:282-287 | bucket windows start at multiples of the width and end one width on or with the turn; the bucket is that of the inner less the outer angle |
| Bucket.LastNumberIsSampled | cfemm/fsolver/FSolverAnalysisBackend.cpp:294 | the window start and the last number before the window end are samples |
| Bucket.FindGapIsFirst | cfemm/fsolver/FSolverAnalysisBackend.cpp:277-280 | the gap sampled for a boundary is the first of its name |
| Bucket.BuildCudssBucket | cfemm/fsolver/FSolverAnalysisBackend.cpp:271-316 | fails exactly when a gap asked for has rings of different size; otherwise sorted, duplicate-free, the closure of what the samples bring together |
| Bucket.CacheIsTransparent | cfemm/fsolver/FSolverAnalysisBackend.cpp:328-371 | definitions of the same identity on the same rings are equal, however the gaps were placed in between |
| Bucket.WindowHoldsItsAngle | cfemm/fsolver/FSolverAnalysisBackend.cpp:255-285 | the relative angle lies in its own bucket window |
| Bucket.WindowIsCovered | cfemm/fsolver/FSolverAnalysisBackend.cpp:276-307 | with the outer ring unturned, every entry needed at any angle from the window start to one number before its end occurs at some sample |
| Bucket.TurnedWindowIsCovered | cfemm/fsolver/FSolverAnalysisBackend.cpp:276-307 | the same range of relative angles for turned rings that passed the same number of points |
| Bucket.WholeElementsKeepCrossings | cfemm/fsolver/FSolverAnalysisBackend.cpp:276-307 | turning the outer ring by whole elements always qualifies |
| Bucket.DefinitionCoversBucket | cfemm/fsolver/FSolverAnalysisBackend.cpp:271-316 | so a stored pattern holds every entry of its whole window, up to one number before its end |
| Bucket.DefinitionCoversPlacement | cfemm/fsolver/FSolverAnalysisBackend.cpp:271-316 | and every entry of the present placement, if its relative angle is in that range |
| Coverage.CrossMeets | cfemm/fsolver/FSolverAnalysisBackend.cpp:80-103 | two nodes across an even gap meet exactly when their distance is within four of the relative crossings, modulo the sector |
| Coverage.CoveredExactly | cfemm/fsolver/FSolverAnalysisBackend.cpp:276-307 | for any angles of both rings: every entry of the placement occurs at a sample if and only if each of the nine distances it spans is within reach of a sample |
| Coverage.CoveredInClosedForm | cfemm/fsolver/FSolverAnalysisBackend.cpp:276-307 | in closed form: exactly when the relative crossings lie, modulo the sector, between those at the window start and at its greatest sample, or these leave fewer than nine distances out |
| Coverage.SampleAtCrossing | cfemm/fsolver/FSolverAnalysisBackend.cpp:284-303 | every number of crossings in between has a sample |
| Coverage.HighestAtLast | cfemm/fsolver/FSolverAnalysisBackend.cpp:286-294 | the greatest sample counts like the number before the window end unless a ring point passes zero in between |
| Coverage.GreatestSample | cfemm/fsolver/FSolverAnalysisBackend.cpp:294-303 | the greatest sample is at or above the number before the window end and below the end; it is that number unless a sample lies in between |
| Coverage.SampledIsNeeded | cfemm/fsolver/FSolverAnalysisBackend.cpp:276-307 | the converse of coverage: every sampled entry is needed at some angle of the window |
| Coverage.TurnedOuterIsNotCovered | cfemm/fsolver/FSolverAnalysisBackend.cpp:276-307 | with both rings starting at zero, ten elements or more and buckets no wider than one element, some placement whose relative angle is in the first bucket has an entry at no sample |
| Coverage.DefinitionLacks | cfemm/fsolver/FSolverAnalysisBackend.cpp:271-316 | without periodic nodes the definition of that bucket lacks the entry |
| Coverage.AnnulusIsSimple | cfemm/fsolver/FSolverAnalysisBackend.cpp:276-307 | full annuli are such gaps |
| Coverage.AnnulusIsBuilt | cfemm/fmesher/TangleMeshConverter.cpp:72-203 | each of them is the gap the converter builds for a definition of one sector |
| Coverage.BuiltGapIsNotCovered | cfemm/fsolver/FSolverAnalysisBackend.cpp:276-307 | so for every number of elements from ten on and every narrow bucket a gap built by the converter has a placement that is not covered |
| SparseSystem.RelativeResidual | benchmarks/cuda/xfemm_system.cpp:127-143 | row products against the right-hand side; dimension mismatch is an error (the square, see below) |
| SparseSystem.RelativeResidualIs | benchmarks/cuda/xfemm_system.cpp:138-142 | times the squares of the right-hand side it gives the squares of the residual; it is zero if and only if the residual is; a zero right-hand side leaves the squares of the residual |
| SparseSystem.ResidualVanishes | benchmarks/cuda/xfemm_system.cpp:131-142 | the residual is zero if and only if every row product is the right-hand side of its row |
| SparseSystem.ProductIsCombination | benchmarks/cuda/xfemm_system.cpp:131-138 | a row product over stored entries is the sum over all columns of the entry times the unknown |
| SparseSystem.SameMatrixSameResidual | benchmarks/cuda/xfemm_system.cpp:127-143 | systems with the same value at every row and column have the same residual |
| RingInference.ColorGraph | benchmarks/cuda/cudss_solver.cpp:160-202 | breadth-first colouring: not bipartite exactly when an odd closed walk exists; otherwise every edge has two colours, the lowest node of every component has the first, and the count is the number of components with edges |
| RingInference.LowestColoredUnique | benchmarks/cuda/cudss_solver.cpp:160-199 | there is only one such colouring |
| RingInference.OneComponentDeterminesRings | benchmarks/cuda/cudss_solver.cpp:200-201 | with one component the two rings are determined up to exchange |
| UniversalTopology.UndirectedOffDiagonalEdges | benchmarks/cuda/cudss_solver.cpp:119-134 | exactly the off-diagonal entries as unordered pairs, sorted |
| UniversalTopology.EdgeIff | benchmarks/cuda/cudss_solver.cpp:119-134 | an edge is a pair (r, c) with r < c that row r of the system stores |
| UniversalTopology.InferRings | benchmarks/cuda/cudss_solver.cpp:145-202 | in the order of the checks each failure if and only if its case holds; otherwise the two colour classes of that one colouring, of equal size |
| UniversalTopology.BuildUniversalAgeTopology | benchmarks/cuda/cudss_solver.cpp:145-246 | in the order of the checks each of the six failures if and only if its case holds; otherwise exactly the union of the systems and, where the rings are completed, the ring cross products |
| UniversalTopology.RingsAreUnique | benchmarks/cuda/cudss_solver.cpp:160-199 | the rings of the changed edges are determined, so their sizes either agree or differ |
| UniversalTopology.UnionIs | benchmarks/cuda/cudss_solver.cpp:203-245 | a union lists what some system stores and, completed, the places that join the two rings; nothing else |
| UniversalTopology.PadToTopology | benchmarks/cuda/cudss_solver.cpp:248-270 | the two-pointer merge succeeds exactly when the pattern contains the system, and keeps every entry |
| UniversalTopology.FamilyIsContained | benchmarks/cuda/cudss_solver.cpp:203-245 | padding never fails for a system of the union |
| UniversalTopology.PaddingPreservesTheOperator | benchmarks/cuda/cudss_solver.cpp:248-270 | all row products and the relative residual are those of the unpadded system |
| UniversalTopology.UnionIsSymmetric | benchmarks/cuda/cudss_solver.cpp:203-245 | the union of symmetric patterns is symmetric |
| UniversalTopology.MakeLowerCsr | benchmarks/cuda/cudss_solver.cpp:89-106 | the lower triangle with the index each entry came from |
| UniversalTopology.GatherLowerValues | benchmarks/cuda/cudss_solver.cpp:108-117 | the values at those indices |
| UniversalTopology.LowerRecoversSymmetric | benchmarks/cuda/cudss_solver.cpp:89-117 | mirrored, the lower triangle gives back every entry of a symmetric matrix |
| PeriodicSides.Discretization.AddPeriodicSides | cfemm/fmesher/writepoly.cpp:1108-1188 | the interleaved subdivision of two paired sides |
| PeriodicSides.Discretization.AddPeriodicBoundary | cfemm/fmesher/writepoly.cpp:1081-1188 | one boundary condition: the second line reversed in place, then both subdivided into the pieces of the first |
| PeriodicSides.SidesMatch | cfemm/fmesher/writepoly.cpp:1108-1188 | both chains have k pieces between their ends, the j-th nodes lie at the same fraction and are paired with the right type |
| PeriodicSides.Discretization.AddLine | cfemm/fmesher/writepoly.cpp:109-245 | the plain subdivision appends one chain and its points at equal fractions, or at the corner distance |
| PeriodicSides.ChainConnects | cfemm/fmesher/writepoly.cpp:109-245 | the chain runs from the first end to the second through the new nodes in order |
| PeriodicSides.OneMoreSegmentThanNodes | cfemm/fmesher/writepoly.cpp:109-245 | one more segment than new nodes, if and only if no side length is set or the line has length |
| PeriodicSides.Discretization.AddLines | cfemm/fmesher/writepoly.cpp:109-245 | the loop over all lines, or those not selected: what each adds, in order |
| PeriodicSides.EveryLineIsDrawn | cfemm/fmesher/writepoly.cpp:109-245 | in the result every line that is not left out has its own chain of pieces through its own new nodes |
| PeriodicSides.SegmentsExceedNodes | cfemm/fmesher/writepoly.cpp:109-245 | in all there is one more segment than new nodes for each line that is drawn |
| PeriodicSides.PiecesAreShortEnough | cfemm/fmesher/writepoly.cpp:131-138 | no piece is longer than the side length wanted, and with one piece less they would be |
| PeriodicSides.PiecesAreEqual | cfemm/fmesher/writepoly.cpp:214-243 | the pieces of a line are equally long |
| PeriodicSides.PiecesInNumbers | cfemm/fmesher/writepoly.cpp:131-150 | without a side length a line is one piece; a single piece becomes three if and only if meshing is smart and the line at least three corner distances long |
| PeriodicSides.CornersAtDistance | cfemm/fmesher/writepoly.cpp:176-211 | the extra points of a smart line stand at the corner distance from its ends |
| PeriodicPairs.Deduplicate | cfemm/fmesher/writepoly.cpp:1451-1464 | sorting the ends of each pair in place and erasing later copies |
| PeriodicPairs.SortedEnds | cfemm/fmesher/writepoly.cpp:1451-1464 | sorted ends are the same two nodes, lower first, so pairs are alike if and only if they join the same nodes |
| PeriodicPairs.FirstOnlyHoldsFirsts | cfemm/fmesher/writepoly.cpp:1451-1464 | a pair is kept exactly when no earlier one joins the same nodes: the first type wins |
| PeriodicPairs.EveryPairSurvives | cfemm/fmesher/writepoly.cpp:1451-1464 | every node pair survives |
| PeriodicPairs.FirstOnlyIsDistinct | cfemm/fmesher/writepoly.cpp:1451-1464 | and only once |
| Renumber.SortNodes | cfemm/esolver/esolver.cpp:855-867 | the swap loop terminates and puts every node where its new number says |
| Renumber.FinishingNeedsPermutation | cfemm/esolver/esolver.cpp:855-867 | only a permutation can be swapped into order |
| PrescribedValues.AddGradient | cfemm/esolver/esolver.cpp:492-508 | the upper half added and mirrored |
| PrescribedValues.GradientIsProduct | cfemm/esolver/esolver.cpp:492-508 | each entry gets the coefficient times both shape coefficients |
| PrescribedValues.GradientIgnoresConstants | cfemm/esolver/esolver.cpp:492-508 | rows of the diffusion part of a triangle add up to zero |
| PrescribedValues.AddSides | cfemm/esolver/esolver.cpp:517-548 | derivative and surface-charge conditions on the three sides |
| PrescribedValues.SidesInNumbers | cfemm/esolver/esolver.cpp:517-548 | all entries and loads of the three sides, one by one: a side couples its two corners, counts twice at each, and loads both |
| PrescribedValues.BuildElement | cfemm/esolver/esolver.cpp:492-548 | the element matrix is symmetric and the sum of its parts |
| PrescribedValues.FixPrescribed | cfemm/esolver/esolver.cpp:550-565 | the in-place elimination clears fixed rows and columns and moves every known value to the load, whatever the mix of fixed nodes |
| PrescribedValues.ReducedElementResidual | cfemm/esolver/esolver.cpp:550-565 | for values that agree with the prescribed ones, free rows keep their residual and fixed rows have none |
| Assembly.SymmetricSystem.Combine | cfemm/esolver/esolver.cpp:574-578 | subtracting only the upper half into symmetric storage subtracts the whole element matrix |
| Assembly.Assemble | cfemm/esolver/esolver.cpp:492-587 | the system is the negated sum of the reduced elements |
| Assembly.SystemResidualIs | cfemm/esolver/esolver.cpp:567-587 | a row of the assembled system is the sum of the element rows at that node |
| Assembly.PrescribingPreservesMeaning | cfemm/esolver/esolver.cpp:550-587 | over the whole mesh: the residual of the unreduced elements on every free row, none on every fixed row |
| Assembly.SolutionsAgree | cfemm/esolver/esolver.cpp:550-587 | a solution satisfies the row of a fixed node if and only if it takes the prescribed value there (nonzero diagonal) |
| Linkage.PrivateCircuits | cfemm/fsolver/FSolverAnalysisBackend.cpp:203-232 | each label of a series circuit gets a circuit of its own that remembers the original; an invalid circuit is an error |
| Linkage.PrivateCircuitsKeepMembership | cfemm/fpproc/InMemorySolution.cpp:12-32 | through the private circuits a label counts for the circuit the model gave it to, and copying it undoes them |
| Linkage.CopyPhysicalLabels | cfemm/fpproc/InMemorySolution.cpp:12-32 | labels without a block type are dropped, the others numbered afresh in order, each with its original circuit |
| Linkage.CopyHasLabel | cfemm/fpproc/InMemorySolution.cpp:12-32 | every copy is the copy of a label |
| Linkage.CopiesKeepOrder | cfemm/fpproc/InMemorySolution.cpp:12-32 | the copies keep the order of their labels, so no two labels share one |
| Linkage.CopyingRestoresLabels | cfemm/fpproc/InMemorySolution.cpp:12-32 | where all circuits are in series, every copied label is as the model gave it |
| Linkage.BuildWeights | cfemm/fpproc/PersistentMotorSession.cpp:108-169 | available exactly for planar direct-current series problems whose circuits all have area; then every node weight is the sum over elements |
| Linkage.DirectLinkage | cfemm/fpproc/PersistentMotorSession.cpp:333-343 | the dot product, or a changed dimension |
| Linkage.LinkageIsLabelSum | cfemm/fpproc/PersistentMotorSession.cpp:126-168 | for every field the weights give the sum over labels of turns, depth and area-weighted mean |
| Linkage.WeightsSumToTurns | cfemm/fpproc/PersistentMotorSession.cpp:126-168 | the weights of a circuit add up to depth times its signed turns |
| Linkage.StrandedLinkage | cfemm/fpproc/fpproc.cpp:5087-5123 | turns times the mean of the post-processor for one label |
| Linkage.StrandedSeriesLinkage | cfemm/fpproc/PersistentMotorSession.cpp:38-58 | the post-processor reference, where defined, equals the precomputed weights |
| Linkage.AreaIs | cfemm/fpproc/PersistentMotorSession.cpp:27-37 | an area is half the shoelace sum, from square centimetres to square metres, never negative |
| Linkage.DepthIs | cfemm/fpproc/PersistentMotorSession.cpp:134-136 | a depth of -1 stands for one metre |
| GapPlacement.PositionAirGaps | cfemm/fsolver/FSolverAnalysisBackend.cpp:241-253 | positions every gap of every boundary in order, up to the first that fails |
| GapPlacement.PositionAllPlaces | cfemm/fsolver/FSolverAnalysisBackend.cpp:241-253 | succeeds exactly when the rings of all gaps asked for match, and then positioning any gap again at its last angles changes nothing |
| GapPlacement.DefinitionServes | cfemm/fsolver/FSolverAnalysisBackend.cpp:360-370 | a stored definition serves every preparation of its identity after any repositioning |
| GapPlacement.AllMatchIsMatching | cfemm/fsolver/FSolverAnalysisBackend.cpp:241-289 | for gaps of different names, patterns can be built exactly when all gaps can be positioned |
| SolverBackend.FSolverAnalysisBackend.Synchronize | cfemm/fsolver/FSolverAnalysisBackend.cpp:319-373 | the whole new state: topology change, positioning, bucket lookup or construction, and every failure with what it leaves |
| SolverBackend.FSolverAnalysisBackend.Solve | cfemm/fsolver/FSolverAnalysisBackend.cpp:382-493 | system reuse, bucket activation, plain fallback, trial field |
| SolverBackend.FSolverAnalysisBackend.Initialize | cfemm/fsolver/FSolverAnalysisBackend.cpp:607-627 | solve and commit, once |
| SolverBackend.FSolverAnalysisBackend.CommitTrial | cfemm/fsolver/FSolverAnalysisBackend.cpp:629-640 | the trial field and the current bucket become the committed ones |
| SolverBackend.FSolverAnalysisBackend.RollbackToCommitted | cfemm/fsolver/FSolverAnalysisBackend.cpp:642-666 | trial, vectors and active bucket, with both errors |
| BackendRuns.SynchronizedKeeps | cfemm/fsolver/FSolverAnalysisBackend.cpp:319-373 | the invariant survives; after success the selected bucket is the one that building it now would give |
| BackendRuns.LookupIsBuilding | cfemm/fsolver/FSolverAnalysisBackend.cpp:360-370 | the cache is transparent in every reachable state |
| BackendRuns.SynchronizedKeepsFields | cfemm/fsolver/FSolverAnalysisBackend.cpp:328-371 | without a topology change fields, system and stored buckets stay |
| BackendRuns.SynchronizedPlaces | cfemm/fsolver/FSolverAnalysisBackend.cpp:354-357 | after a repositioning step the gaps stand where asked |
| BackendRuns.RollbackRestores | cfemm/fsolver/FSolverAnalysisBackend.cpp:642-666 | rollback fails exactly when nothing is committed; otherwise everything shown is the committed field in its bucket |
| BackendRuns.SolveSucceeds | cfemm/fsolver/FSolverAnalysisBackend.cpp:382-493 | a solve gives a trial if and only if it is configured, steady and the attempt that counts converges; then the right-hand side is, element by element, the solution times the scale, and is the field returned |
| BackendRuns.FailedSolveLeaves | cfemm/fsolver/FSolverAnalysisBackend.cpp:382-493 | a run that does not converge leaves its vectors in the system and the trial field as it was |
| BackendRuns.ImportIs | cfemm/fsolver/FSolverAnalysisBackend.cpp:328-353 | a new topology replaces mesh, buckets, fields and system but not the initialization; an import that fails leaves the old topology, fields and buckets |
| BackendRuns.SolveActivates | cfemm/fsolver/FSolverAnalysisBackend.cpp:382-493 | the bucket activated is the selected one; the plain solver that steps in has none |
| BackendRuns.RollbackScales | cfemm/fsolver/FSolverAnalysisBackend.cpp:658-665 | a rollback that finds a system of that size leaves the committed field in it, each element times the scale in the right-hand side; the vectors of any other system stay |
| BackendRuns.TrialsKeepCommitted | cfemm/fsolver/FSolverAnalysisBackend.cpp:319-666 | any run of trials keeps committed field, identity and its definition |
| BackendRuns.TrialsAreUndone | cfemm/fsolver/FSolverAnalysisBackend.cpp:319-666 | any run of trials followed by a rollback restores what was committed before |
| BackendRuns.CommitAfterTrialsAndRollback | cfemm/fsolver/FSolverAnalysisBackend.cpp:319-666 | after any trials and a rollback a commit stores the field committed before, under the bucket of the angles last synchronized; that is the committed bucket if and only if those angles have its identity, and the next rollback switches to it |
| BackendRuns.RollbackKeepsOtherBucket | cfemm/fsolver/FSolverAnalysisBackend.cpp:629-666 | a concrete run over two buckets in which the two differ |
| SessionObject.MagneticSession.SetMesher | cfemm/fsolver/AnalysisSession.cpp:173-183 | no effect for the same mesher, error for none, otherwise the mesh is dropped; no revision |
| SessionObject.MagneticSession.SetMeshingOptions | cfemm/fsolver/AnalysisSession.cpp:185-194 | refuses non-finite or negative controls; no revision |
| SessionObject.MagneticSession.SetCircuit | cfemm/fsolver/AnalysisSession.cpp:242-272 | the four circuit setters; a prescribed current leaves the operator clear |
| SessionObject.MagneticSession.SetAirGapAngle | cfemm/fsolver/AnalysisSession.cpp:274-282 | unknown gaps and non-finite angles refused; angles wrapped |
| SessionObject.MagneticSession.SetFrequency | cfemm/fsolver/AnalysisSession.cpp:284-291 | new state and flags |
| SessionObject.MagneticSession.SetTime | cfemm/fsolver/AnalysisSession.cpp:293-300 | only the solve state becomes dirty |
| SessionObject.MagneticSession.SetInitialState | cfemm/fsolver/AnalysisSession.cpp:302-309 | refuses states of another model revision |
| SessionObject.MagneticSession.SetMaterialProperty | cfemm/fsolver/AnalysisSession.cpp:311-342 | wrong value types and unequal curves refused; model revision |
| SessionObject.MagneticSession.UpdateSolveParameters | cfemm/fsolver/AnalysisSession.cpp:344-377 | all checks, then only what changed becomes dirty |
| SessionSetters.AngleSetIs | cfemm/fsolver/AnalysisSession.cpp:274-282 | refused exactly for an unknown gap or a number that is not finite; otherwise each angle is stored less whole turns, in [0, 360), and nothing else changes |
| SessionSetters.CircuitSetIs | cfemm/fsolver/AnalysisSession.cpp:242-272 | the circuit has the new constraint and every other one keeps its own |
| SessionSetters.PlainSettersAre | cfemm/fsolver/AnalysisSession.cpp:284-309 | frequency, time and initial state: when each is refused, what it writes, what becomes dirty |
| SessionSetters.MeshSettersAre | cfemm/fsolver/AnalysisSession.cpp:173-194 | mesher and meshing options: when each is refused, that the mesh is dropped and no revision moves |
| SessionSetters.MeshIs | cfemm/fsolver/AnalysisSession.cpp:196-220 | a mesh at hand is kept; otherwise what the mesher returns is counted, and a mesh is a new topology |
| SessionSetters.SyncedIs | cfemm/fsolver/AnalysisSession.cpp:410-430 | success leaves only the solve state dirty; a failure keeps what is prepared and clears no flag but that of the mesh |
| SessionSetters.EvaluationFails | cfemm/fsolver/AnalysisSession.cpp:432-450 | an evaluation without a trial uses up no number and leaves only what the failed run left in the system |
| SessionSetters.RollbackIs | cfemm/fsolver/AnalysisSession.cpp:479-483 | fails exactly on the device with nothing committed; otherwise the initial state becomes dirty and nothing but the solver changes |
| SessionSetters.PropertyIsSet | cfemm/fsolver/AnalysisSession.cpp:317-339 | the property reads back as set and every other one as before; refused exactly for another type or an unequal curve |
| SessionSetters.PropertySetIs | cfemm/fsolver/AnalysisSession.cpp:311-342 | the named material, if magnetic, has the property; the others stay; one model revision on |
| SessionSetters.UpdatedIs | cfemm/fsolver/AnalysisSession.cpp:344-377 | accepted if and only if each check holds; each part is dirty afterwards if and only if it was or the update changes it |
| SessionSetters.SettledPreparation | cfemm/fsolver/AnalysisSession.cpp:379-423 | in every synchronized session the prepared materials, circuits and gaps are, entry by entry, those of the model and the parameters, slopes at 2 pi times the frequency |
| SessionSetters.AngleReachesSolver | cfemm/fsolver/AnalysisSession.cpp:274-430 | setting an angle and synchronizing leaves the gap where positioning it at the angle as given, however many turns, changes nothing |
| SessionSetters.CircuitReachesSolver | cfemm/fsolver/AnalysisSession.cpp:242-430 | setting a constraint and synchronizing: every label of that circuit is prepared with it, every other with the one it had |
| SessionSetters.FrequencyReachesSolver | cfemm/fsolver/AnalysisSession.cpp:284-430 | setting a frequency and synchronizing: all curves are prepared at it |
| SessionSetters.PropertyReachesSolver | cfemm/fsolver/AnalysisSession.cpp:311-430 | setting a property and synchronizing: the prepared material reads back the value |
| SessionSetters.TimeReachesAcceptance | cfemm/fsolver/AnalysisSession.cpp:293-477 | setting a time, solving and accepting: the trial carries the time and is accepted |
| SessionSetters.AcceptIs | cfemm/fsolver/AnalysisSession.cpp:458-477 | accepted if and only if numbered, of this session and of its present revisions; the state has the data of the trial and becomes the initial one |
| SessionSetters.FreshIs | cfemm/fsolver/AnalysisSession.cpp:141-163 | a new session has the angles, currents and frequency of the model, and everything dirty |
| SessionObject.MagneticSession.EnsureMesh | cfemm/fsolver/AnalysisSession.cpp:196-220 | mesh reuse, generation count, failures |
| SessionObject.MagneticSession.PrepareCandidate | cfemm/fsolver/AnalysisSession.cpp:417-423 | only dirty parts are rebuilt; fails exactly when one cannot be |
| SessionObject.MagneticSession.RebuildCircuits | cfemm/fsolver/AnalysisSession.cpp:396-408 | one entry per magnetic label in a circuit; fails exactly when a circuit or its constraint is missing |
| SessionObject.MagneticSession.Synchronize | cfemm/fsolver/AnalysisSession.cpp:410-430 | the step of the specification, whatever mesher and solver answer |
| SessionObject.MagneticSession.Solve | cfemm/fsolver/AnalysisSession.cpp:432-450 | synchronize, solve, stamp and number the trial |
| SessionObject.MagneticSession.AcceptSolution | cfemm/fsolver/AnalysisSession.cpp:458-477 | only a current trial of this session; commits, records, moves the revision on |
| SessionObject.MagneticSession.RollbackToCommitted | cfemm/fsolver/AnalysisSession.cpp:479-483 | solver rollback; initial state dirty; no revision |
| SessionKeeps.UpdatedKeeps | cfemm/fsolver/AnalysisSession.cpp:344-377 | an update that finds a part unchanged may leave its flag clear |
| SessionKeeps.SyncedKeeps | cfemm/fsolver/AnalysisSession.cpp:410-430 | the invariant over every outcome of synchronize |
| SessionRuns.StepKeeps | cfemm/fsolver/AnalysisSession.h:306-373 | every public operation keeps the invariant |
| SessionRuns.PreparationIsIncremental | cfemm/fsolver/AnalysisSession.cpp:237-430 | over every run: a clear part equals its full rebuild; after any success all parts do, the solver holds the mesh, the bucket is the one built now, and gaps stand exactly when their rings match |
| SessionModel.AskedIs | cfemm/fsolver/FSolverAnalysisBackend.cpp:241-248 | the solver is asked to place exactly the gaps of the parameters, by ascending number, each at its own inner and outer angle |
| SessionGaps.SettledGapsStand | cfemm/fsolver/FSolverAnalysisBackend.cpp:241-253 | in a synchronized session every gap stands at the inner and outer angle the parameters have for the last boundary of its name, if and only if no gap has rings of different size |
| SessionGaps.SettledBucketIs | cfemm/fsolver/FSolverAnalysisBackend.cpp:255-269 | and the selected bucket lists every gap with the number of the bucket of its inner less its outer angle |
| SessionGaps.PreparedGapsStand | cfemm/fsolver/AnalysisSession.cpp:410-430 | both over every run, after every successful synchronization, initialization or evaluation |
| SessionGaps.SelectedBucketCoversGap | cfemm/fsolver/FSolverAnalysisBackend.cpp:255-371 | in every synchronized state the selected bucket holds every entry the standing gap needs (even rings, outer turned by whole elements, relative angle up to one number before the window end) |
| SessionRuns.AcceptedTrialsAscend | cfemm/fsolver/AnalysisSession.cpp:432-477 | accepted trials have strictly increasing numbers and revisions: at most one per parameter revision |
| SessionRuns.StaleTrialsAreRefused | cfemm/fsolver/AnalysisSession.cpp:458-463 | after any model or parameter change a trial is refused for good |
| SessionFields.CommittedOnlyChangesAt | cfemm/fsolver/FSolverAnalysisBackend.cpp:328-666 | the committed field and bucket change only at initialize, accept and topology change |
| SessionFields.StepRecords | cfemm/fsolver/AnalysisSession.cpp:410-483 | what every operation makes of held field, committed field, selected and committed bucket |
| SessionFields.TrialShowsSystem | cfemm/fsolver/AnalysisSession.cpp:432-450 | the field of an issued trial is the right-hand side of the system, element by element the solution times the scale |
| SessionFields.HistoryHolds | cfemm/fsolver/AnalysisSession.cpp:410-483 | in every state of every run these four are what the history of operations and results tells |
| SessionFields.AcceptCommitsHeld | cfemm/fsolver/AnalysisSession.cpp:458-477 | accepting commits the field and bucket the history tells, whichever trial is accepted: state and committed field agree if and only if the trial has that field |
| SessionFields.RollbackShowsCommitted | cfemm/fsolver/AnalysisSession.cpp:479-483 | rollback fails exactly when nothing was committed for the topology, and revokes no trial |
| SessionFields.LiveTrialIsHeld | cfemm/fsolver/AnalysisSession.cpp:432-483 | over every run the solver holds the field of the last issued trial until a successful rollback, the initializing solve or a new topology |
| SessionFields.AcceptCommitsLiveTrial | cfemm/fsolver/AnalysisSession.cpp:458-477 | accepting commits the live trial whichever trial is accepted: state and committed field agree if and only if the two fields do |
| SessionFields.AcceptAfterRollback | cfemm/fsolver/AnalysisSession.cpp:458-483 | after a rollback a current trial is accepted but the old field stays committed; exact conditions for field and bucket |
| SessionFields.AcceptAfterNewTopology | cfemm/fsolver/AnalysisSession.cpp:458-477 | after a new topology a current trial is accepted but nothing is committed |
| SessionFields.RemeshIsNewTopology | cfemm/fsolver/AnalysisSession.cpp:185-194 | new meshing options lead there without changing a revision |
| SessionEdges.CircuitsNeedConstraints | cfemm/fsolver/AnalysisSession.cpp:396-408 | while a circuit lacks a constraint nothing synchronizes or solves |
| SessionEdges.UpdatesMayDropCircuits | cfemm/fsolver/AnalysisSession.cpp:344-377 | an update may drop one without being refused |
| SessionEdges.UpdateKeepingInitialState | cfemm/fsolver/AnalysisSession.cpp:361-362 | such an update is accepted if and only if the kept initial state is of the current model revision |
| SessionEdges.MaterialChangeBlocksUpdates | cfemm/fsolver/AnalysisSession.cpp:311-362 | after a material change every update keeping the initial state is refused while that state stays |
| SessionEdges.BlockedUpdateHappens | cfemm/fsolver/AnalysisSession.cpp:311-362 | a concrete run that gets such a refusal |
| SessionEdges.DeviceAlwaysPlaces | cfemm/fsolver/FSolverAnalysisBackend.cpp:338-371 | a device session with distinct gap names never ends with a gap out of place |
| SessionEdges.RetrySkipsPositioning | cfemm/fsolver/FSolverAnalysisBackend.cpp:328-357 | without the device a failed positioning is not repeated: the retry succeeds with gaps out of place |
| SessionEdges.BadRemeshHappens | cfemm/fsolver/FSolverAnalysisBackend.cpp:338-355 | a concrete session gets there |
| SessionEdges.RollbackDoesNotRevoke | cfemm/fsolver/AnalysisSession.cpp:458-483 | a concrete run that accepts one field and keeps another committed |
| MotorSession.PersistentMotorSession.RefreshPhysicalView | cfemm/fpproc/PersistentMotorSession.cpp:171-184 | air-gap refreshes leave the volume as it was; the first refresh is full |
| MotorSession.PersistentMotorSession.AddLinkageResults | cfemm/fpproc/PersistentMotorSession.cpp:324-372 | reads the volume only when it is fully refreshed; every error |
| MotorSession.PersistentMotorSession.AddAcceptedStateResults | cfemm/fpproc/PersistentMotorSession.cpp:374-403 | torque and gaps from a refreshed air gap |
| MotorSession.PersistentMotorSession.AddFullDiagnosticResults | cfemm/fpproc/PersistentMotorSession.cpp:405-431 | energies from a fully refreshed view |
| MotorSession.ResidualHasLinkagesOnly | cfemm/fpproc/PersistentMotorSession.cpp:186-219 | a residual evaluation gives one linkage per circuit and no gaps, torque or energies |
| MotorSession.CircuitIs | cfemm/fpproc/PersistentMotorSession.cpp:324-372 | the linkage of a circuit in each case: with or without weights, with or without a stranded reference, checked or not |
| MotorSession.AgreeIff | cfemm/fpproc/PersistentMotorSession.cpp:360-367 | the linkages agree if and only if they differ by no more than 1e-13 and 1e-10 of the larger one |
| MotorSession.TorqueIsSum | cfemm/fpproc/PersistentMotorSession.cpp:374-403 | the torque is the sum over all gaps, each listed under its own name with its own torque |
| MotorSession.EnergiesAreSums | cfemm/fpproc/PersistentMotorSession.cpp:405-431 | energy and coenergy are those of the volume with the energies of all gaps added |
| MotorSession.PersistentMotorSession.EvaluateTrial | cfemm/fpproc/PersistentMotorSession.cpp:186-219 | whatever the view was before, the results are those of the field the solver shows |
| MotorSession.PersistentMotorSession.CompleteTrial | cfemm/fpproc/PersistentMotorSession.cpp:221-245 | only the latest trial; results from what the solver shows now |
| MotorSession.PromotionIsEvaluation | cfemm/fpproc/PersistentMotorSession.cpp:186-245 | evaluating at one level and completing to another is evaluating at the greater, failures included |
| MotorSession.PromotionIsPathIndependent | cfemm/fpproc/PersistentMotorSession.cpp:186-245 | the same for any chain of completions |
| MotorSession.CompletionNeedsSameSnapshot | cfemm/fpproc/PersistentMotorSession.cpp:221-245 | for all post-processor integrals at once: if and only if the solver shows the same, or neither snapshot has a gap, or nothing could be evaluated |
| MotorSession.FullCompletionForgets | cfemm/fpproc/PersistentMotorSession.cpp:221-245 | completed to full diagnostics, a trial fails exactly when evaluating it then and there fails; otherwise it is that evaluation if and only if there are weights or no circuit has lost its stranded linkage |
| MotorSession.StrandedLinkageStays | cfemm/fpproc/PersistentMotorSession.cpp:221-245 | a concrete session without weights whose completed trial keeps the stranded linkage of the field before |
| MotorSession.CompletedAfterRollback | cfemm/fpproc/PersistentMotorSession.cpp:186-245 | a concrete session: after a rollback the completion is accepted, with another torque |
| EvaluatorRuns.SessionEvaluator.EvaluateTrial | cfemm/fpproc/PersistentMotorSession.cpp:186-219 | solve through the session, then evaluate what the solver shows with the weights of the topology they were extracted from |
| EvaluatorRuns.SessionEvaluator.Initialize | cfemm/fpproc/PersistentMotorSession.cpp:77-95 | once: initialize the session, open the view and extract the weights if anything has been solved |
| EvaluatorRuns.HistoryTells | cfemm/fpproc/PersistentMotorSession.cpp:77-112 | in every state of every run of a new evaluator: something is solved, the evaluator is initialized, the weights are there, each if and only if an earlier call did that |
| EvaluatorRuns.WeightsArePresent | cfemm/fpproc/PersistentMotorSession.cpp:108-112 | over every run with any calls to the session in between: the weights are those of the mesh at hand if and only if no new topology has reached the solver since they were extracted |
| EvaluatorRuns.LinkagesOfPresentMesh | cfemm/fpproc/PersistentMotorSession.cpp:324-345 | so an evaluation gives the linkages of the mesh at hand, whatever meshes there were, if and only if that is so or there is no circuit; among meshes with equally many nodes also when the field is zero |
| EvaluatorRuns.StaleWeightsAreUsed | cfemm/fpproc/PersistentMotorSession.h:52 | a concrete run: evaluate, ask the session for another mesh, evaluate; the linkage is that of the old winding, or nothing when the meshes differ in their number of nodes |

## Left out

- AirGapPosition.AirGapElement.PositionGap: a gap with two rings has an arc of positive length with elements, and no more elements than ring points when the rings are of equal size, all of which mesh import lets through. The code divides by these numbers and indexes the rings by them unchecked: without elements or arc it sorts by numbers that are not finite, with more elements it reads past the rings.
- SolverBackend.FSolverAnalysisBackend.Import: every imported mesh, and so every session, is assumed to have such gaps, with an arc and elements also where a ring is missing. `LoadMesh` (cfemm/fsolver/fsolver.cpp:444-500) checks node numbers and the number of brackets only; the gaps of the converter meet it (`EvenGaps.BuiltGapIsImported`).
- SparseSystem.RelativeResidual: gives the square of the ratio, because square roots of reals are not modelled.
- Bucket.CollectSamples: `nextafter` is a given spacing of numbers; the other tolerances are kept as exact reals.
- UniversalTopology.PadToTopology: demands ascending columns in every row, which the code does not check when reading a system; hashes are equality of patterns.
- PeriodicSides.Discretization.AddLine: the length of a line is given with it, where the code takes the distance of its ends (the lemmas on lengths assume that distance); the `%.1e` rounding of side lengths is exact, and a smart line of no length gets its own end where the code divides by zero.
- Assembly.Assemble: no conductors with an unknown voltage, point charges or periodic rows, which depend on how the linear system stores them; element coefficients from materials and geometry are given numbers.
- Linkage.StrandedSeriesLinkage: signed and absolute element areas are taken as equal (positively oriented elements), and a label without area makes the result undefined.
- Linkage.CopyPhysicalLabels: the circuit state copied into the labels afterwards is not modelled, and the weights are stated on the solver's own labels.
- SolverBackend.FSolverAnalysisBackend.Solve: the nonlinear solver is an outcome (converged, not converged, exception) with the vectors it leaves; after convergence the right-hand side is the scaled solution. Warm starts change only that outcome. Allocation failures are not modelled.
- SolverBackend.FSolverAnalysisBackend.Synchronize: the nodes are those after Cuthill-McKee ordering, which like mesh import is an outcome; evictions inside the device backend are not modelled.
- SessionObject.MagneticSession.Solve: circuit currents and voltages of a trial and all timings are not recorded.
- SessionObject.MagneticSession.UpdateSolveParameters: the callback is the parameters it leaves behind; complex values are exact, so one that is not a number cannot differ from itself.
- SessionObject.MagneticSession.SetMaterialProperty: slopes of a curve are the angular frequency they were computed at.
- MotorSession.PersistentMotorSession.EvaluateTrial: the post-processor's integrals are arbitrary functions of what they read, and what the solver shows is a snapshot; the three-phase overload only sets parameters first. A failed evaluation returns nothing instead of an exception.
- EvaluatorRuns.SessionEvaluator.EvaluateTrial: what extracting from a mesh gives is an arbitrary function of its topology (`Linkage.BuildWeights` says what it is for one mesh), and whether the post-processor takes a changed mesh is an outcome.
- MotorSession.PersistentMotorSession.CompleteTrial: the trial is a value; a failed completion leaves the caller's as it was, where the code may have written some results.
- Accepted states are told apart by session and trial number instead of by address.
- Models with circuits, boundaries or points that are not magnetic, which the constructors refuse.
- Extraction of the differential inductance, the harmonic series and the centre potential of a gap.
- Subdivision of arcs, force and stress integrals, and the scaling of lengths and radii.
- CUDA and cuDSS calls, Triangle and Tangle themselves, file formats, scripting and command-line interfaces.
- Floating-point rounding.
