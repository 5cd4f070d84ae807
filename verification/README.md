# AprilTag detector and telemetry: a verified model

This Dafny project models the algorithmic core of a flight-companion firmware: the vendored AprilTag vision library,
the JPEG entropy decoder it ships with, the telemetry command parser and the target lock. It states what these parts
promise and proves it, for every image, word, stream, schedule or frame history they accept.

- **Component labelling.** `UnionFind.dfy` is the array-based disjoint-set forest with lazy initialisation, union by
  size and path compression, on top of `Equivalence.dfy` (closures of pairs). `Accesses.dfy` is the same structure as a
  machine that makes one read or write per step, and what follows for threads with disjoint entries;
  `ConcurrentFind.dfy` is about finds that share all of them. `PixelScan.dfy` is the pixel scan that skips unions,
  `Components.dfy` says what the skipping preserves and exactly when it does not, and `ConnectedComponents.dfy` runs the
  scan sequentially or in row bands with stitched seams.
- **Tag decoding.** `Words.dfy` has 64-bit words and the quarter turn, `QuickDecode.dfy` the open-addressing table of
  all words near a code, `TagDecoding.dfy` the decoding theorem.
- **Worker pool.** `WorkerPool.dfy` is a step system over one mutex and two condition variables, a step being one access
  to what the threads share; its theorems range over all interleavings.
- **Boundary clustering.** `Clusters.dfy` has what the loops over a band emit, `BoundaryPoints.dfy` which boundary
  points that has to be, `GradientClusters.dfy` collects them in hash chains per band, `GroupBy.dfy` merges the bands'
  lists in a tournament, and `ConcurrentClusters.dfy` runs the bands as threads on one forest.
- **Linear algebra.** `Plu.dfy` and `PluSolve.dfy` are the pivoted in-place factorisation and its use,
  `Elimination.dfy` is the Gaussian elimination behind the tag homographies of `Homography.dfy`, `Sums.dfy` the finite
  sums they rest on, `Permutations.dfy` the sign of a permutation.
- **JPEG entropy decoding.** `BitReader.dfy`, `Huffman.dfy`, `SegmentEncoding.dfy`, `SymbolDecoding.dfy` and
  `Coefficients.dfy` follow sections B.2.4.2, C and F.2.2 of ITU-T T.81, from unstuffed bits to the coefficients of a
  block. `Shifts.dfy` and `Powers.dfy` hold shift arithmetic.
- **Thresholding, sorting, reconciliation.** `Threshold.dfy`, `PtSort.dfy`, `Reconcile.dfy`.
- **Shared.** `Wrappers.dfy`, `Numbers.dfy`, `Tasks.dfy` and `FiniteSets.dfy`: optional values, products as sums, the size
  of a task, cardinalities.
- **Telemetry and lock.** `Telemetry.dfy` is the packet parser against the server's encoder, `HysteresisLock.dfy` the
  lock with its 32-bit counters.

Loops and in-place updates of the source are methods over arrays and class fields, proved against functions and
relations whose own properties are lemmas. Ghost fields (`rep`, `pairs`, `log`, `pos`, `history`) record the abstract
value a structure stands for.

Some promises do not hold for every input. The code is kept as it is, and for each of them a theorem says exactly when
it holds.

- The up-right shortcut of the scan can drop a pixel of column w-1: `Components.ShortcutsExactIff`, with the failing
  pattern in `Components.LostLeafSeparates`.
- The banded scan misses row h-1 when the chunk size divides h-1, unlike the sequential one:
  `ConnectedComponents.BandedEqualsSequentialIff`. The comment in the source says that cells attach to the right and
  down; the code attaches left and up.
- `rotate90` is a rotation iff the number of bits leaves 0 or 1 modulo 4: `Words.RotateIsIsometryIff`.
- `workerpool_run` may return before a task has finished once a worker's wait ends without a signal:
  `WorkerPool.RunsWaitIff`, for every pool of two or more workers.
- Its first run may do so without any such wake-up, and a task may be executed twice while the queue is emptied, as soon
  as one worker has not been counted when the first task is added: the queue is tested and end_count raised under the
  mutex, but tasks are added and end_count is reset without it. `WorkerPool.FirstRunWaitsIff`,
  `WorkerPool.NoTaskTwiceIff`.
- `bd_consume_bits` admits requests of up to 31 bits, of which the 32-bit buffer can lose some:
  `BitReader.NothingLostIff`. All callers stay below.
- The size of the codeword table is computed in 32 bits and overflows for large families: `QuickDecoding.TableSizeIff`.
- The lock counts modulo 2^32: `Hysteresis.LockIsRightIff`.

`dafny verify dfyconfig.toml` checks the whole project.

## Model

| member | source | states |
|---|---|---|
| UnionFinding.RepIffLinked | libraries/apriltag-esp32-master/src/common/unionfind.h:55-153 | in every reachable forest two ids share a representative iff the reflexive, symmetric, transitive closure of the connected pairs relates them |
| UnionFinding.DepthIsLogarithmic | libraries/apriltag-esp32-master/src/common/unionfind.h:100-103 | two to the depth of an id is at most the size of its class, so chasing the root takes at most log2(class size) steps |
| UnionFinding.JoinGenerates | libraries/apriltag-esp32-master/src/common/unionfind.h:121-153 | merging the classes of two ids gives exactly the closure of the connected pairs with this pair added |
| UnionFinding.LinkKeepsForest | libraries/apriltag-esp32-master/src/common/unionfind.h:136-152 | hanging the smaller tree under the root of the other keeps the structure a forest with exact sizes and logarithmic heights |
| UnionFinding.CompressKeepsForest | libraries/apriltag-esp32-master/src/common/unionfind.h:106-110 | redirecting one node of a find path to its root changes neither classes nor sizes |
| UnionFinding.TouchKeepsForest | libraries/apriltag-esp32-master/src/common/unionfind.h:95-98 | initialising a node lazily to itself changes no class |
| UnionFinding.UnionFind.constructor | libraries/apriltag-esp32-master/src/common/unionfind.h:55-64 | a fresh structure relates nothing: every id is its own class of size one |
| UnionFinding.UnionFind.Representative | libraries/apriltag-esp32-master/src/common/unionfind.h:91-113 | a find returns the representative of the class and makes it the parent of the id; partition, sizes and connected pairs stay, and every parent it changes is one of the class and now points at the root; its reads and writes are those of the access machine, at most five for each level below the root and three more, and two to the number of levels is at most the class size |
| UnionFinding.UnionFind.SetSize | libraries/apriltag-esp32-master/src/common/unionfind.h:115-119 | the exact number of ids in the class |
| UnionFinding.UnionFind.Connect | libraries/apriltag-esp32-master/src/common/unionfind.h:121-153 | adds exactly one pair to the relation; the larger class keeps its root, on a tie the second one's root stays; both arrays become what the machine of single accesses makes of them |
| Accesses.StepConfined | libraries/apriltag-esp32-master/src/common/unionfind.h:91-153 | a thread whose ids and links lie in a set of entries accesses entries of the set only and changes no other one |
| Accesses.StepLocal | libraries/apriltag-esp32-master/src/common/unionfind.h:91-153 | what such a thread does next depends on the entries of its set alone |
| Accesses.AnyInterleaving | libraries/apriltag-esp32-master/src/common/unionfind.h:91-153 | for any number of threads with disjoint sets of ids and every order of their single reads and writes: when all are done, both arrays are exactly those the threads leave one after another |
| Accesses.AnyScheduleEnds | libraries/apriltag-esp32-master/src/common/unionfind.h:91-153 | every schedule that gives each of these threads enough turns finishes them all, and all finishing schedules end in the same arrays |
| Accesses.NoSharedEntry | libraries/apriltag-esp32-master/src/common/unionfind.h:91-153 | at no moment of any schedule are two of these threads about to access the same entry |
| ConcurrentFind.FindsInterleave | libraries/apriltag-esp32-master/src/common/unionfind.h:91-113 | for any number of threads that look up any ids in one shared forest and every order of their single reads and writes: at every moment the parents are a forest of the same partition, the sizes are untouched, and every answer given is the representative of its id |
| ConcurrentFind.FindsEnd | libraries/apriltag-esp32-master/src/common/unionfind.h:91-113 | a thread that gets five turns for each id and five more for each level the id is below its root has all its answers, however the others move |
| Equivalence.LinkedIffLabelled | libraries/apriltag-esp32-master/src/common/unionfind.h:121-153 | two ids are connected by a chain of pairs iff every labelling that agrees on all pairs agrees on them |
| PixelScan.FirstLine | libraries/apriltag-esp32-master/src/apriltag_quad_thresh.c:992-1005 | the unions made for row 0 are the left unions of equal non-127 pixels in columns 1..w-2, carried out on the arrays in this order |
| PixelScan.ScanLine | libraries/apriltag-esp32-master/src/apriltag_quad_thresh.c:1007-1045 | the sliding window of five pixels makes exactly the unions the skipping rules ask for at each pixel of a row, and the arrays become what these unions, one after the other, make of them |
| PixelScan.ScanPixel | libraries/apriltag-esp32-master/src/apriltag_quad_thresh.c:1018-1045 | the unions of one pixel, with the redundancy tests for up, up-left and up-right |
| PixelScan.BandOpsWithin | libraries/apriltag-esp32-master/src/apriltag_quad_thresh.c:1007-1045 | the unions of consecutive rows name only pixels of these rows and the row above the first |
| Components.ShortcutsPreserveComponents | libraries/apriltag-esp32-master/src/apriltag_quad_thresh.c:1028-1044 | for every image with w >= 3, on columns 0..w-2 of any number of rows the skipped unions change nothing: two pixels are connected with the shortcuts iff they are connected when every left, up and diagonal union is made |
| Components.ShortcutsExactIff | libraries/apriltag-esp32-master/src/apriltag_quad_thresh.c:1028-1044 | on all columns the shortcuts are harmless iff no row has the pattern that drops a pixel of column w-1: three equal white pixels where the up-right test finds its neighbour equal |
| Components.LostLeafSeparates | libraries/apriltag-esp32-master/src/apriltag_quad_thresh.c:1040-1042 | where that pattern occurs the pixel of column w-1 is connected by the full scan and isolated by the shortcut scan |
| Components.ScanIsConnectivity | libraries/apriltag-esp32-master/src/apriltag_quad_thresh.c:1007-1045 | the scan computes textbook connectivity: 4-neighbours for black and 8-neighbours for white pixels of equal value, in columns 0..w-2 |
| ConnectedComponents.TaskBandsDisjoint | libraries/apriltag-esp32-master/src/apriltag_quad_thresh.c:1516-1532 | the pixels of different bands are different union-find entries |
| ConnectedComponents.BandPhase | libraries/apriltag-esp32-master/src/apriltag_quad_thresh.c:1520-1540 | scanning the bands makes exactly the unions of their rows; the resulting arrays are those that every interleaving of the single accesses of all bands ends in, and no link leaves its band |
| ConnectedComponents.TasksShareNothing | libraries/apriltag-esp32-master/src/apriltag_quad_thresh.c:1520-1540 | in no interleaving are two bands ever about to access the same entry |
| ConnectedComponents.Stitch | libraries/apriltag-esp32-master/src/apriltag_quad_thresh.c:1543-1546 | stitching adds exactly the unions of the seam rows |
| ConnectedComponents.SeamRows | libraries/apriltag-esp32-master/src/apriltag_quad_thresh.c:1520-1546 | bands and seams together scan every row 1..h-2 once, and row h-1 unless the chunk size divides h-1 |
| ConnectedComponents.BandedEqualsSequentialIff | libraries/apriltag-esp32-master/src/apriltag_quad_thresh.c:1509-1546 | the banded scan yields the sequential partition iff row h-1 is scanned or makes no union |
| ConnectedComponents.MissedUnionSeparates | libraries/apriltag-esp32-master/src/apriltag_quad_thresh.c:1516-1546 | every union the missed last row would have made joins two pixels that stay separate without it |
| ConnectedComponents.ConnectedComponents | libraries/apriltag-esp32-master/src/apriltag_quad_thresh.c:1506-1551 | for any number of threads two pixels of the scanned rows get the same representative iff they are connected in the image |
| Words.RotateBits | libraries/apriltag-esp32-master/src/apriltag.c:137-148 | rotate90 on a grid of l + 4q bits, as a permutation of the bits by which bit each place receives |
| Words.QuarterTurn | libraries/apriltag-esp32-master/src/apriltag.c:137-148 | written out: bit i goes up by q places and wraps around among the 4q upper bits, and the lowest bit of an odd number stays |
| Words.RotateTurns | libraries/apriltag-esp32-master/src/apriltag.c:137-148 | after k turns every bit stands k quarters of the bits further up |
| Words.RotateIsometry | libraries/apriltag-esp32-master/src/apriltag.c:137-148 | a quarter turn keeps the Hamming distance of any two words |
| Words.RotateOrderFour | libraries/apriltag-esp32-master/src/apriltag.c:137-148 | four quarter turns are no turn |
| Words.RotateXor | libraries/apriltag-esp32-master/src/apriltag.c:137-148 | turning commutes with exclusive or |
| Words.RotateIsIsometryIff | libraries/apriltag-esp32-master/src/apriltag.c:137-148 | rotate90 keeps distances iff the number of bits leaves remainder 0 or 1 modulo 4 |
| QuickDecoding.FreeBucket | libraries/apriltag-esp32-master/src/apriltag.c:175-177 | a table that is not full has a free bucket on every probe sequence |
| QuickDecoding.QuickDecode.Add | libraries/apriltag-esp32-master/src/apriltag.c:171-182 | an insert appends to the list the table stands for; its probe ends because the table is never full |
| QuickDecoding.QuickDecode.Lookup | libraries/apriltag-esp32-master/src/apriltag.c:302-311 | a lookup hits iff the word was inserted and returns the entry inserted first under it |
| QuickDecoding.MissIsAbsent | libraries/apriltag-esp32-master/src/apriltag.c:302-304 | an empty bucket on the probe sequence proves that the word was never inserted |
| QuickDecoding.HitIsFirst | libraries/apriltag-esp32-master/src/apriltag.c:302-311 | the first equal word on the probe sequence is the first one inserted |
| QuickDecoding.NearIsFlips | libraries/apriltag-esp32-master/src/apriltag.c:237-256 | a word at distance 0 to 3 from a code is the code with that many different bits flipped, in decreasing order: the loops miss none |
| QuickDecoding.AddCode | libraries/apriltag-esp32-master/src/apriltag.c:231-256 | after one code the table knows every word within distance maxhamming of it, each with its true distance, within the room planned for it |
| QuickDecoding.Init | libraries/apriltag-esp32-master/src/apriltag.c:195-264 | the table holds exactly the words within distance maxhamming <= 3 of the codes, at most a third full, with three buckets for every planned entry; beyond 3 there is no table |
| QuickDecoding.TableSizeIff | libraries/apriltag-esp32-master/src/apriltag.c:201-214 | the size computed with 32-bit products and an int capacity is the one planned iff three times the number of entries is below 2^31 |
| QuickDecoding.TableTooLarge | libraries/apriltag-esp32-master/src/apriltag.c:201-214 | for 48714 codes of 52 bits with three corrected bits the size comes out negative; with two it is the one planned |
| QuickDecoding.FirstIsNearest | libraries/apriltag-esp32-master/src/apriltag.c:300-311 | the first entry under a word belongs to the smallest id near it, also where the neighbourhoods of codes overlap |
| QuickDecoding.Decode | libraries/apriltag-esp32-master/src/apriltag.c:294-320 | hashing agrees with a naive scan of all codes under all four rotations on every word, for every family |
| TagDecoding.BoundedDistanceDecoding | libraries/apriltag-esp32-master/src/apriltag.c:294-320 | for codes 2m+1 apart under all rotations and nbits mod 4 in {0, 1}: code i turned k times with at most m wrong bits decodes to id i, the number of wrong bits and rotation (4-k) mod 4 |
| TagDecoding.DecodeReceived | libraries/apriltag-esp32-master/src/apriltag.c:195-320 | table construction and decoding together, on a word whose bits are those of a code moved up by k quarters, with up to m wrong ones: for m up to three the answer is the code's id, the number of wrong bits, (4 - k) modulo 4 as rotation and the word moved up by that many quarters; for larger m nothing decodes |
| TagDecoding.FailsIffFar | libraries/apriltag-esp32-master/src/apriltag.c:313-320 | decoding answers 255 iff no rotation of the word is within m of any code |
| WorkerPool.StepKeepsInv | libraries/apriltag-esp32-master/src/common/workerpool.c:65-92 | every step of every interleaving, each one access, keeps the invariant when all workers had been counted at the start: one mutex owner, each task fetched at most once and finished at most once, end_count equal to the number of counted workers while a run waits |
| WorkerPool.StepKeepsCore | libraries/apriltag-esp32-master/src/common/workerpool.c:65-92 | who holds the mutex, what it has read of taskspos, who has fetched which task and which tasks have finished stays consistent under every step that does not empty the queue, from any start, with exit requests queued one by one and with waits that end without a signal |
| WorkerPool.RunIsSafe | libraries/apriltag-esp32-master/src/common/workerpool.c:175-197 | from a pool whose workers have all been counted, over every schedule in which no worker wakes up spuriously (the main thread may) no task finishes twice; when workerpool_run is about to return every queued task has finished exactly once and all workers are parked again |
| WorkerPool.DestroyIsSafe | libraries/apriltag-esp32-master/src/common/workerpool.c:122-147 | when all workers are joined each has consumed exactly one exit request and every job queued before has finished exactly once |
| WorkerPool.DestroyUnused | libraries/apriltag-esp32-master/src/common/workerpool.c:94-147 | the same for a pool whose workers are anywhere on their way to their first wait, fetch exit requests while others are still being queued, and whose waits may end without a signal, before any run has ended |
| WorkerPool.NeverStuck | libraries/apriltag-esp32-master/src/common/workerpool.c:122-197 | inside workerpool_run or workerpool_destroy some thread can always move |
| WorkerPool.StepsUseWork | libraries/apriltag-esp32-master/src/common/workerpool.c:65-197 | every step of a call lowers a measure, whatever the schedule |
| WorkerPool.CallIsBounded | libraries/apriltag-esp32-master/src/common/workerpool.c:175-197 | a call ends after at most that many steps |
| WorkerPool.RunsWaitIff | libraries/apriltag-esp32-master/src/common/workerpool.c:72-78 | for n >= 2 workers, all runs with at most k waits of workers that end without a signal have finished every task when workerpool_run is about to return iff k is 0 |
| WorkerPool.FirstRunWaitsIff | libraries/apriltag-esp32-master/src/common/workerpool.c:72-78 | for n >= 2 and whatever the schedule of single accesses, the first run of a new pool has finished every task when it is about to return iff every worker has been counted when the first task is added: one worker that has found the queue empty before is enough to be counted twice |
| WorkerPool.NoTaskTwiceIff | libraries/apriltag-esp32-master/src/common/workerpool.c:178-192 | for n >= 2, no task of a new pool is ever executed twice, whatever the schedule, iff every worker has been counted by then |
| Plu.Factorise | libraries/apriltag-esp32-master/src/common/matd.c:1511-1589 | for every square matrix, singular or not: piv is a permutation, pivsign is its sign by the parity of inversions, A[piv[i],j] is the sum of L[i,k] U[k,j] with every multiplier at most 1 in absolute value, and singular is set iff some pivot is below the threshold |
| Permutations.SwapFlips | libraries/apriltag-esp32-master/src/common/matd.c:1547-1558 | exchanging any two elements turns the parity of the inversions |
| Plu.ReduceStep | libraries/apriltag-esp32-master/src/common/matd.c:1529-1534 | subtracting the dot product turns an entry into the one the factors account for |
| Plu.SwapStep | libraries/apriltag-esp32-master/src/common/matd.c:1548-1557 | exchanging two rows and their pivot numbers keeps what the factors account for |
| Plu.ScaleStep | libraries/apriltag-esp32-master/src/common/matd.c:1577-1581 | dividing the column below the pivot keeps what the factors account for |
| Plu.ZeroPivotStep | libraries/apriltag-esp32-master/src/common/matd.c:1577 | a zero pivot has only zeros below it, so skipping the division keeps the factorisation |
| PluSolve.PermutationMatrix | libraries/apriltag-esp32-master/src/common/matd.c:1612-1622 | the matrix P of a permutation |
| PluSolve.LowerMatrix | libraries/apriltag-esp32-master/src/common/matd.c:1624-1638 | the unit lower triangle of the packed factors |
| PluSolve.UpperMatrix | libraries/apriltag-esp32-master/src/common/matd.c:1640-1653 | the upper triangle of the packed factors |
| PluSolve.FactorisationHolds | libraries/apriltag-esp32-master/src/common/matd.c:1612-1653 | A = P (L U) entry by entry for the three matrices read out |
| PluSolve.ForwardSubstitute | libraries/apriltag-esp32-master/src/common/matd.c:1668-1674 | in-place forward substitution solves L y = b for every column of the right-hand side |
| PluSolve.BackSubstitute | libraries/apriltag-esp32-master/src/common/matd.c:1677-1687 | in-place back substitution solves U x = y when no pivot is zero |
| PluSolve.Solve | libraries/apriltag-esp32-master/src/common/matd.c:1659-1690 | when the matrix is not flagged singular the result x satisfies A x = b |
| PluSolve.Inverse | libraries/apriltag-esp32-master/src/common/matd.c:519-532 | the default branch of matd_inverse returns nothing iff a pivot of the factorisation is below the threshold, and a right inverse otherwise |
| PluSolve.OnlyZeroToZero | libraries/apriltag-esp32-master/src/common/matd.c:1511-1589 | a matrix that is not flagged singular sends no vector but zero to zero |
| Elimination.SwapKeepsSolutions | libraries/apriltag-esp32-master/src/apriltag.c:450-457 | exchanging two rows keeps the exact solution set |
| Elimination.SubtractKeepsSolutions | libraries/apriltag-esp32-master/src/apriltag.c:460-467 | subtracting a multiple of one row from another keeps the exact solution set |
| Elimination.Eliminate | libraries/apriltag-esp32-master/src/apriltag.c:434-468 | elimination with row exchange ends as the rounds on the values do: in a triangular system with non-zero pivots and the same solutions, or stopped at the same column for the same reason; stopped at a column of zeros the system has no solution or several |
| Elimination.NoPivot | libraries/apriltag-esp32-master/src/apriltag.c:449 | where the column has no entry for a pivot, every solution has another one beside it |
| Elimination.StopsAtSmallColumn | libraries/apriltag-esp32-master/src/apriltag.c:437-454 | where the rounds stop early, every entry the column offers for a pivot is below epsilon |
| Elimination.TriangularUnique | libraries/apriltag-esp32-master/src/apriltag.c:470-477 | a triangular system with non-zero pivots has one solution at most |
| Elimination.SolveSystem | libraries/apriltag-esp32-master/src/apriltag.c:434-477 | the outcome is that of the rounds on the values; a result is the one and only solution of the system, and when the assertion on the pivot fails there is no such solution |
| Homography.SystemSaysMaps | libraries/apriltag-esp32-master/src/apriltag.c:422-431 | the 8x8 system holds for h iff h sends each of the four points to a multiple of its image |
| Homography.Compute | libraries/apriltag-esp32-master/src/apriltag.c:421-483 | the homography returned maps the four points, and no other with last entry 1 does; when the assertion on the pivot fails, none is the only one; it gives up exactly where the elimination of the system does |
| Homography.MapsProjects | libraries/apriltag-esp32-master/src/apriltag.c:486-515 | where the projective denominator is not zero, the corner is projected exactly to its image point |
| Homography.FlaggedOrProjects | libraries/apriltag-esp32-master/src/apriltag.c:486-516 | a homography that maps a point and is not flagged singular has a non-zero denominator there |
| Homography.UpdateHomographies | libraries/apriltag-esp32-master/src/apriltag.c:486-516 | on success the denominators are not zero and H takes (-1, -1) to quad->p[0], (1, -1) to p[1], (1, 1) to p[2] and (-1, 1) to p[3] exactly, and Hinv is a right inverse of H; it fails exactly when the elimination fails or the only homography that maps the corners is flagged singular |
| Clusters.ClusterIdInjective | libraries/apriltag-esp32-master/src/apriltag_quad_thresh.c:1607-1611 | the cluster id identifies the unordered pair of components |
| Clusters.ClusterIdHalves | libraries/apriltag-esp32-master/src/apriltag_quad_thresh.c:1607-1611 | the larger representative is the high half of the id |
| BoundaryPoints.EmittedIff | libraries/apriltag-esp32-master/src/apriltag_quad_thresh.c:1570-1656 | a band emits a point iff a pixel of it has an opposite neighbour of non-127 grey to the right, below or diagonally below, both components have 25 pixels or more, and the point is half-way between the two, with their id and the gradient from dark to bright; the falling diagonal wins where two cross |
| BoundaryPoints.StraightPoint | libraries/apriltag-esp32-master/src/apriltag_quad_thresh.c:1642-1644 | half-way to the right neighbour and to the one below stands exactly one point, with its id and gradient, if the two pixels are opposite and large, and none otherwise |
| BoundaryPoints.CornerPoint | libraries/apriltag-esp32-master/src/apriltag_quad_thresh.c:1646-1656 | at a corner of four pixels stands exactly one point iff one of the two crossing pairs qualifies, taken from the falling diagonal if that one does |
| Clusters.EmissionsDistinct | libraries/apriltag-esp32-master/src/apriltag_quad_thresh.c:1562-1657 | over any rows no two boundary points share their doubled coordinates, so the connected_last flag makes emission duplicate-free |
| Clusters.BandsJoin | libraries/apriltag-esp32-master/src/apriltag_quad_thresh.c:1754-1770 | the emissions of consecutive bands are those of one pass over all their rows |
| GradientClusters.AddPoint | libraries/apriltag-esp32-master/src/apriltag_quad_thresh.c:1614-1636 | adding a point to the hash chains extends the cluster of its id or starts it, and no other |
| GradientClusters.ClusterPixel | libraries/apriltag-esp32-master/src/apriltag_quad_thresh.c:1564-1657 | one pixel adds exactly the points the definition of emission gives, and computes the next flag |
| GradientClusters.BubbleSort | libraries/apriltag-esp32-master/src/apriltag_quad_thresh.c:1672-1686 | the bubble sort orders a bucket strictly by id and keeps its clusters |
| GradientClusters.BandClusters | libraries/apriltag-esp32-master/src/apriltag_quad_thresh.c:1553-1695 | a band's list is strictly sorted by hash and id and is the group-by of everything the band emits |
| GroupBy.GroupsUnique | libraries/apriltag-esp32-master/src/apriltag_quad_thresh.c:1704-1742 | the sorted group-by of a list of points is unique |
| GroupBy.MergeClusters | libraries/apriltag-esp32-master/src/apriltag_quad_thresh.c:1704-1742 | merging the group-bys of two lists of points is the group-by of their concatenation |
| GroupBy.TournamentRound | libraries/apriltag-esp32-master/src/apriltag_quad_thresh.c:1777-1789 | one round of pairwise merges covers every list once, in order |
| GroupBy.Tournament | libraries/apriltag-esp32-master/src/apriltag_quad_thresh.c:1777-1790 | the rounds end with one list: the group-by of all points in band order |
| GradientClusters.PartsJoin | libraries/apriltag-esp32-master/src/apriltag_quad_thresh.c:1754-1768 | the bands cut the rows into consecutive parts without gap or overlap |
| GradientClusters.ClusterImage | libraries/apriltag-esp32-master/src/apriltag_quad_thresh.c:1744-1804 | for any number of threads the result is the group-by of all boundary points of rows 1..h-2, each point once, each cluster in emission order; the clusters hold exactly the points half-way between opposite pixels of large components, with the gradient from dark to bright |
| ConcurrentClusters.TasksInterleave | libraries/apriltag-esp32-master/src/apriltag_quad_thresh.c:1553-1640 | for any number of band tasks and every order of their single accesses to the shared forest: at every moment the forest stands for the same partition, no size has changed, and each task has added exactly the points of the pixels behind it |
| ConcurrentClusters.AnyScheduleClusters | libraries/apriltag-esp32-master/src/apriltag_quad_thresh.c:1553-1640 | every schedule that gives each task enough turns finishes them all, each with the points of its band in the order of the sequential loops |
| ConcurrentClusters.AnyScheduleGroups | libraries/apriltag-esp32-master/src/apriltag_quad_thresh.c:1744-1804 | the merged list is the same for every such schedule: the group-by of one pass over all rows |
| BitReader.BitDecoder.Ensure | libraries/apriltag-esp32-master/src/common/pjpeg.c:175-200 | refilling for up to 31 bits, also after a peek that left more bits than fit, keeps the low end of the buffer a window of the unstuffed byte stream followed by ones |
| BitReader.BitDecoder.Peek | libraries/apriltag-esp32-master/src/common/pjpeg.c:202-207 | peeking consumes nothing and returns the next bits that the 32-bit buffer has not lost; from a buffer of at most 32 bits up to 25 bits are exactly the next ones |
| BitReader.BitDecoder.Consume | libraries/apriltag-esp32-master/src/common/pjpeg.c:209-220 | consuming up to 31 bits moves past them and returns what peeking returns; afterwards the buffer is whole again |
| BitReader.UnstuffStuff | libraries/apriltag-esp32-master/src/common/pjpeg.c:187-195 | for every byte sequence, unstuffing what stuffing a zero behind every 0xff gives is that sequence |
| BitReader.UnstuffLength | libraries/apriltag-esp32-master/src/common/pjpeg.c:187-195 | unstuffing drops exactly one byte for each 0xff with a zero behind it |
| BitReader.NothingStuffed | libraries/apriltag-esp32-master/src/common/pjpeg.c:187-195 | data without such a pair is unchanged |
| BitReader.ReadBytes | libraries/apriltag-esp32-master/src/common/pjpeg.c:175-220 | a new decoder over the stuffed bytes, asked for eight bits as often as there were bytes, returns them |
| BitReader.NothingLostIff | libraries/apriltag-esp32-master/src/common/pjpeg.c:175-220 | on every stream and from every position a request returns the bits of the stream iff it fits into the bits at hand and the whole bytes there is room for |
| BitReader.NextBits | libraries/apriltag-esp32-master/src/common/pjpeg.c:206-219 | the top bits of the valid part of the buffer are the next bits of the stream |
| BitReader.ByteBits | libraries/apriltag-esp32-master/src/common/pjpeg.c:175-200 | eight bits from a byte boundary are the byte of the unstuffed stream |
| Huffman.StartIsCode | libraries/apriltag-esp32-master/src/common/pjpeg.c:410-431 | the running table position is the canonical code of section C.2 of ITU-T T.81, left-aligned in 16 bits |
| Huffman.ReadTable | libraries/apriltag-esp32-master/src/common/pjpeg.c:402-432 | a table is accepted iff its codes end below the last entry; then every 16-bit window that begins with a code maps to that code's length and symbol |
| Huffman.ReadSegment | libraries/apriltag-esp32-master/src/common/pjpeg.c:384-436 | a DHT segment is accepted iff, along the wrapping length counter, every header names a table and every table ends below its last entry; then the decoder stands behind the last table, each slot holds the last table described for it, every other slot is unchanged, and a slot is marked present iff it was or was named |
| Huffman.SlotOf | libraries/apriltag-esp32-master/src/common/pjpeg.c:390-400 | the header byte 16 * Tc + Th names a table iff class and destination are below 2; 0x00, 0x01, 0x10, 0x11 name slots 0 to 3 |
| SegmentEncoding.SegmentRead | libraries/apriltag-esp32-master/src/common/pjpeg.c:384-436 | a segment written as ITU-T T.81 lays it out, length with the high byte first and per table header, sixteen counts and symbols, is read as exactly these tables up to its end, or refused iff a class or destination is above 1 or the codes of a table take all 65536 windows |
| SegmentEncoding.ReadWritten | libraries/apriltag-esp32-master/src/common/pjpeg.c:384-436 | the decoder on such a segment accepts it under the same condition, stands behind it and has the last table written for each slot in it |
| Huffman.OnesNameNoTable | libraries/apriltag-esp32-master/src/common/pjpeg.c:389-398 | past the end of the input the header byte is rejected, so the segment loop ends |
| SymbolDecoding.PrefixFree | libraries/apriltag-esp32-master/src/common/pjpeg.c:410-431 | no window begins with two codes |
| SymbolDecoding.NoCodeOfOnes | libraries/apriltag-esp32-master/src/common/pjpeg.c:423-424 | an accepted table has no code of ones only, as Annex C of ITU-T T.81 demands |
| SymbolDecoding.DecodeFindsTheCode | libraries/apriltag-esp32-master/src/common/pjpeg.c:588-590 | DECODE of section F.2.2.3 of ITU-T T.81 yields symbol k iff the next bits begin with code k |
| SymbolDecoding.DecodeSymbol | libraries/apriltag-esp32-master/src/common/pjpeg.c:588-590 | peek, look up, consume yields the symbol DECODE yields and moves past its code |
| SymbolDecoding.ExtendUndoes | libraries/apriltag-esp32-master/src/common/pjpeg.c:593-597 | EXTEND inverts the additional bits of section F.1.2.1 for every value |
| SymbolDecoding.ExtendIsOnto | libraries/apriltag-esp32-master/src/common/pjpeg.c:593-597 | every pattern of additional bits extends to a value of its category whose bits it is |
| SymbolDecoding.ExtendSign | libraries/apriltag-esp32-master/src/common/pjpeg.c:595-597 | additional bits with a leading one are the value itself, with a leading zero the value less 2 to the ssss, plus one |
| SymbolDecoding.ExtendBits | libraries/apriltag-esp32-master/src/common/pjpeg.c:593-597 | the decoder's sign test is EXTEND, also without additional bits |
| SymbolDecoding.DecodeDifference | libraries/apriltag-esp32-master/src/common/pjpeg.c:586-599 | a DC difference: the symbol by DECODE, then the value received from as many bits as its low digit says |
| Coefficients.ZigzagIsPermutation | libraries/apriltag-esp32-master/src/common/pjpeg.c:150-157 | the zigzag table is a permutation of the 64 places of a block |
| Coefficients.ZigzagWalks | libraries/apriltag-esp32-master/src/common/pjpeg.c:150-157 | the table starts in the upper left corner and each entry follows from the one before: up to the right on even diagonals, down to the left on odd ones, one place along the border at their ends |
| Coefficients.CategoryIff | libraries/apriltag-esp32-master/src/common/pjpeg.c:592-593 | the bit length the encoder uses is the one and only magnitude category of a value |
| Coefficients.DecodeRun | libraries/apriltag-esp32-master/src/common/pjpeg.c:605-627 | one round on any symbol: the end of the block iff it is 0, an overrun iff its run passes coefficient 63, otherwise the value received from its bits, dequantised, in its place and nothing else changed |
| Coefficients.NextRun | libraries/apriltag-esp32-master/src/common/pjpeg.c:607-621 | where the stream holds coefficients the way the encoder of section F.1.2.2 of ITU-T T.81 writes them, the next symbol is the end of block, sixteen zeros, or a shorter run with the value's category and bits |
| Coefficients.DecodeAc | libraries/apriltag-esp32-master/src/common/pjpeg.c:603-628 | the AC loop inverts the encoder: all 63 coefficients land dequantised in their places, and exactly their bits are read; on any other stream of symbols it overruns iff a run passes coefficient 63 |
| PtSort.FourNetwork | libraries/apriltag-esp32-master/src/apriltag_quad_thresh.c:697-705 | five exchanges sort four points |
| PtSort.FiveNetworkHalves | libraries/apriltag-esp32-master/src/apriltag_quad_thresh.c:710-713 | the first four of nine exchanges sort three and two of five points |
| PtSort.FiveNetworkEnds | libraries/apriltag-esp32-master/src/apriltag_quad_thresh.c:714-715 | two more bring the least to the front and the greatest to the end |
| PtSort.FiveNetworkMiddle | libraries/apriltag-esp32-master/src/apriltag_quad_thresh.c:716-718 | the last three sort the points between |
| PtSort.MergedSorts | libraries/apriltag-esp32-master/src/apriltag_quad_thresh.c:739-743 | merging two sorted lists sorts their concatenation |
| PtSort.MergeEight | libraries/apriltag-esp32-master/src/apriltag_quad_thresh.c:746-749 | the merge loop unrolled eight times stays in bounds and makes eight merge steps |
| PtSort.PtSort | libraries/apriltag-esp32-master/src/apriltag_quad_thresh.c:671-763 | for every size the slice becomes a permutation of itself sorted by slope and nothing outside it changes |
| Reconciliation.CompareTransitive | libraries/apriltag-esp32-master/src/apriltag.c:987-999 | lexicographic preference is transitive |
| Reconciliation.Prefer | libraries/apriltag-esp32-master/src/apriltag.c:1225-1234 | the ten calls of prefer_smaller compare hamming, margin and corners lexicographically: fewer corrected bits win, at equal bits the larger margin |
| Reconciliation.CornerOrder | libraries/apriltag-esp32-master/src/apriltag.c:1230-1234 | at equal bits and margins the first corner coordinate that differs decides, x before y, the smaller one being preferred |
| Reconciliation.Reconcile | libraries/apriltag-esp32-master/src/apriltag.c:1203-1261 | reconciliation ends, with either way of removing an element; no earlier and later detection of one tag overlap, nothing is made up, every detection is represented by one of its tag at least as good, and whatever is gone overlapped such a one |
| Reconciliation.BestSurvives | libraries/apriltag-esp32-master/src/apriltag.c:1236-1248 | a detection strictly preferred to all others of its id and family is never deleted |
| Reconciliation.FewestBitsSurvive | libraries/apriltag-esp32-master/src/apriltag.c:1225-1248 | a detection with fewer corrected bits than every other of its tag, or as many and a larger margin, stays |
| Reconciliation.BetterOfTwo | libraries/apriltag-esp32-master/src/apriltag.c:1225-1248 | of two overlapping detections of one tag the one with fewer corrected bits, or as many and the larger margin, is what is left |
| Reconciliation.GoneForBetter | libraries/apriltag-esp32-master/src/apriltag.c:1225-1248 | a detection that is gone overlapped one of its tag with fewer corrected bits, or as many and no smaller margin |
| Reconciliation.UnopposedSurvives | libraries/apriltag-esp32-master/src/apriltag.c:1214-1222 | a detection that overlaps no other of its tag is reported as often as it was found |
| Reconciliation.TagsKept | libraries/apriltag-esp32-master/src/apriltag.c:1203-1261 | a tag is reported iff it was detected |
| Thresholding.BlockMember | libraries/apriltag-esp32-master/src/apriltag_quad_thresh.c:1133-1151 | the clipped 3x3 block of 4x4 tiles, pixel by pixel |
| Thresholding.MinMaxTask | libraries/apriltag-esp32-master/src/apriltag_quad_thresh.c:1095-1122 | the least and greatest pixel of each tile of one tile row, and no other entry |
| Thresholding.BlurTile | libraries/apriltag-esp32-master/src/apriltag_quad_thresh.c:1133-1151 | the extremes over all pixels of the clipped 3x3 block of tiles |
| Thresholding.ThresholdTask | libraries/apriltag-esp32-master/src/apriltag_quad_thresh.c:1158-1209 | the pixels of one tile row get their level and no other row changes |
| Thresholding.Strips | libraries/apriltag-esp32-master/src/apriltag_quad_thresh.c:1306-1341 | the pixels to the right of and below the full tiles use the clamped tile and never get 127 |
| Thresholding.PixelOkUnique | libraries/apriltag-esp32-master/src/apriltag_quad_thresh.c:1174-1206 | the definition gives every pixel one value, one of 0, 127 and 255 |
| Thresholding.ExtremesAttained | libraries/apriltag-esp32-master/src/apriltag_quad_thresh.c:1104-1120 | in an area with pixels both extremes are pixels of it |
| Thresholding.Threshold | libraries/apriltag-esp32-master/src/apriltag_quad_thresh.c:1211-1341 | for w, h >= 4 every pixel of the output is written: 127 iff it is in a full tile and the pixels of the surrounding tiles span less than the minimal contrast, otherwise 255 iff twice its grey value is above the sum of their extremes, and 0 iff not |
| Thresholding.LevelIsShade | libraries/apriltag-esp32-master/src/apriltag_quad_thresh.c:1166-1206 | the level a tile's threshold gives a pixel is that shade |
| Thresholding.ExtremesSeparate | libraries/apriltag-esp32-master/src/apriltag_quad_thresh.c:1174-1206 | with enough contrast and two different extremes the brightest pixels around a tile come out 255 and the darkest 0 |
| Telemetry.TelemetryPacketParser.ParseByte | src/telemetry.cpp:234-273 | a packet is found iff the bytes since the last one and this byte are a whole encoding, and it is the one they encode |
| Telemetry.ParseStream | src/telemetry.cpp:239-273 | any byte stream is the encodings of the packets found, in order, and one incomplete rest held as state; the encodings of any packet list give exactly that list back |
| Telemetry.OneReading | tools/telemetry_server.py:36-39 | a byte stream has one reading as encoded packets and an incomplete rest |
| Telemetry.IncompleteIff | tools/telemetry_server.py:36-39 | what the parser holds between packets is exactly a proper prefix of some encoding |
| Telemetry.PingIsCommand | tools/telemetry_server.py:44-47 | the ping packet is the encoding of an empty command |
| Hysteresis.LastResetIsLast | src/target_detector.cpp:203-207 | the last reset of a history is its last position after as many consecutive misses as the limit |
| Hysteresis.ScoreStep | src/target_detector.cpp:193-208 | a hit adds one to the hits since the last reset, the miss that reaches the limit clears them, any other miss keeps them |
| Hysteresis.HysteresisLock.Update | src/target_detector.cpp:193-210 | for every history and every initial counter the lock is held iff the hits since the last reset, modulo 2^32, reach the required number; a limit of zero acts like one |
| Hysteresis.LockIsRightIff | src/target_detector.cpp:193-215 | for every history of at most N frames the lock is held iff the hits since the last reset reach the required number, iff none is required or the value okFrames starts from plus N stays below 2^32 |
| Hysteresis.WrapLosesLock | src/target_detector.cpp:198 | hits without a miss lose the lock when okFrames wraps around |

## Left out

- Floating-point rounding: matrix entries, slopes, margins and corners are exact reals, so NaN and rounding are not modelled.
- Plu.Factorise: a matrix is an array of rows; the flat buffer and its row stride are not modelled. `matd_plu_det` is left out.
- PluSolve.Inverse: only the default branch of `matd_inverse`; the branches for sizes 1 and 2 and the rest of the matrix library (`matd_op`, SVD, Cholesky) are left out.
- Homography.Compute: the assertion that some entry of the column is positive is an outcome of its own rather than a crash. With rounding the best pivot may differ from the exact one.
- GradientClusters.ClusterImage: its tasks are carried out one after the other; `ConcurrentClusters` has every interleaving of their accesses to the forest they share. There the hash chains, which belong to one task each, are the list of points added to them. The number of buckets is w*h/5 in whole numbers, and has to leave a bucket per band, as the source demands by taking remainders.
- Thresholding.MinMaxTask: the tile jobs are carried out one after the other; each writes rows of its own.
- Weak memory: reads and writes of shared entries take effect one at a time and in program order.
- WorkerPool.RunIsSafe: starts with every worker counted, which `workerpool_create` does not wait for; new pools are the subject of `WorkerPool.FirstRunWaitsIff`, `WorkerPool.NoTaskTwiceIff` and `WorkerPool.DestroyUnused`. `workerpool_run_single` (no threads), a task whose slot is reused while a worker still has to read it, and what growing the task array does to a thread that reads it meanwhile are left out.
- GradientClusters.AddPoint: hash chains and point lists are sequences; pool allocation of chain nodes is left out. The hash product and the bucket are computed with the source's widths.
- QuickDecoding.Init: the capacity is an unbounded integer and allocation succeeds; `QuickDecoding.TableSizeIff` says when the source's 32-bit capacity is the same. What the source does with a wrong one is left out.
- Huffman.ReadSegment: the marker loop around the segments is left out; a segment is read from wherever the decoder stands.
- Memory allocation failures, debug images, time profiling and the literal tag code tables everywhere. The distance between codes is a hypothesis of the decoding theorem.
- Huffman.ReadTable: entries that no code of the new table covers keep their old value, as in the source; what the decoder does on windows without a code is left open, and so are the tables after a segment that was not accepted.
- BitReader.BitDecoder.Peek: shifts by at most the width of the buffer; after peeking at 26 or more bits the source can be asked to shift by more, which C leaves undefined.
- Coefficients.DecodeAc: a run of zeros past coefficient 63 ends the model with a failure; the source does not look and indexes further. What the loop does where no code begins is left open. The inverse DCT, colour conversion, restart markers and scan headers are left out.
- Thresholding.Threshold: images of at least 4 by 4 pixels, the smallest with a full tile; the optional deglitching pass and the Bayer variant are left out.
- PtSort.PtSort: the temporary copy is a fresh array rather than heap memory that is freed.
- Reconciliation.Reconcile: the overlap of two quads is any predicate; the polygon geometry behind it is left out. The list of pointers is a sequence of values, and the family's address a number.
- Telemetry.TelemetryPacketParser.ParseByte: packet handlers, sockets and the status and tag structures are left out.
- Hysteresis.HysteresisLock.Update: the constructor leaves one counter unset; the model takes its value as a parameter.
- Quad fitting, edge refinement, grey models, pose estimation, MAVLink, camera and web interface: input and output, or floating-point heuristics without an exact specification.
