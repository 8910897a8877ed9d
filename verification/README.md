# SParGeL core in Dafny

This is a Dafny model of the analysis and initial-condition core of SParGeL, the Smoothed Particle Generator and Loader. It covers the following parts.

- **The optical-depth octree** (`OpticalDepthOctree`):
  - an eight-way tree over `real` coordinates;
  - octant selection and subdivision, with the `_Next`/`_More` sibling links written as addresses;
  - construction by repeated insertion, and the pre-order node list `LinkTree` builds;
  - the column walk, which adds up Σ (column density) and τ (optical depth) for every particle over the leaves in its x–y footprint at or above it.
- **The optical-depth pass over a snapshot** (`OpticalDepth`): sort, split at the midplane, build and walk the upper tree, mirror the lower half up, build and walk again, mirror back, sort by particle id, and pick the diagnostic rows.
- **The run loop's bookkeeping** (`Application`):
  - argument and format handling in `Initialise`, including the thread clamp;
  - the split of the file list into contiguous slices, one per worker;
  - the per-slice loop with its stop on a failed read;
  - output name construction.
- **The neighbour-mass column estimate** (`ColumnDensity`).
- **Disc centring and the enclosed-mass radius search** (`DiscAnalyser`).
- **The disc and star set-up of the generator** (`Generator`):
  - particle ids and masses;
  - the stars' ids, order and positions;
  - tangential velocities and the binary's velocities;
  - the point array handed to the gravity tree;
  - the planet.
- **The cooling map** (`CoolingMap`): log-spaced grids, the cooling rate, and the optically thin/thick contour scan.

Supporting modules:

| module | holds |
|---|---|
| `Wrappers` | `Option` and `Result` |
| `Geometry` | `Vec3` arithmetic |
| `Sequences` | stable insertion sort by a real key, map, filter and sum over sequences, with their permutation lemmas |
| `Particles` | the particle and sink records |

How the model represents the source:

- **Numbers.** Floating-point quantities are `real`.
- **Abstract parameters.** Square roots, norms, powers of ten, trigonometric values, the opacity table and the gravity tree's speeds are function-typed or value parameters of the operations that use them.
- **Octree insertion depth.** The source's unbounded recursion into the octree is bounded by a `fuel` parameter. `None` means the insertion did not finish within that depth.
- **Out-of-range reads.** Reads the source makes out of range (a sink index past the end, `.at` past the particle count, index `-1` in the contour) become explicit error values rather than preconditions.

## Model

| member | source | states |
|---|---|---|
| OpticalDepthOctree.Octant | src/OpticalDepthOctree.cpp:148-155 | The octant code lies in 0..7. Bit 4 is set exactly when x ≥ origin.x, bit 2 exactly when y ≥ origin.y, and bit 1 exactly when z ≥ origin.z, so ties go to the high side. |
| OpticalDepthOctree.ChildOriginInOctant | src/OpticalDepthOctree.cpp:77-84 | With a positive half-extent, the origin given to child i lies in octant i of its parent. |
| OpticalDepthOctree.SplitValid | src/OpticalDepthOctree.cpp:77-94 | The eight children of a split are valid empty leaves. Each has its octant's origin and half the parent's extent. Next links run 0→1→…→7, and child 7 takes over the parent's Next. |
| OpticalDepthOctree.RootValid | src/Application.cpp:378-381 | The root (origin 0, half-extent 1024, no links) is a valid tree with no payloads. |
| OpticalDepthOctree.Insert | src/OpticalDepthOctree.cpp:67-105 | Insertion keeps every node with either no children or all eight. It never changes the node's origin, extent or Next link. |
| OpticalDepthOctree.InsertValid | src/OpticalDepthOctree.cpp:67-105 | A finished insertion into a valid tree gives a valid tree whose payloads are the old ones plus exactly the new point. Validity means counters equal subtree payload counts, internal nodes hold no data, More names a child, and every payload sits in its octant. |
| OpticalDepthOctree.SplitInsertValid | src/OpticalDepthOctree.cpp:74-97 | An occupied leaf whose counter reaches two clears its data and becomes a valid internal node holding exactly the old and the new point, with More linked to a child. |
| OpticalDepthOctree.SplitKidsValid | src/OpticalDepthOctree.cpp:96-97 | Re-inserting the old point and then the new one into the eight fresh children gives valid children holding exactly those two points. |
| OpticalDepthOctree.InsertDescendValid | src/OpticalDepthOctree.cpp:100-104 | An internal node hands the point to the child of its octant and points More at that child. The node stays valid and gains exactly the point. |
| OpticalDepthOctree.InsertIntoKidsValid | src/OpticalDepthOctree.cpp:101-103 | Inserting into the child of the point's octant keeps all eight children valid and adds the point to that child and to the children's payloads. |
| OpticalDepthOctree.InsertIntoEmpty | src/OpticalDepthOctree.cpp:69-73 | An empty leaf always accepts a point, whatever the depth bound. |
| OpticalDepthOctree.CoincidentInsertNeverFinishes | src/OpticalDepthOctree.cpp:74-97 | Inserting a point at the position of a point the valid tree already holds never finishes, for any depth bound: the two always share an octant and split again. |
| OpticalDepthOctree.CoincidentLeafNeverFinishes | src/OpticalDepthOctree.cpp:74-97 | The leaf case: an occupied leaf that receives a coincident point never finishes splitting. |
| OpticalDepthOctree.Construct | src/OpticalDepthOctree.cpp:40-49 | Construction by repeated insertion keeps the tree well formed. |
| OpticalDepthOctree.ConstructValid | src/OpticalDepthOctree.cpp:40-49 | Construction inserts one point per particle (position, density, temperature) in input order. It keeps the tree valid, adds exactly those points to its payloads, and raises the root counter by the particle count. |
| OpticalDepthOctree.ConstructCoincidentNeverFinishes | src/OpticalDepthOctree.cpp:42-48 | Two particles at the same position make construction never finish. |
| OpticalDepthOctree.ConstructMeetsPayload | src/OpticalDepthOctree.cpp:42-48 | A particle at the position of a point the tree already holds makes construction never finish. |
| OpticalDepthOctree.LeafPairFinishes | src/OpticalDepthOctree.cpp:67-105 | An occupied leaf receiving a point that lies in its cell and differs from its payload by at least a cell width k halvings down finishes within depth bound k. |
| OpticalDepthOctree.DistinctCoordinatesApart | src/OpticalDepthOctree.cpp:77-84 | Two different coordinates are separated by enough halvings of any cell. |
| OpticalDepthOctree.DistinctPairFinishes | src/OpticalDepthOctree.cpp:40-49 | Two particles at distinct positions in the root's cell fit into the tree for some depth bound: only coincident positions make construction of a pair fail. |
| OpticalDepthOctree.LinkTree | src/OpticalDepthOctree.cpp:107-117 | LinkTree appends the subtree's pre-order (node first, then children 0..7) to the list it is given, without clearing it. |
| OpticalDepthOctree.LinkTreeVisitsEachNodeOnce | src/OpticalDepthOctree.cpp:107-117 | The appended part lists every node of the tree exactly once. Entry k is the node at the k-th address in strictly ascending lexicographic order. Every address of the tree appears, and the old list is kept as a prefix. |
| OpticalDepthOctree.LinkTwoTrees | src/Application.cpp:407-419 | Two LinkTree calls on one list leave the first tree's pre-order followed by the second's. |
| OpticalDepthOctree.ValidNested | src/OpticalDepthOctree.cpp:77-84 | In a valid tree every child, at every depth, sits at its octant's origin with half its parent's extent, so its rectangle lies inside its parent's. |
| OpticalDepthOctree.OutsideContributesNothing | src/OpticalDepthOctree.cpp:161-175 | A node whose open x–y rectangle does not contain the particle contributes nothing from anywhere in its subtree. |
| OpticalDepthOctree.Traverse | src/OpticalDepthOctree.cpp:119-146 | In a tree whose children lie inside their parents, the recursive walk adds to the accumulator the sum, over the pre-order node list, of each node's own contribution. Only a leaf with a payload counts, and only when its rectangle contains the particle's x–y and its payload is not below the particle. Pruning at a cell that misses the particle loses nothing. |
| OpticalDepthOctree.Walk | src/OpticalDepthOctree.cpp:52-65 | One result per particle, with only RealSigma and RealTau changed. They hold the walk from the root started at Σ = τ = 0. |
| OpticalDepthOctree.WalkStoresColumnAbove | src/OpticalDepthOctree.cpp:126-139 | In a valid tree each stored pair is the column above the particle. Each leaf that counts adds density × 2 × half-height × AU_TO_CM to Σ, and that times the opacity to τ. |
| OpticalDepthOctree.LeafColumnNonNegative | src/OpticalDepthOctree.cpp:133-139 | A leaf with non-negative density, opacity and height contributes non-negative Σ and τ. |
| OpticalDepthOctree.TraverseGrows | src/OpticalDepthOctree.cpp:119-146 | With non-negative densities and opacity, the walk never decreases either accumulator. |
| OpticalDepthOctree.WalkNonNegative | src/OpticalDepthOctree.cpp:52-65 | With non-negative payload densities and opacity, every stored Σ and τ is non-negative. |
| OpticalDepth.SplitHemispheres | src/Application.cpp:386-402 | After the radius and x sorts, the two halves together are the input as a multiset. The upper half has z ≥ 0 and the lower half z < 0. |
| OpticalDepth.FindOpticalDepthWith | src/Application.cpp:375-432 | A finished pass returns one particle per input particle, sorted by ascending id. |
| OpticalDepth.MirroredWalkStrip | src/Application.cpp:411-429 | Negating z, walking and negating z back leaves every lower particle as it was apart from RealSigma and RealTau. |
| OpticalDepth.FindOpticalDepthPermutes | src/Application.cpp:394-432 | The output is a permutation of the input once RealSigma and RealTau are ignored. No particle is lost or duplicated, and x, y and z come back unchanged. |
| OpticalDepth.FindOpticalDepthTrees | src/Application.cpp:406-419 | Both trees are valid and the upper tree holds the upper half's points. The lower tree holds the mirrored lower half, plus the upper tree's points when the tree is reused as written. The node list is the upper tree's pre-order followed by the lower tree's. |
| OpticalDepth.FindOpticalDepthColumns | src/Application.cpp:406-429 | Each output particle carries the column above it in the tree of its half: an upper particle at its position, a lower particle at its mirrored position. |
| OpticalDepth.FindOpticalDepthNonNegative | src/Application.cpp:406-429 | With non-negative densities and opacity, every output Σ and τ is non-negative. |
| OpticalDepth.FindOpticalDepth | src/Application.cpp:375-432 | As written, with the mirrored lower half inserted into the tree that already holds the upper half, a finished pass returns one particle per input, sorted by ascending id. |
| OpticalDepth.MirrorPairNeverFinishes | src/Application.cpp:406-418 | As written, a lower particle that is the mirror image of an upper particle makes the pass never finish. |
| OpticalDepth.FindOpticalDepthSeparate | src/Application.cpp:375-432 | With a fresh tree for the lower half, a finished pass returns one particle per input, sorted by ascending id. |
| OpticalDepth.SeparateLowerTreeHoldsLowerHalfOnly | src/Application.cpp:404-420 | With a fresh lower tree, that tree holds exactly the mirrored lower particles and nothing from the upper half. |
| OpticalDepth.DiagnosticRows | src/Application.cpp:435-452 | The rows are exactly the rows of the particles whose RealTau is non-zero, in the particles' order, one row per such particle. |
| OpticalDepth.DiagnosticRowsShape | src/Application.cpp:435-452 | There are at most as many rows as particles. Each row has the 14 columns, and its RealTau column is non-zero. |
| OpticalDepth.DiagnosticRowsMembers | src/Application.cpp:441-451 | A particle with non-zero RealTau has its row among the rows, and every row is the row of such a particle. |
| Application.ParseFormat | src/Application.cpp:110-131 | A format tag is recognised exactly when it is one of su, sf, du, df, column and sink. |
| Application.FormatTagRoundTrip | src/Application.cpp:110-127 | Each file variant has one tag, and parsing that tag gives back the variant and no other. |
| Application.ClampThreads | src/Application.cpp:59 | A request that is negative or above the hardware count becomes the hardware count. Any other request, zero included, is kept. |
| Application.InputFiles | src/Application.cpp:105-108 | One file per argument 1..NumArgs−2, in order, with the parsed name. |
| Application.Initialise | src/Application.cpp:44-139 | Initialise succeeds exactly when all of the following hold: there are at least two arguments, the hardware count is positive, the opacity table reads, any input files have a recognised format, and there is at least one file. Each failure gives its own error; two arguments without the generator give the no-files error. On success the generated file comes first and the thread count is the clamped request. |
| Application.Partition | src/Application.cpp:143-163 | With W = min(threads, N), the W slices are contiguous and disjoint and cover 0..N−1. The first N mod W slices hold ⌊N/W⌋+1 files and the rest ⌊N/W⌋. |
| Application.EveryFileHasOneWorker | src/Application.cpp:155-163 | Every file index below N lies in exactly one slice. |
| Application.AnalyseSlice | src/Application.cpp:179-184 | A slice is processed in index order. Without a generator it stops at the first file that fails to read, and every processed file read successfully. With a generator no file is read, and the whole slice is processed. |
| Application.AllFilesAnalysed | src/Application.cpp:155-184 | When every read succeeds, or a generator exists (in which case no file is read), the slices together process files 0..N−1 once each, in order. |
| Application.Writer | src/Application.cpp:248-279 | A file is written only for the formats df, su and column. |
| Application.WriterMatchesReader | src/Application.cpp:248-279 | Each written format is read back as the same variant. |
| Application.Converted | src/Application.cpp:222-224 | Conversion replaces the format only, and only when conversion is on. |
| Application.OutputName | src/Application.cpp:238-245 | An explicit file name is used as it is and forces the column format, which has a writer. Otherwise the snapshot's format is kept. |
| Application.OutputNameRoundTrip | src/Application.cpp:238-241 | When the id and format contain no dot, the built name dir/id.format.snapappend splits back into its id, its format and the rest. |
| ColumnDensity.MassAbove | src/Application.cpp:321-336 | The summed mass is the particle's own plus that of every earlier particle whose squared distance is at most 4h. |
| ColumnDensity.MassBelow | src/Application.cpp:351-365 | The summed mass is the particle's own plus that of every later particle whose squared distance is at most 4h. |
| ColumnDensity.UpperPass | src/Application.cpp:316-344 | On a list sorted top first, every particle with z ≥ 0 gets m/(π·search²)·conv from itself and its neighbours above. Particles below the midplane are untouched, and no other field changes. |
| ColumnDensity.LowerPass | src/Application.cpp:346-370 | Every particle with z ≤ 0 gets the estimate from itself and its neighbours below. Particles above are left as the first pass left them. |
| ColumnDensity.FindColumnDensity | src/Application.cpp:309-373 | The result is the input sorted by z descending, apart from RealSigma. Particles above the midplane carry the upper estimate, and those on or below it carry the lower estimate, which the second pass overwrites at z = 0. |
| DiscAnalyser.DecimalString | src/DiscAnalyser.cpp:57 | A sink index renders as a non-empty string of decimal digits, one digit exactly below ten. |
| DiscAnalyser.DecimalRoundTrip | src/DiscAnalyser.cpp:57 | The rendered index reads back as the index. |
| DiscAnalyser.DensestCount | src/DiscAnalyser.cpp:44 | At least one particle is averaged. A positive configured count is used as it is. |
| DiscAnalyser.Densest | src/DiscAnalyser.cpp:38-46 | The n particles averaged in densest mode are a sub-multiset of the snapshot's particles, and each is at least as dense as every particle left out. |
| DiscAnalyser.MomentOfMoved | src/DiscAnalyser.cpp:69-75 | Moving every particle by (dX, dV) shifts the mass moment and the momentum by the total mass times the offset. |
| DiscAnalyser.Center | src/DiscAnalyser.cpp:22-88 | With no position, no such sink and densest off, the snapshot is returned unchanged. The out-of-range reads of the densest count, the sink index and the first sink are errors. Centring succeeds exactly when none of them happens. |
| DiscAnalyser.CenterIsTranslation | src/DiscAnalyser.cpp:69-81 | A centred snapshot is the input moved by a single offset. |
| DiscAnalyser.MovedKeepsShape | src/DiscAnalyser.cpp:69-81 | A move keeps the particles and sinks and their order, and changes only positions, radii and particle velocities. Every difference of two positions stays the same, and every radius becomes the norm of the new position. |
| DiscAnalyser.CenterOnSink | src/DiscAnalyser.cpp:55-80 | Centring on an existing sink puts that sink at the origin. It shifts every particle by the sink's position, leaves velocities alone, and appends ".centered." and the index. |
| DiscAnalyser.CenterOnPosition | src/DiscAnalyser.cpp:58-80 | Centring on a given position shifts by it, taking the sink's height when its z is zero. It leaves velocities alone and appends ".centered." and the label. |
| DiscAnalyser.CenterOnDensest | src/DiscAnalyser.cpp:36-53 | After densest-mode centring, the n densest particles have their mass-weighted centre at the origin and zero net momentum, and the suffix is ".centered.densest". |
| DiscAnalyser.FirstCrossing | src/DiscAnalyser.cpp:102-110 | The scan returns the first index whose prefix mass reaches the threshold, and none when no index does. |
| DiscAnalyser.FirstReachingMonotone | src/DiscAnalyser.cpp:101-111 | A larger threshold is reached no earlier. |
| DiscAnalyser.FindOuterRadius | src/DiscAnalyser.cpp:90-112 | With the particles sorted by radius, each fraction gets the norm of the first particle whose prefix mass reaches count × first mass × fraction. It is unset exactly when no prefix reaches it. |
| DiscAnalyser.EqualMassesReachEveryFraction | src/DiscAnalyser.cpp:94-111 | When all masses are equal and non-negative, as the assumed total presumes, every fraction up to one is reached by the last particle. |
| Generator.CreateDisc | src/Generator.cpp:139-154 | Particle i gets id i, type 1, the sampled position, the norm of that position as radius, and mass M_DISC/N. |
| Generator.DiscMassIsTotal | src/Generator.cpp:139-151 | The disc particles' masses add up to M_DISC. |
| Generator.CreateStars | src/Generator.cpp:194-219 | The primary has id N+1, mass M_STAR and type −1. A binary's companion has id N+2 and mass BINARY_M, is left untyped and comes first in the list. The binary's heights are opposite, its y is zero, and all velocities are zero. |
| Generator.StarsCentreOfMass | src/Generator.cpp:194-219 | For an uninclined binary, the two stars CreateStars makes have their mass-weighted positions cancel: the centre of mass is at the origin. |
| Generator.BinaryCentreOfMass | src/Generator.cpp:207-215 | For an uninclined binary the mass-weighted positions of the two stars cancel. |
| Generator.TangentialIsOrthogonal | src/Generator.cpp:284-288 | (−v·y, v·x, 0)/(R+10⁻⁶) has zero z and is perpendicular to the particle's (x, y). |
| Generator.AssignVelocities | src/Generator.cpp:274-289 | Particle k gets the velocity (−v·y, v·x, 0)/(R+10⁻⁶) for its own speed v, which is horizontal and perpendicular to its (x, y). Nothing else changes. |
| Generator.BinaryVelocitiesAsWritten | src/Generator.cpp:291-303 | As written, the negative speed scaled by BINARY_M/M goes to the first sink and the positive speed scaled by M_STAR/M to the second. Only those two velocities change. |
| Generator.BinaryVelocities | src/Generator.cpp:291-303 | Corrected, the first sink (the companion) gets the positive speed scaled by M_STAR/M and the second (the primary) the negative one scaled by BINARY_M/M. Only those two velocities change. |
| Generator.AsWrittenBinaryDrifts | src/Generator.cpp:291-303 | As written, the binary's net momentum along y is v·(M_STAR² − BINARY_M²)/M. |
| Generator.AsWrittenBinaryDriftsWhenUnequal | src/Generator.cpp:291-303 | As written, unequal masses and a non-zero speed give a non-zero net momentum. |
| Generator.BinaryMomentumZero | src/Generator.cpp:291-303 | With each speed on the star it is scaled for, the binary has zero net momentum. |
| Generator.BinarySpeedSigns | src/Generator.cpp:292-297 | With non-negative masses and speed, the first speed is ≤ 0 and the second ≥ 0. |
| Generator.StarVelocities | src/Generator.cpp:291-306 | As written, a binary's first sink gets (0, v₁, 0) and its second (0, v₂, 0). A single star is set at rest. Every sink keeps its place and every other field, and the sinks after the ones set are untouched. |
| Generator.StarVelocitiesBalanced | src/Generator.cpp:291-306 | The same with the corrected binary velocities: each star gets the speed scaled for it. |
| Generator.LoadAsWritten | src/Generator.cpp:254-272 | As written, there are N+S slots and every index handed over is a valid slot. |
| Generator.LoadTreeAsWritten | src/Generator.cpp:254-272 | The two loops as written produce the load described by LoadAsWritten. |
| Generator.AsWrittenSeesFirstSinkTwice | src/Generator.cpp:264-272 | As written, with one particle and one sink or more, slot 0 is handed over twice and holds the first sink both times. |
| Generator.AsWrittenSkipsSinkSlots | src/Generator.cpp:254-272 | As written, with no more sinks than particles, slots N..N+S−1 are never written and no index handed over reaches them. |
| Generator.AsWrittenMassExample | src/Generator.cpp:264-272 | As written, one particle of mass 1 and one sink of mass 2 leave the tree holding, in the slots it was handed, the sink twice: total mass 4. |
| Generator.LoadTree | src/Generator.cpp:254-272 | The corrected loops produce the load described by Load. |
| Generator.LoadHoldsEverything | src/Generator.cpp:254-272 | Corrected, the tree holds each particle's point and then each sink's point once, and its mass is the particles' plus the sinks'. |
| Generator.InteriorMass | src/Generator.cpp:232-237 | The loop sums the masses of exactly the particles whose norm is strictly below the planet's radius. |
| Generator.InteriorMassMonotone | src/Generator.cpp:232-237 | With non-negative masses, a larger radius encloses no less mass. |
| Generator.CreatePlanet | src/Generator.cpp:222-248 | The planet is appended after the sinks with id N+S+1 and type −1, at pericentre on the x axis. It moves only along y, at the circular speed for the enclosed gas mass. |
| Generator.CreateDiscSystemWith | src/Generator.cpp:26-36 | Running disc, stars, velocities and planet gives N particles with the created fields, non-negative radii and their tangential velocities. There is one sink per star plus one for a planet, and every sink has a distinct id above N. |
| Generator.CreateDiscSystem | src/Generator.cpp:26-36 | As written, a binary of unequal masses and non-zero speed starts with non-zero net momentum. |
| Generator.CreateDiscSystemBalanced | src/Generator.cpp:26-36 | With the corrected velocities, the binary starts with zero net momentum. |
| Generator.DiscSystemMomentum | src/Generator.cpp:26-36 | In a binary set-up the first two sinks are the two stars CreateStars makes, with the velocities the chosen assignment gives them. |
| CoolingMap.FillVectors | src/CoolingMap.cpp:75-85 | There are exactly DENS_BINS densities and TEMP_BINS temperatures (none for a non-positive count). Entry i is 10 to the power min + i·\|max−min\|/bins. |
| CoolingMap.ExponentsClimb | src/CoolingMap.cpp:76-83 | The first exponent is the minimum. The exponents never decrease, even when min > max. They stay below min + \|max − min\|, or equal min when max = min. |
| CoolingMap.GridAscending | src/CoolingMap.cpp:75-85 | For an increasing power function the grid is ascending. |
| CoolingMap.CalculateDUDT | src/CoolingMap.cpp:87-93 | For κ > 0, T ≠ 0 and SB > 0, the cooling rate is positive and at most 4·SB·T⁴·κ (the optically thin limit). For a non-zero Σ it is also at most 4·SB·T⁴/(Σ²κ) (the thick limit). |
| CoolingMap.ScanRow | src/CoolingMap.cpp:57-68 | The scan stops at the first density where the carried τ, which starts at 0, is below one and the current τ is above one. It reports none when there is no such density. |
| CoolingMap.ThickFromTheStart | src/CoolingMap.cpp:62-64 | A row that is thick at its first density crosses there. That is the crossing that needs the density before index 0. |
| CoolingMap.ExactlyOneIsNotACrossing | src/CoolingMap.cpp:62 | Both comparisons are strict, so a τ of exactly one at any index is neither thin nor thick: no crossing happens at that index or at the next one. |
| CoolingMap.ThinThenThick | src/CoolingMap.cpp:62 | A thin density followed by a thick one is a crossing. |
| CoolingMap.Contour | src/CoolingMap.cpp:52-72 | There is one cell per temperature. A cell is empty exactly when its row never crosses, and otherwise holds the midpoints at the first crossing. When that crossing is at the first density or the first temperature, the cell is the out-of-range marker. |

## Left out

- Reading and writing snapshot files is not modelled, and neither is the diagnostic file's text. Only which rows are written is modelled. The `ofstream` output of the cooling map, including its `log10` heat map, is also left out. All of this is I/O.
- Thread creation and join, the shared file counter and the cloud and sink aggregators are not modelled. Their point is concurrency. The model gives each worker's slice and the files a slice processes.
- `FindThermo`, the cloud analysis, the radial analysis and the sink analysis called from `Analyse` are left out. They are floating-point formulas over the opacity table, or classes that are not part of this model. `FindColumnDensity` is modelled although its call in `Analyse` is commented out.
- Random sampling, the disc's density, temperature and scale-height formulas, and `CreateCloud` are left out as floating-point physics. Each disc particle's sampled values arrive as a `DiscSample`.
- The gravity `Octree` and its traversal are not part of this model. Each particle's orbital speed arrives as a parameter.
- The gravity `Octree` keeps what `Insert` hands it, by that class's source, which is not part of this model. The model takes it to keep the pointers and read the slots after both loops, so the held points are the slots' final contents (`Generator.Held`).
- The opacity table, `Vec3::Norm`, `pow`, `sqrt`, `cos` and `sin` are parameters. A zero norm is modelled as the zero vector.
- `Definitions.h`, `Parameters.h` and `OpticalDepthOctree.h` are not part of this model, so their constants and defaults are parameters. This covers `ROUT_PERCS`, `MOD_ARRAY`, `AU_TO_CM`, `SB`, `PI` and the conversion factors. The octree's `TotalPoints` is taken to start at zero.
- The octree's copy constructor, destructors and memory release are left out. They have no effect on the values modelled.
- Float and double rounding are not modelled, because numbers are `real`. Neither is the 32-bit `float` accumulation in densest-mode centring and in `FillVectors`.
- `Sequences.SortBy` is a stable insertion sort, while `std::sort` is not stable. The order among equal keys may therefore differ, and so may values derived from that order. Two such values are the column estimates of particles with equal z, since a particle counts a neighbour of equal z only when it comes earlier (upper pass) or later (lower pass) in the sort. Another is which of several equally dense particles densest-mode centring picks. The sort results themselves are stated up to that, as permutations sorted by the key; the values derived from them follow the stable order.
- The code passes a `shift` argument to `Construct` and `Walk` that their definitions do not take. The definitions are modelled, and the shift is zero anyway.
- The comment before the second sort says z, but the code sorts by x, and the model follows the code.
- The code reuses one tree for both halves. The model follows the code in `FindOpticalDepth`, and the separate-tree variant is beside it.
- `DiscAnalyser` is constructed without its parameters, and `Center` is called with two of its four arguments. The definition of `Center` is modelled, and the densest count and label are parameters.
- The code shifts velocities only in densest mode. That is modelled as written.
- The generator's binary velocities are modelled as written in `StarVelocities` and `CreateDiscSystem`. The corrected assignment is beside them in `StarVelocitiesBalanced` and `CreateDiscSystemBalanced`.
- OpticalDepthOctree.DistinctPairFinishes: covers two particles. That construction finishes for some depth bound for any number of pairwise distinct positions in the root's cell is not proved.
- OpticalDepthOctree.Insert: the depth of the recursion is bounded by `fuel`. The unbounded recursion on coincident points is modelled as never finishing within any bound (`CoincidentInsertNeverFinishes`), not as non-termination.
- Application.Partition: requires at least one thread. The source divides by the thread count, so `THREADS = 0`, which the clamp lets through, is a division by zero that is left unmodelled.
- Application.AnalyseSlice: `generated` stands for the test `mGenerator != NULL`. The constructor never initialises `mGenerator`, and `Initialise` assigns it only when GENERATE is set, so with GENERATE off the model takes the pointer to be null. The source reads an indeterminate pointer there.
- Application.Partition: the remainder, files-per-thread and thread counters are taken as signed `int`, because `include/Application.h` does not declare them. If the remainder were unsigned, its decrement below zero would wrap and give the later slices an extra file each; that wrap is not modelled.
- DiscAnalyser.FindOuterRadius: requires at least one particle, because the source reads the first particle's mass.
- DiscAnalyser.Center: requires a non-zero averaged mass in densest mode. The source divides by it and would produce infinities.
- CoolingMap.CalculateDUDT: requires κ ≠ 0 and a non-zero denominator. The source's float division by zero, which gives infinity, is not modelled.
- ColumnDensity.FindColumnDensity: requires π ≠ 0 and non-zero smoothing lengths, for the same reason.
- Generator.CreateStars: requires a non-zero total star mass for a binary, because the positions divide by it.
- Generator.AssignVelocities: requires non-negative stored radii, which are norms, so the softened radius is never zero.

## Findings

| source | as written | input that shows it | evidently intended | confidence | as-written member | corrected member |
|---|---|---|---|---|---|---|
| src/Generator.cpp:292-303 | The speed scaled by BINARY_M/M goes to `mSinks[0]` and the one scaled by M_STAR/M to `mSinks[1]`. Because the companion was pushed first (lines 217-219), each star gets the other's speed. | M_STAR = 1, BINARY_M = 0.5, speed 1: net momentum 0.5 along y instead of 0 | the primary gets the speed scaled by BINARY_M/M and the companion the one scaled by M_STAR/M, so the binary has no net momentum | not executed | Generator.AsWrittenBinaryDriftsWhenUnequal | Generator.BinaryMomentumZero |
| src/Generator.cpp:264-272 | The sink loop writes and hands over `mOctreePoints[i]` instead of slot N+i. Slot 0 is handed over twice, holding sink 0 both times. When there are no more sinks than particles, slots N..N+S−1 are never written. | one particle of mass 1 and one sink of mass 2: if the tree keeps the pointers it is handed, it holds the sink twice, total mass 4 instead of 3 | sink i goes to slot N+i, so the tree holds every particle and sink once | not executed | Generator.AsWrittenMassExample | Generator.LoadHoldsEverything |
| src/Application.cpp:406-418 | The lower half is inserted into the tree that already holds the upper half. | an upper particle at (1, 1, 1) and a lower one at (1, 1, −1): once mirrored they coincide and the insertion never finishes | a fresh tree for the mirrored lower half, so its columns see only lower-half material | not executed | OpticalDepth.MirrorPairNeverFinishes | OpticalDepth.SeparateLowerTreeHoldsLowerHalfOnly |
