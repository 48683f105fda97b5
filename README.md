# Rigid bodies from image blocks: a Dafny model

This project models the simulation core of a small rigid-body animation
program written in Java. In that program a body is assembled from grid
"blocks" sampled from an image. Each block has a row `i`, a column `j`, a
layer `k`, a colour and a positive weight derived from the colour.

The model covers four source files.

- **`RigidBody`, later version** (`3D/src/comp559/lcp/RigidBody.java`).
  - The constructor computes the total mass and the centre of mass. It
    recentres every block in place, computes the rotational inertia with a
    single-block fallback, and builds a bounding-volume tree over the
    boundary blocks. It applies the "all blue means pinned" rule, sets the
    inverse masses and takes an index from a shared counter.
  - The copy constructor shares the angle and angular-velocity objects with
    the original.
  - `applyContactForceW` accumulates the force and overwrites the torque and
    its hat matrix.
  - `advanceTime` is a symplectic-Euler step; a pinned body does not move.
    `reset` and `clearHashes` are also modelled.
  - The query methods are kinetic energy, the velocity of a material point,
    point picking, and the integer bounding box of a block list.
- **`RigidBody`, earlier version** (`3D/comp559/lcp/RigidBody.java`). It has
  the same construction and step, three contact caches, and a hat matrix
  built from the raw torque.
- **`BVNode`** (`3D/src/comp559/lcp/BVNode.java`). This is the recursive
  midpoint split that builds the bounding-volume tree, together with the
  frontier walk of `displayVisitBoundary`.
- **`RigidBodySystem`** (`3D/src/comp559/lcp/RigidBodySystem.java`). It
  holds the list of bodies and the broad-phase spatial hash. That hash maps
  a cell key to the bodies entered into the cell; each body also keeps a
  list of its own cells. The model covers:
  - grid set-up and the two cell-key formulas;
  - the time step: gravity, each body's own step followed by its duplicate-free
    entry into its cells, and the clock;
  - first-match picking, removal, reset and clear.

Module layout:

- `vectors.dfy` (`Vectors`): 3-vectors, 3x3 matrices, cross product, hat
  matrix, and a mutable vector object for the shared angle objects.
- `blocks.dfy` (`Blocks`): the block class and the integer extent scan of
  `setMeas` and `getVertex`.
- `body_index.dfy` (`BodyIndex`): the static `nextIndex` counter as a
  shared object.
- `mass_properties.dfy` (`MassProperties`): the constructor's loops and
  what they compute.
- `bvnode.dfy` (`BoundingVolumes`): the tree datatype, its construction and
  its frontier.
- `dynamics.dfy` (`Dynamics`): the Euler step, gravity, kinetic energy and
  point velocity, with their physical properties.
- `rigid_body.dfy` (`RigidBodies`) and `rigid_body_legacy.dfy`
  (`LegacyRigidBodies`): the two body classes.
- `spatial_hash.dfy` (`SpatialHash`): Java integer division, cell keys and
  duplicate-free insertion.
- `rigid_body_system.dfy` (`RigidBodySystems`): the system class.

Numbers are Dafny `real` and `int`. The cosine and sine of the gravity
angle, the vector length used for normalisation, each body's bounding-disc
test and its world-to-body transform are all parameters.

## Model

| member | source | states |
|---|---|---|
| MassProperties.ComputeMassAndCentre | 3D/src/comp559/lcp/RigidBody.java:118-135 | the first two loops compute the total mass of both lists and the centre of mass: x and y weighted over both lists, z over the interior blocks only, all divided by the total mass |
| MassProperties.TotalMassPositive | 3D/src/comp559/lcp/RigidBody.java:118-135 | with at least one block the total mass is positive, so the division by it is defined |
| MassProperties.CentreWithinSpan | 3D/src/comp559/lcp/RigidBody.java:118-135 | along x and y the centre of mass lies within any interval that contains every block's grid coordinate (it is a weighted mean) |
| MassProperties.Recentre | 3D/src/comp559/lcp/RigidBody.java:137-149 | every block's pB becomes (j, i, k) minus the centre, written in place |
| MassProperties.RecentredDistinct | 3D/src/comp559/lcp/RigidBody.java:137-149 | blocks in distinct grid cells keep distinct body-local positions after recentring |
| MassProperties.RecentredMomentsVanish | 3D/src/comp559/lcp/RigidBody.java:118-149 | after recentring about x0, the mass-weighted pB of both lists sum to zero in x and y; in z they sum to the boundary blocks' layer moment, which x0.z leaves out |
| MassProperties.ComputeInertia | 3D/src/comp559/lcp/RigidBody.java:152-169 | massAngular is the sum of mass times squared body-local distance over both lists, replaced by mass * 3 / 12 when there is exactly one interior block |
| MassProperties.AccumulateInertia | 3D/src/comp559/lcp/RigidBody.java:153-163 | one inertia loop adds mass times squared distance from the centre for every block |
| MassProperties.MomentOfInertiaNonNegative | 3D/src/comp559/lcp/RigidBody.java:152-169 | the rotational inertia is never negative, and it is positive for a single interior block |
| MassProperties.IsAllBlueBlocks | 3D/src/comp559/lcp/RigidBody.java:364-369 | the search returns true exactly when every interior block has r == g < b, so an empty list gives true |
| RigidBodies.Assemble | 3D/src/comp559/lcp/RigidBody.java:118-179 | the block processing yields the total mass, the centre of mass, the inertia rule, the tree over the recentred boundary blocks and the all-blue flag, and it leaves every block recentred |
| RigidBodies.LocalItemsDistinct | 3D/src/comp559/lcp/RigidBody.java:145-149 | boundary blocks in distinct grid cells give the tree distinct positions, which its construction needs so that no half is ever empty |
| RigidBodies.RigidBody.constructor | 3D/src/comp559/lcp/RigidBody.java:112-191 | all the above, plus x = x0, zero velocity, angles and accumulators; pinned exactly when all blue; inverse masses 0 when pinned and reciprocals otherwise; index is the old counter value and the counter grows by one |
| RigidBodies.RigidBody.Copy | 3D/src/comp559/lcp/RigidBody.java:197-217 | the copy shares the block lists and the very theta and omega objects; it copies x, x0, masses, pinned, sleep, minv and jinv; it builds its own tree; it starts with zero velocity and force; it takes a fresh index |
| RigidBodies.RigidBody.ApplyContactForceW | 3D/src/comp559/lcp/RigidBody.java:281-301 | force gains F; r = p - x; torque is overwritten with r x (accumulated force); torqhat is the hat matrix of the normalised torque: a unit vector that, scaled by the torque's length, gives the torque back; so it stays skew-symmetric |
| RigidBodies.RigidBody.AdvanceTime | 3D/src/comp559/lcp/RigidBody.java:309-332 | a pinned body keeps x, v, theta and omega; any other takes one symplectic-Euler step; force and torque are zero afterwards |
| RigidBodies.RigidBody.Reset | 3D/src/comp559/lcp/RigidBody.java:390-398 | the state becomes x0 with zero velocity, angles and angular velocity, whatever it was (so a second reset changes nothing); force and torque are outside its frame |
| RigidBodies.RigidBody.ClearHashes | 3D/src/comp559/lcp/RigidBody.java:399-404 | the four contact caches are empty |
| RigidBodies.RigidBody.GetKineticEnergy | 3D/src/comp559/lcp/RigidBody.java:338-341 | the kinetic energy is never negative, and it is zero at rest |
| RigidBodies.RigidBody.GetSpatialVelocity | 3D/src/comp559/lcp/RigidBody.java:349-358 | (corrected) the velocity of the material point at p: a force F applied there does work at the rate F . v plus its torque (p - x) x F dotted with omega |
| RigidBodies.RigidBody.Intersect | 3D/src/comp559/lcp/RigidBody.java:376-385 | true exactly when p passes the disc test and some block lies strictly within the block radius of p's body-frame image |
| RigidBodies.RigidBody.SetMeas | 3D/src/comp559/lcp/RigidBody.java:220-238 | width, height and depth are max minus min of j, i and k, starting from the sentinels 1000000 and -100000; they are non-negative for a non-empty list |
| RigidBodies.RigidBody.GetVertex | 3D/src/comp559/lcp/RigidBody.java:239-264 | the eight corners of the extent, from (xmin, ymin, zmin) to (xmax, ymax, zmax), with every block between the first and the last |
| Blocks.ComputeExtent | 3D/src/comp559/lcp/RigidBody.java:227-234 | the min/max scan returns the extent of the list |
| Blocks.GridExtentIsExtent | 3D/src/comp559/lcp/RigidBody.java:221-234 | every block lies inside the extent, and each bound is its sentinel or is attained by a block |
| Blocks.Corners | 3D/src/comp559/lcp/RigidBody.java:255-262 | eight points in getVertex's order: entry n takes the upper z bound from n = 4 on, the upper x bound when bit 1 of n is set and the upper y bound when bit 0 is set; every one of the eight corners occurs |
| BodyIndex.IndexCounter.Take | 3D/src/comp559/lcp/RigidBody.java:190 | index = nextIndex++ |
| Dynamics.StepImpulse | 3D/src/comp559/lcp/RigidBody.java:312-322 | one step changes the linear momentum by dt * force and the angular velocity by dt * jinv * torque |
| Dynamics.StepDrift | 3D/src/comp559/lcp/RigidBody.java:315-325 | the step is symplectic: position and angles move along the new velocities |
| Dynamics.RunMomentum | 3D/src/comp559/lcp/RigidBody.java:309-332 | n steps under a constant force change the momentum by the elapsed time times the force |
| Dynamics.Coasting | 3D/src/comp559/lcp/RigidBody.java:309-332 | with no force and no torque the velocities are kept and the body drifts by n * dt times them |
| Dynamics.ElapsedIsProduct | 3D/src/comp559/lcp/RigidBodySystem.java:165 | n clock increments of dt add up to n * dt |
| Dynamics.KineticEnergyNonNegative | 3D/src/comp559/lcp/RigidBody.java:338-341 | ½ m abs(v)² + ½ I abs(omega)² is at least zero when both masses are |
| Dynamics.KineticEnergyAtRest | 3D/src/comp559/lcp/RigidBody.java:338-341 | the energy of a body at rest is zero |
| Dynamics.SpatialVelocityAsWritten | 3D/src/comp559/lcp/RigidBody.java:349-358 | (as written) the code returns v + (p - x) x omega |
| Dynamics.SpatialVelocityAsWrittenBreaksPower | 3D/src/comp559/lcp/RigidBody.java:349-358 | a concrete input where the formula as written gives power -1 instead of 1 |
| Dynamics.SpatialVelocityAsWrittenMirrors | 3D/src/comp559/lcp/RigidBody.java:349-358 | the formula as written and the point velocity differ exactly in the sign of the rotational part |
| Dynamics.PointVelocityPower | 3D/src/comp559/lcp/RigidBody.java:349-358 | the power balance between a force applied at p (as torque (p - x) x F) and the point velocity v + omega x (p - x) |
| Dynamics.GravityIndependentOfMass | 3D/src/comp559/lcp/RigidBodySystem.java:102-111 | gravity scaled by the body's mass gives every unpinned body the same velocity change |
| Vectors.Skew | 3D/comp559/lcp/RigidBody.java:224-229 | the hat matrix is skew-symmetric and maps every u to t x u |
| Vectors.SkewInverse | 3D/src/comp559/lcp/RigidBody.java:293-298 | a skew-symmetric matrix is the hat matrix of its own off-diagonal vector |
| Vectors.CrossOrthogonal | 3D/comp559/lcp/RigidBody.java:221-223 | the torque r x F is orthogonal to both r and F |
| LegacyRigidBodies.RigidBody.constructor | 3D/comp559/lcp/RigidBody.java:94-172 | the same mass properties, recentring, inertia rule, tree, pinning, inverse masses and index as the later version |
| LegacyRigidBodies.RigidBody.Copy | 3D/comp559/lcp/RigidBody.java:178-198 | it shares blocks, boundary blocks, theta and omega; it copies x, x0, masses, pinned, sleep, minv and jinv; v and force stay zero; it takes a fresh index |
| LegacyRigidBodies.RigidBody.ApplyContactForceW | 3D/comp559/lcp/RigidBody.java:216-231 | force gains F; torque is overwritten with (p - x) x force; torqhat is exactly the hat matrix of the torque; the torque is orthogonal to r and to the force |
| LegacyRigidBodies.RigidBody.AdvanceTime | 3D/comp559/lcp/RigidBody.java:239-260 | a pinned body keeps its state; any other takes one symplectic-Euler step; force and torque are zero afterwards |
| LegacyRigidBodies.RigidBody.Reset | 3D/comp559/lcp/RigidBody.java:318-326 | the state becomes x0 with zero velocity, angles and angular velocity |
| LegacyRigidBodies.RigidBody.ClearHashes | 3D/comp559/lcp/RigidBody.java:327-331 | the three contact caches are empty |
| BoundingVolumes.Build | 3D/src/comp559/lcp/BVNode.java:41-105 | the constructor builds exactly the split tree; its leaves hold the input blocks with multiplicity; the root is a leaf exactly for one block |
| BoundingVolumes.ScanBox | 3D/src/comp559/lcp/BVNode.java:48-60 | the min/max loop computes the bounding box of the positions |
| BoundingVolumes.BoxOfBounds | 3D/src/comp559/lcp/BVNode.java:48-60 | every position lies inside the box and each side of the box is attained by a position |
| BoundingVolumes.Partition | 3D/src/comp559/lcp/BVNode.java:65-98 | the loop with its nested axis tests produces L1 = the items below the midpoint on the chosen axis and L2 = the rest, each in input order |
| BoundingVolumes.ChooseAxisRule | 3D/src/comp559/lcp/BVNode.java:69-97 | z exactly when diff.z > diff.y; y when that fails and diff.y > diff.x; x otherwise |
| BoundingVolumes.ChooseAxisIgnoresWidestX | 3D/src/comp559/lcp/BVNode.java:69-97 | z is compared with y only, so a box widest in x can still be cut in z |
| BoundingVolumes.SplitIsPartition | 3D/src/comp559/lcp/BVNode.java:65-98 | L1 and L2 together are a permutation of the input; L1 holds exactly the items below the centre and L2 the others |
| BoundingVolumes.SplitStraddles | 3D/src/comp559/lcp/BVNode.java:61-98 | for two or more distinct positions, some item falls below the midpoint of the chosen axis and some does not |
| BoundingVolumes.SplitShrinks | 3D/src/comp559/lcp/BVNode.java:41-105 | for distinct positions both halves are non-empty, strictly smaller and still distinct, so the recursion terminates |
| BoundingVolumes.TreeLeaves | 3D/src/comp559/lcp/BVNode.java:41-105 | the leaves of the tree are the input blocks with multiplicity, and the root is a leaf exactly for one block |
| BoundingVolumes.FrontierCoversLeaves | 3D/src/comp559/lcp/BVNode.java:129-138 | the frontier's leaves, in order, are the tree's leaves, and every frontier node is a leaf or has an unvisited first child |
| SpatialHash.TruncDiv | 3D/src/comp559/lcp/RigidBodySystem.java:126 | Java's int division: the quotient truncated toward zero, with its magnitude and its sign |
| SpatialHash.TruncDivOfMinusOne | 3D/src/comp559/lcp/RigidBodySystem.java:126 | for a block in row 0, (i - 1) / width is 0 in Java, not -1 |
| SpatialHash.Ceil | 3D/src/comp559/lcp/RigidBodySystem.java:65 | Math.ceil: the least integer not below its argument |
| SpatialHash.PinnedKeys | 3D/src/comp559/lcp/RigidBodySystem.java:125-126 | one key per boundary block, j / width + ((i - 1) / width) * numPerRow with truncating division, in list order |
| SpatialHash.PinnedKeyCell | 3D/src/comp559/lcp/RigidBodySystem.java:126 | a block in column col and row row of the grid gets key col + row * numPerRow |
| SpatialHash.UnpinnedKeyAsWritten | 3D/src/comp559/lcp/RigidBodySystem.java:145 | (as written) floor(x / width) + floor((y - 1) / width * numPerRow) |
| SpatialHash.UnpinnedKeyAsWrittenMisplaces | 3D/src/comp559/lcp/RigidBodySystem.java:145 | a concrete point of cell 0 that the formula as written puts into cell 1 |
| SpatialHash.UnpinnedKeyCell | 3D/src/comp559/lcp/RigidBodySystem.java:145 | (corrected) a centre of mass in column col and row row gets key col + row * numPerRow |
| SpatialHash.PinnedTopRowDiffers | 3D/src/comp559/lcp/RigidBodySystem.java:126-145 | in the top row, i = 0, the pinned key truncates (0 - 1) / width to row 0 while the floored unpinned row is -1: with width 10 and 3 cells per row the keys are 0 and -3 |
| SpatialHash.PinnedAgreesWithUnpinned | 3D/src/comp559/lcp/RigidBodySystem.java:126-145 | (corrected) a pinned block and an unpinned body at the same grid point share a cell key, for grid rows i >= 1 and columns j >= 0 |
| SpatialHash.CellKeyDecode | 3D/src/comp559/lcp/RigidBodySystem.java:126 | within a row of numPerRow columns a key determines its column and row |
| SpatialHash.AddAbsentFacts | 3D/src/comp559/lcp/RigidBodySystem.java:137-138 | adding a key when absent keeps the old list as a prefix, holds exactly the old keys plus the new one, keeps the list duplicate-free, and is idempotent |
| SpatialHash.AddAllAbsent | 3D/src/comp559/lcp/RigidBodySystem.java:125-140 | a body's cell list after entering several keys keeps its old keys as a prefix and holds exactly the old and the new keys, without duplicates |
| SpatialHash.AddAllAbsentHeld | 3D/src/comp559/lcp/RigidBodySystem.java:137-138 | keys already in the list leave it unchanged |
| SpatialHash.InsertFacts | 3D/src/comp559/lcp/RigidBodySystem.java:129-136 | entering a body into a cell creates the cell if missing, puts the body in it once, leaves every other cell as it was, removes nothing, and a repeat changes nothing |
| SpatialHash.InsertAllFacts | 3D/src/comp559/lcp/RigidBodySystem.java:125-140 | after entering a body into its cells, each of them holds it, other cells are unchanged, nothing is removed, and no cell gets a duplicate |
| SpatialHash.InsertAllIdempotent | 3D/src/comp559/lcp/RigidBodySystem.java:125-140 | entering a body into the same cells twice is the same as once |
| SpatialHash.InsertEachFacts | 3D/src/comp559/lcp/RigidBodySystem.java:119-162 | after the loop every body is in every one of its cells, nothing already in the hash was lost, and duplicate freedom is kept |
| SpatialHash.InsertEachKeepsRecords | 3D/src/comp559/lcp/RigidBodySystem.java:119-162 | if each body's cell list agreed with the hash before the loop, it still agrees after the body and its list gain the new cells |
| RigidBodySystems.RemoveFirst | 3D/src/comp559/lcp/RigidBodySystem.java:188 | list.remove drops exactly one occurrence of the body when present |
| RigidBodySystems.PinnedStepRepeats | 3D/src/comp559/lcp/RigidBodySystem.java:124-140 | a pinned body's next step enters it into the same cells again and leaves its cell list as it was |
| RigidBodySystems.RigidBodySystem.constructor | 3D/src/comp559/lcp/RigidBodySystem.java:24-52 | an empty system: no bodies, empty hash, numPerRow and width 0, a visit array of length 1, clock 0 |
| RigidBodySystems.RigidBodySystem.Add | 3D/src/comp559/lcp/RigidBodySystem.java:58-60 | the body is appended to the list |
| RigidBodySystems.RigidBodySystem.Remove | 3D/src/comp559/lcp/RigidBodySystem.java:187-189 | the list loses one occurrence of the body, keeps every other body, and no longer holds the body |
| RigidBodySystems.RigidBodySystem.SHinit | 3D/src/comp559/lcp/RigidBodySystem.java:61-67 | numPerRow = 3; width = ceil(w / 3), so three cells span the image with less than one unit per cell to spare; a zeroed visit array of 900 slots |
| RigidBodySystems.RigidBodySystem.Enter | 3D/src/comp559/lcp/RigidBodySystem.java:129-138 | one cell entry: the body goes into the cell's list (a new one-element list when the key is missing) and the key into the body's list, each only when absent |
| RigidBodySystems.RigidBodySystem.HashBody | 3D/src/comp559/lcp/RigidBodySystem.java:123-159 | (as written) a pinned body is entered into one cell per boundary block; any other into the one key line 145 computes from its centre, which is not always the cell that contains it |
| RigidBodySystems.RigidBodySystem.ApplyGravity | 3D/src/comp559/lcp/RigidBodySystem.java:102-111 | when gravity is on, every body, pinned or not, gains mass * amount * (cos, sin, 0) in its force; nothing else changes |
| RigidBodySystems.RigidBodySystem.StepBody | 3D/src/comp559/lcp/RigidBodySystem.java:119-161 | one pass of the loop: the body steps, and only afterwards, when the flag is set, is entered into the cells computed from its new position (the unpinned key as written at line 145); other bodies are untouched |
| RigidBodySystems.RigidBodySystem.AdvanceBodies | 3D/src/comp559/lcp/RigidBodySystem.java:119-162 | every body takes its own step in list order; the hash becomes the old hash with each body entered into its new cells in turn (the unpinned key as written at line 145), or stays as it was when the flag is off |
| RigidBodySystems.RigidBodySystem.AdvanceTime | 3D/src/comp559/lcp/RigidBodySystem.java:98-167 | gravity first, then the advance-and-hash loop (the unpinned key as written at line 145), with each body stepping under its force plus gravity; the clock gains exactly dt |
| RigidBodySystems.RigidBodySystem.PickBody | 3D/src/comp559/lcp/RigidBodySystem.java:174-181 | the first body in list order that the point intersects, and None exactly when no body is hit |
| RigidBodySystems.RigidBodySystem.Reset | 3D/src/comp559/lcp/RigidBodySystem.java:194-201 | every body is back at x0 at rest and the clock is 0 |
| RigidBodySystems.RigidBodySystem.Clear | 3D/src/comp559/lcp/RigidBodySystem.java:206-210 | the list is empty, the body counter is 0 and the clock is 0 |

## Left out

- Drawing and the user interface are not modelled: `display`, `displayCOM`, `clearDisplayLists`, the display-list cache, `Renderer`, `BVNode.display`, the GL calls of `displayVisitBoundary`, `getControls`, and the fields used only for drawing (`isBox`, `c`, `rend`, `rotAxis`, `thed`, `vertex`, `myListID`, the static `alpha`, the system's `name`).
- `RigidTransform` is not part of this model. `updateTransformations`, the two transforms and `getTheta` are not modelled. `intersect` and `pickBody` take the world-to-body map as a parameter instead.
- `Disc` is not part of this model. The bounding disc of a tree node is not stored; `intersect` takes the root's disc test as a parameter.
- `Block` is not part of this model. `getColourMass` becomes a positive field of the block, and `Block.radius` is a parameter.
- `jiggle` is not modelled, because it draws random numbers.
- Timing is not modelled: `System.nanoTime`, `computeTime` and `totalAccumulatedComputeTime`.
- `mouseSpring.apply()`, `processCollisions` and `collisionProcessor.reset()` belong to classes that are not part of this model. The step leaves them out, and with them the contact solver and the body's `sleep` logic.
- All numbers are exact reals. There are no NaNs, infinities or rounding. Java `int` wrap-around in `nextIndex++` and in the `(int)` casts of cell keys is not modelled.
- RigidBodies.RigidBody.ApplyContactForceW: the length used by `normalize` is a parameter. It is required to be positive and to square to the torque's squared length. A zero torque is not modelled: Java would store NaN entries in the hat matrix.
- RigidBodies.RigidBody.constructor: an unpinned body must have a nonzero rotational inertia. Java would store an infinite `jinv`. There must be at least one boundary block, in distinct grid cells. With none, or with two blocks in one cell, Java's tree construction reaches an empty list and throws IndexOutOfBoundsException at `blocks.get(0)` (BVNode.java:48). The program's loader always supplies at least one boundary block.
- LegacyRigidBodies.RigidBody.constructor: the same requirements as the later constructor, for the same reasons.
- RigidBodies.RigidBody.Copy: requires the original's boundary blocks to lie in distinct grid cells, because the copy builds its own tree and Java would throw at BVNode.java:48 otherwise. Every body made by the constructor meets this (`LocalItemsDistinct`).
- LegacyRigidBodies.RigidBody.Copy: the same requirement as the later `Copy`, for the same reason.
- LegacyRigidBodies.RigidBody: `getKineticEnergy`, `getSpatialVelocity`, `isAllBlueBlocks` and `intersect` are textually the same as in the later version. They are modelled once, in `RigidBodies`.
- BoundingVolumes.Build: requires a non-empty list of distinct body-local positions. Java throws on an empty list at `blocks.get(0)` (BVNode.java:48). When all items share one position, every item goes to the second half, the first half is empty, and building it throws the same way; a list with two items at one position reaches such a sublist. The visit stamps are written by collision detection, which is not part of this model; new nodes carry 0.
- RigidBodySystems.RigidBodySystem.Add: requires that the new body is not already in the list and shares no angle object with another body. Adding the same body twice, which Java allows, is not modelled.
- RigidBodySystems.RigidBodySystem.AdvanceTime: requires a nonzero cell width when the spatial hash is on. Java throws on the pinned key's integer division by zero; for an unpinned body it would divide by a zero double and cast the result to a key, which is not modelled. The gravity direction arrives as its cosine and sine. The cell keys are returned as a ghost result rather than being observable.
- RigidBodySystems.RigidBodySystem.AdvanceTime: the clock is advanced before the bodies rather than after. No body state depends on the clock, so the final state is the same.
- RigidBodySystems.RigidBodySystem.Reset: `totalAccumulatedComputeTime` and the collision processor's reset are not modelled.
- The `SHvisitID` array is allocated by `SHinit` but read by nothing in these files. Only its length and contents after `SHinit` are modelled.
- The spatial-hash lists are values held in a map. Java shares the same `ArrayList` objects with the collision processor; that aliasing is not modelled.

## Findings

| source | as written | input that shows it | evidently intended | confidence | as-written member | corrected member |
|---|---|---|---|---|---|---|
| 3D/src/comp559/lcp/RigidBodySystem.java:145 | the unpinned cell key multiplies the row quotient by numPerRow before flooring: floor(x / width) + floor((y - 1) / width * numPerRow) | width 10, numPerRow 3, centre (0, 6): the point is in column 0, row 0 (cell 0), but the formula gives 1, the key of column 1 | floor the row first and then multiply, as the pinned formula at line 126 does for rows i >= 1, so that a body falls into the cell that contains it (in the top row, i = 0, the two formulas differ in any case, `SpatialHash.PinnedTopRowDiffers`) | not executed | SpatialHash.UnpinnedKeyAsWrittenMisplaces | SpatialHash.PinnedAgreesWithUnpinned |
| 3D/src/comp559/lcp/RigidBody.java:349-358 | getSpatialVelocity returns v + (p - x) x omega | omega = (0, 0, 1), v = 0, x = 0, p = (1, 0, 0), force (0, 1, 0): the formula gives power -1, while force times velocity should equal the linear plus the torque part, which is 1 | v + omega x (p - x), the velocity of the point due to the motion of the body, as the method's doc comment at lines 343-345 promises | not executed | Dynamics.SpatialVelocityAsWrittenBreaksPower | RigidBodies.RigidBody.GetSpatialVelocity |

The earlier version's `getSpatialVelocity` (3D/comp559/lcp/RigidBody.java:277-286) has the same formula. The system step (`Cells`, `HashBody` and the members built on them) keeps the source's key, `UnpinnedKeyAsWritten`, so the hash it specifies is the one Java builds; `UnpinnedKey` is the correction. The body class uses the corrected velocity (`PointVelocity`).
