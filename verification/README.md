# Barnes–Hut octree insertion, vectors, octants and bodies

A model of the spatial-index core of a Java n-body simulation (EP2 "Planets"):
the octree into which bodies are inserted, the axis-aligned cubes (octants) it
divides space into, the celestial bodies with their move and merge steps, and
the three-component vectors under all of them. Every `double` is a Dafny `real`.

Four modules, one per source class:

- `Vectors` (`vectors.dfy`, `src/Vector3.java`): the value `Vec` and its algebra
  (`Add`, `Scale`, `Sub`, `Distance`, `Norm`, `Normalized`), a square root
  defined as the non-negative root wherever one exists, and the `Vector3` class
  whose methods allocate new vectors and whose `Normalize` divides in place.
- `Octants` (`octants.dfy`, `src/Octant.java`): the value `Cube`, the half-open
  containment test `In`, the eight sub-cubes `divide` builds (`SubCube`) and the
  proof that they partition the cube; the `Octant` class with constant geometry
  and a settable mass / mass-centre cache.
- `Bodies` (`bodies.dfy`, `src/Body.java`): `BodyState` with the step `Moved` and
  the collision `Merged` as values, with Newton's second law, conservation of
  momentum and symmetry of merging proved; the `Body` class keeps the source's
  vector references and installs new vectors in `Move` and `Merge`.
- `Octrees` (`octrees.dfy`, `src/Octree.java`): the `Octree` class. A node owns
  an `Octant`, an array of `maxBodies` body slots, eight child slots and the
  `isDivided` flag. `Add` follows the source branch by branch: a body outside
  the octant is ignored; with a free slot the fill loop stores it (in every
  empty slot, since that loop has no break); otherwise the node divides unless it
  is divided already, the nested loops hand resident `i` to `children[i]` and
  clear the slot, and the body is offered to all eight children. After an
  overflow the slots are empty again, so a divided node later stores bodies
  directly; nothing in the model forbids that. Bodies can be lost (resident `i`
  may lie outside sub-cube `i`), so the tree's contract is one-sided: what is
  stored afterwards was stored before or is the new body, and the new body is
  stored when the call completes.

The tree's shape is the predicate `Valid` (eight children exactly when divided,
child `i` on sub-cube `i`, the same capacity everywhere, disjoint subtrees) and
its contents are the ghost set `Stored`, split as the slots' bodies plus
`Below(j)` for each child slot.

## Model

| member | source | states |
|---|---|---|
| Vectors.Sqrt | src/Vector3.java:42 | the result is non-negative and its square is the argument |
| Vectors.Add | src/Vector3.java:23-25 | componentwise sum; the zero vector is an identity on either side |
| Vectors.Scale | src/Vector3.java:28-30 | scaling by 1 is the identity; scaling by 0 or scaling zero gives zero |
| Vectors.Sub | src/Vector3.java:33-35 | adding b back to a − b gives a; a − b is zero exactly when a == b |
| Vectors.PlusThenMinus | src/Vector3.java:33-35 | (v + w) − w == v |
| Vectors.Distance | src/Vector3.java:39-43 | non-negative, and its square is the sum of the squared component differences |
| Vectors.DistanceSymmetric | src/Vector3.java:39-43 | the distance from a to b equals the distance from b to a |
| Vectors.Norm | src/Vector3.java:46-48 | non-negative, its square is the sum of squared components |
| Vectors.NormOfScaled | src/Vector3.java:46-48 | the length of d·v is abs(d) times the length of v |
| Vectors.Normalized | src/Vector3.java:52-57 | normalize as a value: each component divided by the vector's length; `NormalizedIsUnit` and `NormalizedSameDirection` state its properties |
| Vectors.NormalizedIsUnit | src/Vector3.java:50-57 | a vector of non-zero length normalizes to length 1 |
| Vectors.NormalizedSameDirection | src/Vector3.java:50-57 | scaling the normalized vector by the original length gives the vector back |
| Vectors.Vector3.constructor | src/Vector3.java:10-14 | the vector holds the three given components |
| Vectors.Vector3.Origin | src/Vector3.java:16-20 | the no-argument constructor gives the zero vector |
| Vectors.Vector3.Plus | src/Vector3.java:23-25 | a fresh vector holding the sum; no operand changes |
| Vectors.Vector3.Times | src/Vector3.java:28-30 | a fresh vector holding the scaled value; the receiver does not change |
| Vectors.Vector3.Minus | src/Vector3.java:33-35 | a fresh vector holding the difference; no operand changes |
| Vectors.Vector3.DistanceTo | src/Vector3.java:39-43 | non-negative and equal to the distance of the two values |
| Vectors.Vector3.Length | src/Vector3.java:46-48 | non-negative and equal to the distance to the zero vector |
| Vectors.Vector3.Normalize | src/Vector3.java:52-57 | in place, each component is divided by the length on entry; the new length is 1 |
| Octants.In | src/Octant.java:54-57 | `contains` on a cube: closed at the corner, open at the far side on each axis; only a cube with a positive edge contains anything |
| Octants.InSomeSubCube | src/Octree.java:46-53 | a point lies in the cube exactly when it lies in one of the eight sub-cubes `divide` builds |
| Octants.NonPositiveEdgeIsEmpty | src/Octant.java:54-57 | an octant whose edge is not positive contains no point |
| Octants.CornersOfCube | src/Octant.java:54-57 | with a positive edge the corner is contained and the far corner is not |
| Octants.SubCube | src/Octree.java:45-55 | each of divide's child octants has half the parent's edge |
| Octants.SubCubesPartition | src/Octree.java:46-53 | a point lies in child octant i exactly when the parent contains it and i is its child index |
| Octants.ExactlyOneSubCube | src/Octree.java:46-53 | every point of the parent lies in exactly one child octant |
| Octants.Octant.constructor | src/Octant.java:15-20 | the geometry read by the getters is the given corner and edge; the cache starts empty |
| Octants.Octant.Contains | src/Octant.java:54-57 | the octant contains a point exactly when one of its eight sub-cubes does |
| Octants.Octant.SetMass | src/Octant.java:46-48 | getMass afterwards returns the value; the mass centre is unchanged |
| Octants.Octant.SetMassCenter | src/Octant.java:50-52 | getMassCenter afterwards returns the same vector; the mass is unchanged |
| Bodies.Moved | src/Body.java:34-41 | a move keeps the mass |
| Bodies.MovedObeysNewton | src/Body.java:34-41 | the new movement is the old movement plus force / mass, and the position advances by the new movement |
| Bodies.MovedImpulse | src/Body.java:34-41 | mass · movement changes by exactly the force |
| Bodies.MovedWithoutForce | src/Body.java:34-41 | without force a body keeps its movement and drifts by it |
| Bodies.Merged | src/Body.java:52-57 | the merged mass is the sum of the masses |
| Bodies.MergeConservesMomentum | src/Body.java:50-57 | the merged momentum is the sum of the two momenta, and the merged body sits at the common centre of mass |
| Bodies.MergeCommutes | src/Body.java:52-57 | merging a with b gives the same body as merging b with a |
| Bodies.MergeOfCoincident | src/Body.java:52-57 | two bodies with the same position and movement merge into a body with that position and movement |
| Bodies.Body.constructor | src/Body.java:11-16 | mass, position and movement references are the given ones; the force starts as a new zero vector |
| Bodies.Body.SetGravitationalForce | src/Body.java:18-24 | getGravitationalForce afterwards returns the given vector; nothing else changes |
| Bodies.Body.DistanceTo | src/Body.java:26-28 | non-negative and equal to the distance between the two mass centres |
| Bodies.Body.Move | src/Body.java:34-41 | installs new position and movement vectors whose state is `Moved` of the old state and the force |
| Bodies.Body.Merge | src/Body.java:52-57 | returns a new body with new vectors whose state is `Merged` of the two states; neither body changes |
| Octrees.CountNonNull | src/Octree.java:57-65 | the number of occupied slots is at most the number of slots |
| Octrees.CountFullIffNoEmptySlot | src/Octree.java:20-25 | the count reaches the number of slots exactly when no slot is empty |
| Octrees.FillEmpty | src/Octree.java:21-25 | after the fill loop no slot is empty and occupied slots keep their body |
| Octrees.FillEmptyHolds | src/Octree.java:21-25 | when a slot was empty, the fill adds b and nothing else to the bodies held |
| Octrees.FillEmptyFillsEverySlot | src/Octree.java:21-25 | after one fill the count equals the capacity, whatever the count was |
| Octrees.OneBodyTakesTwoSlots | src/Octree.java:21-25 | with two empty slots one add stores b in both |
| Octrees.FirstEmpty | src/Octree.java:21-25 | the index of an empty slot with no empty slot before it |
| Octrees.FillFirstEmpty | src/Octree.java:21-25 | the fill with a break: b in the first empty slot, every other slot unchanged |
| Octrees.FillFirstEmptyAddsOne | src/Octree.java:21-25 | the fill with a break raises the count by exactly one and adds exactly b |
| Octrees.Octree.constructor | src/Octree.java:13-16 | a valid undivided node with empty slots, no children and nothing stored |
| Octrees.Octree.BodyCount | src/Octree.java:57-65 | the loop returns the number of non-null slots, at most the capacity |
| Octrees.Octree.FillEmptySlots | src/Octree.java:21-25 | the loop leaves the slots equal to `FillEmpty` of the old slots |
| Octrees.Octree.SetChild | src/Octree.java:46-53 | child slot i receives a new empty node on sub-cube i; every other child slot keeps what it held |
| Octrees.Octree.NewLeaf | src/Octree.java:46-53 | `new Octree(new Octant(...))` for sub-cube i: a new, empty, valid leaf of the same capacity whose cell is sub-cube i |
| Octrees.Octree.Divide | src/Octree.java:45-55 | eight new empty children, each a newly allocated node, child i on sub-cube i; the node is divided and valid, and only the slots hold bodies |
| Octrees.Octree.Add | src/Octree.java:18-43 | outside the octant nothing changes; with room, the slots become `FillEmpty` of the old slots and b joins the stored set; full without fuel, nothing changes; full with fuel, the node is divided, old children stay, every slot is empty, child j gains at most b and resident j (each only if it lies in sub-cube j), a child that neither can enter is unchanged, and, when the call completes, a resident lying in its own sub-cube j is stored under child j if b does not lie there; overall nothing but b is gained, and b is stored when the call completes; the call completes outside the octant, with room, and, full with fuel and capacity at least 1, when each resident lies outside its own sub-cube or its child was empty, and b's own child was empty and its slot holds no resident of that sub-cube |
| Octrees.NoneHeldCountsZero | src/Octree.java:57-65 | slots that hold no body count zero |
| Octrees.Octree.EmptyHasRoom | src/Octree.java:57-65 | a subtree that stores nothing has slot count zero |
| Octrees.Octree.ChildHasRoom | src/Octree.java:57-65 | a child whose subtree stores nothing has slot count zero, so it can take a body |
| Octrees.Octree.Store | src/Octree.java:20-25 | the fill branch: slots become `FillEmpty` of the old slots and the stored set gains exactly b |
| Octrees.Octree.Overflow | src/Octree.java:26-41 | the overflow branch: nothing but b is gained and b is stored if the call completes; a child that neither b nor its resident can enter is unchanged, and a resident lying in its own sub-cube j is kept under child j when b does not lie there and the calls complete; with capacity at least 1 the call completes when each resident lies outside its own sub-cube or its child was empty, and b lies outside the octant or its child was empty and its slot holds no resident of that sub-cube |
| Octrees.Octree.DivideOnce | src/Octree.java:27-29 | the node ends divided; a divided node keeps its children; no child subtree's stored set changes |
| Octrees.Octree.Spill | src/Octree.java:27-40 | divides only an undivided node; child j gains at most b and resident j, each only if it lies in sub-cube j; a child neither can enter is unchanged; a resident lying in its own sub-cube j, away from b, is under child j when the calls complete; with capacity at least 1 the calls complete when each resident lies outside its own sub-cube or its child was empty, and b lies outside the octant or its child was empty and its slot holds no resident of that sub-cube |
| Octrees.Octree.PushDown | src/Octree.java:30-37 | every slot ends empty; child m gains at most resident m and only if it lies in sub-cube m, otherwise child m is unchanged; when the calls complete, each resident that lies in its own sub-cube m is under child m; with capacity at least 1 the calls complete when every child that a resident enters was empty |
| Octrees.Octree.PushRound | src/Octree.java:31-36 | slot i is cleared; every child but i is unchanged; child i gains at most resident i, is unchanged unless resident i lies in sub-cube i, and holds it when the call completes; the call completes when resident i cannot enter child i or child i was empty and the capacity is at least 1 |
| Octrees.Octree.PushSlot | src/Octree.java:33-34 | resident i is added to child i and slot i is cleared: the other children are unchanged, child i gains at most resident i and holds it when the call completes and it lies in sub-cube i; otherwise child i is unchanged; the call completes when the resident cannot enter child i or child i was empty and the capacity is at least 1 |
| Octrees.Octree.Offer | src/Octree.java:38-40 | child j gains at most b, only if b lies in sub-cube j; every child whose sub-cube does not contain b is unchanged; b is stored in its own child if the calls complete; they complete when b lies outside the octant or its own child was empty and the capacity is at least 1 |
| Octrees.Octree.AddToChild | src/Octree.java:39 | only child k's subtree changes; it gains at most x, only if x lies in sub-cube k, is unchanged if x lies outside sub-cube k, and holds x if the call completes; the call completes when x lies outside sub-cube k or child k had a free slot |
| Octrees.Octree.ClearSlot | src/Octree.java:34 | slot i becomes null and every child subtree is unchanged |
| Octrees.LostResident | src/Octree.java:30-37 | as written, a stored resident is no longer stored after an overflow (capacity 1, resident at (1.5, 1.5, 1.5), new body at (0.5, 0.5, 0.5)) |
| Octrees.Octree.PushHome | src/Octree.java:30-37 | pushing a resident into the child that contains it keeps it stored and adds nothing; the push completes when that child was empty and the capacity is at least 1 |
| Octrees.OverflowStoresNewBody | src/Octree.java:26-41 | capacity 1 on the cube of edge 2 at the origin, holding r at (1.5, 1.5, 1.5): adding b at (0.5, 0.5, 0.5) completes and stores b |
| Octrees.CapacityOneRun | src/Octree.java:13-43 | from a new tree of capacity 1 on that cube, adding r and then b completes and stores b |

## Left out

- `Simulation.main`, the force and integration passes it calls, and `StopWatch`: drawing, randomness, timing and file output, none of which the tree uses.
- Every `draw` and `toString` method: rendering and formatting only.
- `Body.radius`: a floating-point power of constants, not used by the tree.
- `Body.gravitationalForce`: its result is discarded, so it has no observable effect beyond reading both bodies.
- IEEE 754 rounding: all arithmetic is exact over the reals, so the partition of a cube into its eight children holds exactly here; over doubles `x + L/2` can round.
- The capacity: `src/Octree.java:7` reads a constant the repository does not define (`src/Simulation.java:23` defines `MAX_BODIES_PER_OCTANT = 1`). Here it is a constructor parameter between 0 and 8; more than 8 would index past the eight children in the push loop.
- Octrees.Octree.Add: `fuel` bounds the nesting of recursive calls, because over the reals the recursion need not end (two bodies at the same corner are pushed into child 0 again and again). A call that would recurse with no fuel left changes nothing and reports `completed == false`; the source has no such bound.
- Octrees.Octree.Add: reads the slot count as `CountNonNull` of the slots, the number `BodyCount` is proved to return, rather than calling the `BodyCount` loop.
- Octrees.Octree.Spill: a resident is promised to stay under its child only when b does not lie in the same sub-cube; as written that child then receives b after the resident, may overflow again and push the resident into a grandchild that does not contain it, so no more is claimed. The same holds for `Overflow` and `Add`. Completion is likewise promised only when every child the push step and b enter was empty, the case that recursion at one level down decides without further fuel; for a fuller child it depends on deeper calls and the fuel left.
- Octrees.Octree.Add: the stored set is bounded from above only; as written the push step can lose residents, so no conservation of bodies or mass is claimed.
- Octrees.Octree.Divide: the child array is a sequence-valued field; the source's array is private, never aliased and written only by `divide`. Earlier children of a node divided twice would be dropped; `Add` never divides a divided node.
- Vectors.Sqrt: defined where a non-negative root exists; the model does not prove that every non-negative real has one, so `Distance`, `Norm`, `DistanceTo`, `Length` and `Normalize` require it. `Math.sqrt` of a negative number (NaN) does not arise.
- Vectors.Vector3.Normalize: requires a non-zero length; on the zero vector the source divides 0.0 by 0.0 and every component becomes NaN, which the model over the reals does not represent.
- Bodies.Body.Move: requires a non-zero mass, and Bodies.Body.Merge a non-zero total mass; the source would divide by zero and produce infinities or NaN.
- The octant's mass and mass-centre cache is modelled with its getters and setters, but the tree never fills it.
- The getters `getX`, `getY`, `getZ`, `getLength`, `getMass`, `getMassCenter`, `mass()` and `massCenter()` read constant or reference fields; they are `Octants.Octant.Geometry`, `Octants.Octant.GetMass`, `Octants.Octant.GetMassCenter`, `Bodies.Body.Mass` and `Bodies.Body.MassCenter`, without contracts of their own (the setters' contracts state what the two cache getters return).

## Findings

| source | as written | input that shows it | evidently intended | confidence | as-written member | corrected member |
|---|---|---|---|---|---|---|
| src/Octree.java:21-25 | the fill loop has no break, so one add writes b into every empty slot and the node counts as full at once | capacity 2, both slots empty, add b: both slots hold b | store b in the first empty slot only | not executed; with the capacity 1 the repository uses the two agree | Octrees.OneBodyTakesTwoSlots | Octrees.FillFirstEmptyAddsOne |
| src/Octree.java:33 | resident i is pushed into `children[i]`, which need not contain it, and the slot is cleared anyway | capacity 1, node on the cube of edge 2 at the origin holding a at (1.5, 1.5, 1.5); add b at (0.5, 0.5, 0.5): a goes to child 0, which rejects it | push each resident into the child whose sub-cube contains it | not executed | Octrees.LostResident | Octrees.Octree.PushHome |

`Add` itself keeps both behaviours as written, so that the model of the
insertion path is the program's; `FillFirstEmpty` and `PushHome` are the
corrected steps, each proved against the property the source evidently meant.
