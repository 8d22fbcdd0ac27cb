# Verification of the ElixirEngine core

A Dafny model of the parts of the engine whose correctness is not visible from one function body, with proofs of what they
keep and what they compute. `dafny verify dfyconfig.toml` checks all of it.

- **Lock-free queue and workers.** `AtomicQueue` is the bounded queue as a transition system in which every read of a shared
  field and every compare-and-swap is one step, for any number of threads and for both variants of the code.
  `AtomicQueueInvariant` and `AtomicQueueTheorems` prove that it refines a bounded FIFO and what `Push` and `Pop` may return.
  `AtomicQueueAlone` says what a call without interference does, `AtomicQueueFinish` what has happened when one returns.
  `Jobs` puts the worker threads with their stop and end events on top, `LostJobs` says which jobs are lost, and
  `WorkerProgress` that workers get the others done and come to an end.
- **Octree.** `Geometry` has boxes and octants. `OctreeTree` is the octree as a value with its pool indices;
  `OctreePlacement` and `OctreeIndices` prove where objects are listed and which indices are in use, `OctreeCube` where the
  cells are, `OctreeOrder` in which order a node lists its objects. `OctreeHeap` performs the operations in place on a pool
  of node objects, proved against the value. `OctreeTraversal` and `OctreeWalk` do the same for the two traversals,
  `OctreeReports` says which nodes and objects they report, `OctreeDuplicates` what they report twice. `Frustum` is the
  camera's culling test, `FrustumCulling` says what culling keeps and leaves out. `SegmentClip` is the slab clipper of octree
  objects.
- **Mesh and allocator.** `SphereStrip` is what the sphere's index loops write, `SphereMesh` which triangles that draws,
  `SphereSurface` and `SphereManifold` that they close, `SphereBuffers` the loops on arrays. `Pool` is the best-fit block
  allocator, `PoolLimits` says when it leaves fragments or shares an address.
- **Caches and protocols over the device.** `EffectStates` gives the meaning of the redundant-write filter for one state,
  `EffectStateManager` the four state maps in place. `RenderPasses` is a render target as a state machine,
  `RenderSeparation` says exactly when its passes read another buffer than they write, `RenderDevice` what the device renders
  to, `RenderTarget` is the class and the chain of targets.
- **Stateful data code.** `ProfilingTree` and `Profiling` are the call-tree profiler, `ProfilingEvents` says what its numbers
  mean; `FileMemory` is the growable byte file; `FontFormat`, `FontRoundTrip`, `FontRefusals` and `FontBMF` are the bitmap
  font reader.

Code that the engine writes as loops over fields is a class or a method with a loop here too; its contract ties it to a
function, and the lemmas are about that function. `Residues` and `MapOrder` hold helpers.

## Where the code does less than one expects

- `DisplayCamera::CollisionWithSphere`: at a distance of exactly minus the radius neither test fires, so a ball that only
  touches a plane from behind counts as inside (`Frustum.InExactly`, `Frustum.InIsSeen`, `Frustum.TouchingExample`).
- `OctreeNode::TraverseNoRecursion` does not remove duplicate objects, `Traverse` does: `OctreeDuplicates.NoneTwice` says when
  there are any, `OctreeDuplicates.ReportedTwice` shows some. It uses an override for every node, `Traverse` for the first one
  only: `OctreeDuplicates.PartialOverrideObjects` says when that makes a difference, `OctreeDuplicates.PartialMisses` shows one.
- `OctreeObject::ClipSegment` does not clip on an axis below the threshold, so it can report a hit for a segment that misses
  (`SegmentClip.ReliableExactly`).
- `Pool`: `Size()` starts at minus the capacity (`Pool.SizeIsUnits`). `Free` joins a block to the one before it only
  (`PoolLimits.FreeMerges`, `PoolLimits.FragmentsRemain`). A request for no elements leaves its block available, so its address
  is handed out again (`PoolLimits.SharedNextExactly`, `PoolLimits.EmptyRequestExample`).
- `DisplayStateManager`: a second new value in a pass overwrites the saved one, so `EndPass` restores the wrong value
  (`EffectStates.PassRestores`).
- `DisplayRenderTarget`: a pass of the unknown process, an own buffer as override, or a change of the immediate-write setting
  within a pass breaks the turn of the two buffers (`RenderSeparation.SeparatesExactly`, and one example each). A texture
  that is current already is not set again, although the end of a process, or immediate write, took the device away from it:
  `RenderDevice.PassTarget` says when a pass misses its texture, `RenderDevice.KeptOverrideMisses` shows it for an override
  that is kept for two processes. Immediate write gives the surface back at index 0 only (`RenderDevice.ElsewhereStays`).
- `FileMemory::Write` behind the end of the file can outgrow the new buffer (`FileMemory.GrowthSuffices`).
- `DisplayFont::ReadBlockCommon` ignores the block size (`FontFormat.InStep`, `FontRoundTrip.OversizedCommon`).
- `DisplayFont::Release` keeps the page count when it drops the page names, so a `Create` after it reads past the names
  (`FontRoundTrip.ReleasedCannotLoad`); so does one after a file that was refused behind its common block
  (`FontRoundTrip.RefusedCannotLoad`).
- `DisplayGeometrySphere`: a top hemisphere alone with more than one slice reserves two link indices that nothing writes; the
  zeros there draw a triangle from the last row to the pole (`SphereMesh.StripIsMesh`).
- `JobManager::PushJob` ignores the result of `Push`: a job that finds the queue full is dropped and never
  started (`LostJobs.PushJobs`, `LostJobs.LostForGood`). `JobManager::Release` does not empty the queue: jobs that are stored
  when the last worker has left are never started (`WorkerProgress.LeftForGood`).

## Model

| member | source | states |
|---|---|---|
| AtomicQueueInvariant.InitInv | Core/AtomicQueue.h:36-45 | the constructor starts an empty queue: counters 0, every slot empty with version 0 |
| AtomicQueueInvariant.NextInv | Core/AtomicQueue.h:54-170 | one access of any thread keeps the invariant of the algorithm, under both preprocessor variants, and only grows counters and histories |
| AtomicQueueInvariant.SlotUnchanged | Core/AtomicQueue.h:75-76 | if a slot holds what was read from it, no push or pop went through it in between, whatever happened elsewhere |
| AtomicQueueInvariant.EnqueueKeeps | Core/AtomicQueue.h:73-81 | filling the slot behind the last item is an append to the abstract queue and keeps slots and versions in step |
| AtomicQueueInvariant.DequeueKeeps | Core/AtomicQueue.h:103-112 | emptying the slot of the oldest item removes exactly that item |
| AtomicQueueInvariant.HelpHeadKeeps | Core/AtomicQueue.h:66-67 | helping `head` on never passes an item that was not taken |
| AtomicQueueInvariant.HelpTailKeeps | Core/AtomicQueue.h:69-72 | helping `tail` on never passes a slot that was not filled |
| AtomicQueueInvariant.TicketDrawn | Core/AtomicQueue.h:76-80 | a call draws the next rank exactly with its successful slot CAS |
| AtomicQueueTheorems.RunInv | Core/AtomicQueue.h:54-170 | the invariant holds after every interleaving of any number of threads |
| AtomicQueueTheorems.FifoOrder | Core/AtomicQueue.h:54-170 | in every interleaving the items taken are a prefix of the items stored, and at most `size` are inside |
| AtomicQueueTheorems.StepRefinesFifo | Core/AtomicQueue.h:54-170 | every step of every thread is a push, a pop or no step of a bounded FIFO, and only the two slot CASes change it |
| AtomicQueueTheorems.SlotCasOnTime | Core/AtomicQueue.h:75-76 | a slot CAS succeeds only at the position next in line; one on an outdated value fails |
| AtomicQueueTheorems.CountersLag | Core/AtomicQueue.h:60-80 | `head <= tail <= head + size`, and each counter lags its end of the abstract queue by at most one |
| AtomicQueueTheorems.VersionParity | Core/AtomicQueue.h:75-76 | a slot's version counts its fills and empties, and the slot is full exactly if it is odd |
| AtomicQueueTheorems.PushResult | Core/AtomicQueue.h:56-83 | `Push` true: its item was stored once; false: nothing was stored and at some moment of the call the queue held `size` items |
| AtomicQueueTheorems.PopResult | Core/AtomicQueue.h:86-114 | `Pop` true: it returns the item it took; false: nothing was taken and at some moment of the call the queue was empty |
| AtomicQueueTheorems.TicketUnique | Core/AtomicQueue.h:103-112 | two calls that return true never share a slot CAS: no item is handed out twice |
| AtomicQueueTheorems.LockFree | Core/AtomicQueue.h:58-113 | the rounds and accesses of a call are bounded by the operations that took effect since it began |
| AtomicQueueAlone.PushAlone | Core/AtomicQueue.h:54-83 | a `Push` that no other thread interferes with returns within 41 steps; it returns false exactly if the queue held `size` items when it began, and else its item is appended |
| AtomicQueueAlone.PopAlone | Core/AtomicQueue.h:86-114 | a `Pop` that no other thread interferes with returns within 41 steps; it returns false exactly if the queue was empty when it began, and else it hands out the oldest item and removes it |
| AtomicQueueTheorems.PushedZeroIsPassedOver | Core/AtomicQueue.h:69-75 | why 0 is no item: a push of 0 counts as stored, and a pop that reads the slot and goes on undisturbed does not come to take it |
| AtomicQueueFinish.CounterHasPassed | Core/AtomicQueue.h:56-113 | whatever the other threads do, `tail` is past an item when its `Push` returns true, and `head` is past it when its `Pop` does |
| Jobs.ActKeeps | Core/Job.cpp:81-116 | every step of a worker, an owner, a job or a client keeps events, phases and tickets in agreement (that workers get anything done is in WorkerProgress) |
| Jobs.StartedOnce | Core/Job.cpp:85-92 | over all workers each accepted push is started at most once, and the job started with rank t is the t-th accepted push |
| Jobs.ReleasedIsOver | Core/Job.cpp:97-110 | once `Release` is past its wait, its worker takes no step any more, in every continuation of the run |
| Jobs.NoneLost | Core/Job.cpp:85-94 | when all workers have left, exactly the items taken from the queue were started: a stop loses no job in hand |
| Jobs.InHand | Core/Job.cpp:195-203 | the job `PopJob` hands out is in the hands of one worker only |
| LostJobs.PushJobs | Core/Job.cpp:189-193 | a client that pushes jobs one after the other, from any state of the system and with no other thread moving: the first jobs are stored, as many as there was room for; for each other one `Push` returns false, and `PushJob` does not look |
| LostJobs.JobsAreLost | Core/Job.cpp:189-193 | such a run from the start: exactly the first `size` jobs are stored, so with more than that jobs are lost |
| LostJobs.LostForGood | Core/Job.cpp:189-193 | a job that was not stored is never started, in any continuation of the run in which it is not pushed again |
| LostJobs.FullQueueDrops | Core/Job.cpp:189-193 | in any run of the job system a push that returned false stored nothing, and at some moment of the call the queue held `size` jobs |
| WorkerProgress.TakeOne | Core/Job.cpp:81-95 | from any reachable state, a waiting worker that was not told to stop and moves alone has started the oldest stored job within 42 actions, and no other; with an empty queue it is back at its wait |
| WorkerProgress.EmptyQueue | Core/Job.cpp:81-95 | going on alone, it starts all stored jobs in the order in which they were stored, with at most 43 actions for each |
| WorkerProgress.StopsInTwo | Core/Job.cpp:85-94 | a waiting worker that was told to stop is at its end after two actions, and sets its end event |
| WorkerProgress.ToWait | Core/Job.cpp:85-92 | a worker in the middle of a pop, a job or a push of its job comes back to its wait if it moves alone |
| WorkerProgress.AllCanStart | Core/Job.cpp:81-95 | from every reachable state with a worker that was not told to stop, whatever the other threads are in the middle of, moves of workers and their jobs alone lead to a state in which every stored job was started |
| WorkerProgress.ReleaseEnds | Core/Job.cpp:97-110 | from every reachable state, moves of a worker, its job and its owner alone bring its `Release` past its wait |
| WorkerProgress.LeftForGood | Core/Job.cpp:174-187 | once all workers are at their end no job is started any more: what is stored stays in the queue |
| Geometry.MeetsIsSharing | Core/OctreeNode.cpp:165-185 | the six rejection tests are passed exactly if the two boxes share a point |
| Geometry.ChildCube | Core/OctreeNode.cpp:196-215 | the box the parent keeps for a child is the cube that the child computes from the center it is given |
| Geometry.ChildrenCover | Core/OctreeNode.cpp:62-100 | an object box that meets a cell meets one of its eight child boxes |
| OctreeIndices.NewNodeKeeps | Core/Octree.cpp:121-127 | `NewNode` hands out an index that was not in use, and the two index lists still partition the pool |
| OctreeIndices.DeleteNodeKeeps | Core/Octree.cpp:129-137 | `DeleteNode` moves an index from the one list to the other |
| OctreePlacement.AddPlaced | Core/OctreeNode.cpp:132-244 | `AddObject` puts the object on the list of every cell it meets, once, and nowhere else; it returns whether the object meets the cell |
| OctreePlacement.RemovePlaced | Core/OctreeNode.cpp:246-324 | `RemoveObject` takes it off all of them, and drops exactly the children that list nothing any more |
| OctreePlacement.StillWanted | Core/OctreeNode.cpp:300-318 | a node lists nothing exactly if no object of the index meets its cell, and then it has no children |
| OctreeIndices.AddBalanced | Core/OctreeNode.cpp:190-222 | `AddObject` takes from the pool exactly the indices of the nodes it creates |
| OctreeIndices.RemoveBalanced | Core/OctreeNode.cpp:300-318 | `RemoveObject` gives back exactly the indices of the nodes it drops |
| OctreeIndices.RunOk | Core/Octree.cpp:111-119 | after any run of additions and removals the tree is the one the remaining objects call for, and the indices in use are those of its nodes |
| OctreeIndices.EveryNodeExact | Core/OctreeNode.cpp:132-324 | an object is listed at a live node exactly once iff it is in the index and its box shares a point with the cell; live nodes but the root list something |
| OctreeIndices.IndicesDistinct | Core/Octree.cpp:121-144 | nodes have different pool indices, no child has index 0, and the other indices are available |
| OctreeIndices.ReusesLast | Core/Octree.cpp:121-144 | the pool hands out the index given back last, and grows by one if it has none |
| OctreeCube.RunRoot | Core/Octree.cpp:38-48 | after any run the root has the center and the depth asked for, and its edge halved once per level is the leaf size asked for |
| OctreeCube.LeafEdge | Core/OctreeNode.cpp:190-215 | after any run a node of depth 0 has the edge of a leaf, and the edge of any node halved down to depth 0 is that |
| OctreeCube.AddsInside | Core/Octree.cpp:111-114 | after any run `AddObject` answers true exactly if the box shares a point with the cube around the center whose edge, halved once per level, is the leaf size |
| OctreeCube.NodeLists | Core/OctreeNode.cpp:132-244 | after any run a node lists exactly the objects of the index whose box shares a point with the cube of its level around its center |
| OctreeOrder.AddTwice | Core/OctreeNode.cpp:190-240 | adding an object that is in the index takes no node, changes no list and gives the same answer |
| OctreeOrder.ListsInOrder | Core/OctreeNode.cpp:132-324 | after any run every node lists its objects in the order in which they came into the index |
| OctreeHeap.Octree.NewNode | Core/Octree.cpp:121-144 | the pool object grows or reuses a node object as the list function says |
| OctreeHeap.Octree.DeleteNode | Core/Octree.cpp:129-137 | the two lists in place |
| OctreeHeap.Octree.Release | Core/OctreeNode.cpp:110-125 | a node gives its children's indices back and forgets its links and objects |
| OctreeHeap.Octree.CreateNode | Core/OctreeNode.cpp:35-103 | the fields of a created node, with all links cleared |
| OctreeHeap.Octree.CreateChild | Core/OctreeNode.cpp:190-215 | a missing child is created in the pool and linked; nothing else of the pool changes |
| OctreeHeap.Octree.AddObjectAt | Core/OctreeNode.cpp:132-244 | recursive insertion in place computes the tree function, and touches no node outside its subtree that is in use |
| OctreeHeap.Octree.RemoveObjectAt | Core/OctreeNode.cpp:246-324 | recursive removal in place, with the same frame |
| OctreeHeap.Octree.DropChild | Core/OctreeNode.cpp:306-316 | an empty child is released, given back and unlinked |
| OctreeHeap.Octree.Create | Core/Octree.cpp:30-53 | refused for depth 0 or no leaf size, else an empty octree whose root has index 0, the center and depth asked for, and an edge whose halvings give the leaf size |
| OctreeHeap.Octree.AddObject | Core/Octree.cpp:111-114 | keeps the whole invariant in place, adds the object, keeps the root where it is, and returns whether the box shares a point with the root's cube |
| OctreeHeap.Octree.RemoveObject | Core/Octree.cpp:116-119 | keeps it, removes the object, and returns whether it was in and shares a point with the root's cube |
| OctreeTraversal.TraversalsAgree | Core/OctreeNode.cpp:326-431 | without an override both traversals report each node, and each list entry, equally often |
| OctreeTraversal.SameObjects | Core/OctreeNode.cpp:326-431 | they find the same set of objects, and the recursive one lists none twice |
| OctreeTraversal.ReportedOnce | Core/OctreeNode.cpp:372-431 | no node is reported twice |
| OctreeTraversal.StoppingOverride | Core/OctreeNode.cpp:329-330 | an override NONE or FULL makes both report the same, in the same order |
| OctreeTraversal.PartialOverride | Core/OctreeNode.cpp:347 | an override PARTIAL is not passed to the children by the recursive traversal: the two report the same nodes exactly if the classifier would open every node below |
| OctreeTraversal.PlacedBranches | Core/OctreeNode.cpp:300-318 | the trees that insertion and removal build have a child at every inner node that lists something |
| OctreeReports.ObjectsExactly | Core/OctreeNode.cpp:326-431 | both traversals report an object exactly if it is listed at a leaf that is not OUTSIDE or an inner node that is FULL, reached through PARTIAL inner nodes only |
| OctreeReports.NodesExactly | Core/OctreeNode.cpp:326-431 | they report exactly the nodes reached that way that are leaves and not OUTSIDE, or inner nodes and PARTIAL or FULL |
| OctreeReports.OverriddenReport | Core/OctreeNode.cpp:329-345 | with an override NONE nothing, with FULL the first node and its list |
| OctreeDuplicates.NoneTwice | Core/OctreeNode.cpp:372-431 | the stack traversal, with any override, reports no object twice exactly if no object of the index meets the cells of two leaves or FULL nodes that it reaches |
| OctreeDuplicates.ReportedTwice | Core/OctreeNode.cpp:372-431 | a tree, built by one `AddObject`, in which it reports the one object more than once, and the recursive traversal once |
| OctreeDuplicates.PartialFindsAll | Core/OctreeNode.cpp:372-431 | with the override PARTIAL the stack traversal finds exactly what the node lists |
| OctreeDuplicates.PartialOverrideObjects | Core/OctreeNode.cpp:347 | with the override PARTIAL both find the same objects exactly if every object in the cell meets a leaf or FULL node below to which the classifier opens the way |
| OctreeDuplicates.PartialMisses | Core/OctreeNode.cpp:347 | an input where they differ: everything OUTSIDE, and the override PARTIAL |
| OctreeWalk.Traverse | Core/OctreeNode.cpp:326-370 | the recursion on the pool of nodes appends exactly the report of the tree |
| OctreeWalk.TraverseNoRecursion | Core/OctreeNode.cpp:372-431 | the explicit-stack loop ends, by the number of nodes below the stack, and appends exactly the report of the tree |
| OctreeWalk.TraverseMode | Core/Octree.cpp:97-109 | from any node of the octree, or the root: an unknown mode reports nothing; a known one appends the report of the node, with no node twice and only objects of the index |
| OctreeWalk.Cull | Core/Octree.cpp:97-109 | end to end: an object of the index is reported exactly if it meets a node wholly inside the frustum, or a leaf that is not behind it, reached through nodes that are cut; so every object with a visible point in the root cell is |
| Frustum.NormalizeKeepsSides | Display/Camera.cpp:530-534 | normalizing gives a unit normal and keeps the sides of the plane |
| Frustum.ExtractFrustumPlanes | Display/Camera.cpp:529-534 | the camera sees a point exactly if all six given planes do |
| Frustum.CollisionWithSphere | Display/Camera.cpp:321-350 | the loop answers OUT exactly if the first plane that the ball does not pass has it wholly behind, and INTERSECT exactly if that plane cuts it |
| Frustum.OutExactly | Display/Camera.cpp:334-346 | the same of the function, from any plane on: a ball passes a plane if it is in front of it or touches it from behind |
| Frustum.UnitProjection | Display/Camera.cpp:331-332 | a unit normal does not lengthen a vector (Cauchy-Schwarz) |
| Frustum.BallDistance | Display/Camera.cpp:331-332 | the points of a ball are at most the radius nearer to a plane than its center, and the four-component product with w = 0 plus the stored distance is the distance of the center |
| Frustum.OutIsOut | Display/Camera.cpp:334-339 | a ball reported OUT has no visible point |
| Frustum.InExactly | Display/Camera.cpp:327-347 | a ball is reported IN exactly if for every plane it lies on the positive side or touches the plane from behind |
| Frustum.InIsSeen | Display/Camera.cpp:327-347 | a ball reported IN is visible throughout exactly if no plane touches it from behind: at distance -radius neither test fires |
| Frustum.TouchingExample | Display/Camera.cpp:334-346 | a closed frustum and a ball that touches it from outside: reported IN, with its center outside; for instance the planes at distance 10 and the ball of radius 1 around (-11, 0, 0) |
| Frustum.CubeCameraSees | Display/Camera.cpp:529-534 | that frustum is closed: it sees exactly the points of a cube |
| Frustum.CellInBall | Core/OctreeNode.cpp:52 | a node's cell lies in the ball of radius |(h, h, h)| around its center |
| Frustum.BallIsTight | Core/OctreeNode.cpp:52 | that ball is the smallest around the center that contains the cell |
| Frustum.FrustumComplete | Display/OctreeTraverseFuncFrustum.cpp:22-40 | both traversals with the frustum classifier report every object whose box has a visible point in the root cell |
| Frustum.FullIsVisible | Display/OctreeTraverseFuncFrustum.cpp:31-34 | the ball of a node classified FULL has only visible points exactly if no plane touches it from behind, and then so has its cell |
| FrustumCulling.VerdictExactly | Display/OctreeTraverseFuncFrustum.cpp:22-40 | the verdict on a node by distances: FULL if all planes have its ball in front or touching, PARTIAL if the first other plane cuts it, NONE if that plane has it behind |
| FrustumCulling.CulledExactly | Display/OctreeTraverseFuncFrustum.cpp:22-40 | both traversals with the frustum classifier report exactly the objects that meet such an inside node or unhidden leaf, reached through cut nodes |
| FrustumCulling.BehindIsLeftOut | Display/OctreeTraverseFuncFrustum.cpp:40 | an object is left out if every leaf it meets is behind the frustum and no node it meets is inside |
| FrustumCulling.RootBehind | Display/OctreeTraverseFuncFrustum.cpp:40 | if the ball of the root is behind the frustum, nothing is reported |
| FrustumCulling.BehindExample | Display/Camera.cpp:334-339 | a ball beyond a face of the cube frustum is OUT, for instance that of radius 1 around (-100, 0, 0) at half width 10 |
| SegmentClip.ClipSegmentAxis | Core/OctreeObject.cpp:179-219 | one axis in place; the last test `t1 < t0` never fires |
| SegmentClip.AxisExact | Core/OctreeObject.cpp:194-216 | an axis that is not below the threshold is clipped to exactly the parameters inside the slab |
| SegmentClip.ClipSegment | Core/OctreeObject.cpp:221-247 | the three axes in turn, and the points A and B are moved to |
| SegmentClip.ClipSound | Core/OctreeObject.cpp:221-247 | a point of the segment in the box is never clipped away: the answer no is always right |
| SegmentClip.ClipExact | Core/OctreeObject.cpp:221-247 | if every component of the direction is 0 or not below the threshold, the interval is exactly the part of the segment in the box |
| SegmentClip.ReliableExactly | Core/OctreeObject.cpp:181-192 | the answer yes is right for all boxes and starting points exactly if every component of the direction is 0 or not below the threshold, or only one is not 0 |
| SegmentClip.TrapWorks | Core/OctreeObject.cpp:181-192 | for every other direction, a box that is reported hit and is missed |
| SegmentClip.RayIntersect | Core/OctreeObject.cpp:81-86 | a ray that meets the box is reported, and its points in the box lie between the two points returned |
| Pool.Pool.constructor | Core/Pool.h:46-61 | one available block, and a size of minus the capacity modulo 2^32 |
| Pool.Pool.Reserve | Core/Pool.h:74-93 | the same state as a new pool |
| Pool.Pool.Alloc | Core/Pool.h:95-127 | no address exactly if no single available block is large enough, else the first smallest one that is |
| Pool.Pool.Search | Core/Pool.h:101-119 | the search loop finds the best fit, with its early exit on an exact one |
| Pool.Pool.Free | Core/Pool.h:129-137 | an unknown address is ignored; a known block goes back, joined to the block that ends at it |
| Pool.Pool.Clear | Core/Pool.h:139-146 | everything available, size 0 |
| Pool.Pool.AddToAvailable | Core/Pool.h:160-186 | the merge loop: joins to the first preceding block only, and subtracts from the size modulo 2^32 |
| Pool.AllocatedTiled | Core/Pool.h:95-127 | `Alloc` hands out available elements only, and every element is still in exactly one block |
| Pool.FreedTiled | Core/Pool.h:129-137 | `Free` returns exactly the elements of the block |
| Pool.NothingLost | Core/Pool.h:95-146 | elements in use and available elements add up to the buffer |
| Pool.RunTiled | Core/Pool.h:46-146 | after any calls the blocks tile the buffer, and `Size()` differs from the elements in use by a constant of the last reset, modulo 2^32 |
| Pool.SizeIsUnits | Core/Pool.h:154-158 | `Size()` is the number of elements in use exactly if that constant is 0: never before the first `Clear`, unless the capacity is 0 |
| Pool.RunCapacity | Core/Pool.h:74-146 | after any calls the capacity is that of the last `Reserve` or of the constructor; after `Clear` nothing is in use and the whole buffer can be handed out |
| PoolLimits.FreeMerges | Core/Pool.h:129-186 | `Free` in a state without fragments leaves none exactly if no available block begins where the freed one ends: it joins to the block before only |
| PoolLimits.AllocMerges | Core/Pool.h:95-127 | `Alloc` leaves none |
| PoolLimits.RunMerges | Core/Pool.h:46-186 | a run never has fragments exactly if every `Free` in it is of that kind |
| PoolLimits.MergedIsWhole | Core/Pool.h:95-127 | without fragments a pool with everything available can hand out its whole buffer |
| PoolLimits.FragmentsRemain | Core/Pool.h:166-178 | a run with another `Free`: everything is available, and the whole buffer cannot be handed out |
| PoolLimits.SharesExactly | Core/Pool.h:95-127 | `Alloc` hands out an address that is in use exactly if the best fit begins where a block of no elements is in use |
| PoolLimits.SharedNextExactly | Core/Pool.h:107-125 | after a request was served, some next one is served with the same address exactly if the first asked for no elements and the capacity is not 0 |
| PoolLimits.RunNeverShares | Core/Pool.h:95-127 | in a run whose requests all asked for elements no address in use is handed out |
| PoolLimits.EmptyRequestShares | Core/Pool.h:107-125 | a new pool, a request for none and one for n elements: both get address 0, and one block replaces the other |
| PoolLimits.EmptyRequestExample | Core/Pool.h:107-125 | such requests: capacity 10, then 0 and 5 elements |
| MapOrder.KeysInOrder | Core/Pool.h:101-119 | iteration over a std::map: all keys, ascending |
| EffectStates.RunCoherent | Display/EffectStateManager.cpp:33-190 | after any calls in any order a cached value is the device's value |
| EffectStates.FilterIsInvisible | Display/EffectStateManager.cpp:33-54 | the device is at every point as under a manager without a cache that writes every time and, as this one, saves a value for `EndPass` only when it changes; one that saved on every write would restore other values |
| EffectStates.ResetRecovers | Display/EffectStateManager.cpp:355-359 | a device changed behind the manager's back: after `Reset` the cache tells the truth again, whatever calls follow, and the next write reaches the device |
| EffectStates.PassLeaves | Display/EffectStateManager.cpp:361-376 | a pass leaves a state with the last but one of the values it went through |
| EffectStates.PassRestores | Display/EffectStateManager.cpp:361-376 | so `EndPass` restores a state exactly if the last but one value is the first; always for at most one new value, never for exactly two |
| EffectStates.SecondChangeIsKept | Display/EffectStateManager.cpp:43 | two new values in a pass: the second save overwrites the first, and the first new value stays on the device |
| EffectStateManager.States.SetRenderState | Display/EffectStateManager.cpp:33-54 | this write in place: state by state what the calls mean, no other state changes, and duplicates are counted instead of written |
| EffectStateManager.States.SetTexture | Display/EffectStateManager.cpp:56-77 | this write in place: state by state what the calls mean, no other state changes, and duplicates are counted instead of written |
| EffectStateManager.States.SetTextureStageState | Display/EffectStateManager.cpp:79-101 | this write in place: state by state what the calls mean, no other state changes, and duplicates are counted instead of written |
| EffectStateManager.States.SetSamplerState | Display/EffectStateManager.cpp:103-125 | this write in place: state by state what the calls mean, no other state changes, and duplicates are counted instead of written |
| EffectStateManager.States.RestoreRenderState | Display/EffectStateManager.cpp:128-138 | every saved state of this kind goes back to the device and the global cache, and no other |
| EffectStateManager.States.RestoreTexture | Display/EffectStateManager.cpp:140-150 | every saved state of this kind goes back to the device and the global cache, and no other |
| EffectStateManager.States.RestoreTextureStageState | Display/EffectStateManager.cpp:152-170 | every saved state of this kind goes back to the device and the global cache, and no other |
| EffectStateManager.States.RestoreSamplerState | Display/EffectStateManager.cpp:172-190 | every saved state of this kind goes back to the device and the global cache, and no other |
| EffectStateManager.Manager.Set | Display/EffectStateManager.cpp:255-293 | a write is skipped, and counted as a duplicate, exactly if its value is cached; each other write reaches the device once |
| EffectStateManager.Manager.EndPass | Display/EffectStateManager.cpp:368-385 | all four kinds are restored |
| EffectStateManager.Manager.BeginPass | Display/EffectStateManager.cpp:361-366 | forgets what was saved, and nothing else |
| EffectStateManager.Manager.Reset | Display/EffectStateManager.cpp:355-359 | forgets both caches and the counts |
| EffectStateManager.Manager.Perform | Display/EffectStateManager.cpp:255-385 | any sequence of calls in place is, state by state, the run of the meaning |
| RenderPasses.AcceptedInOrder | Display/RenderTarget.cpp:248-341 | whatever calls are made, those that take effect follow begin, (begin pass, end pass)*, end |
| RenderPasses.AcceptedExactly | Display/RenderTarget.cpp:248-341 | a call takes effect exactly if the target is enabled and the call may come next in that order |
| RenderPasses.RunPlaced | Display/RenderTarget.cpp:248-409 | over every steady run the buffer to write next is not the one written last |
| RenderPasses.PassSeparates | Display/RenderTarget.cpp:269-304 | over every steady run a post-process pass writes to buffer 0 or 1, never the original, and reads another texture |
| RenderPasses.OwnPassSeparates | Display/RenderTarget.cpp:285-294 | a pass does so exactly if the current texture is not the buffer to write |
| RenderPasses.PassesAlternate | Display/RenderTarget.cpp:269-322 | the second of two passes reads what the first wrote, and writes the other buffer |
| RenderSeparation.SeparatesExactly | Display/RenderTarget.cpp:248-409 | over every call order, after a pass has ended: the next post-process pass separates exactly if a normal process began since, or that pass did not end with the texture written last being the buffer whose turn is next |
| RenderSeparation.FirstPassSeparates | Display/RenderTarget.cpp:248-409 | before a pass has ended it always does |
| RenderSeparation.PassKeepsApart | Display/RenderTarget.cpp:269-322 | when a pass leaves the buffers in order, for every process, override and change of the setting in it |
| RenderSeparation.NotApartReadsItself | Display/RenderTarget.cpp:285-294 | otherwise the next pass reads the buffer it was last directed to write, and is not redirected |
| RenderSeparation.UnknownProcessReadsItself | Display/RenderTarget.cpp:248-322 | calls on a new target with a begin of the unknown process, after which a post-process pass reads the buffer that it is to write and is not redirected |
| RenderSeparation.OwnOverrideReadsItself | Display/RenderTarget.cpp:295-300 | calls on a new target with an own buffer as override, after which a pass reads and writes that buffer |
| RenderSeparation.ToggledPassReadsItself | Display/RenderTarget.cpp:392-409 | calls on a new target that is not the primary one, with a change of the setting in a pass, after which a pass reads and writes the same buffer |
| RenderPasses.ProcessRestores | Display/RenderTarget.cpp:248-409 | a process gives the device back, whatever calls are made in it: the surface from before it at index 0, none elsewhere |
| RenderDevice.TurnExactly | Display/RenderTarget.cpp:259-330 | over every run: the buffer whose turn it is, and whether the original buffer is to be filled, told from the calls |
| RenderDevice.SettingsExactly | Display/RenderTarget.cpp:248-409 | over every run: mode, pass index, override, enabled and immediate write are those of the last call that gave them |
| RenderDevice.RunBound | Display/RenderTarget.cpp:278-317 | over every run: textures are bound for reading exactly within post-processing passes |
| RenderDevice.SwapExactly | Display/RenderTarget.cpp:269-341 | `SwapOccured` says whether the last begin, pass or end call directed the target to another texture than its last one |
| RenderDevice.DeviceInProcess | Display/RenderTarget.cpp:248-409 | within a process of any run the device renders to the surface from before it, or to the target's current texture; which of the two is told by the calls, and with immediate write at index 0 it is the surface |
| RenderDevice.PassTarget | Display/RenderTarget.cpp:276-302 | what the device renders to after a pass of any run began that directs its target: the override, else the original buffer in a first process, else the buffer whose turn it is; except if that was the current texture while the device was at the surface, where it stays |
| RenderDevice.NormalPass | Display/RenderTarget.cpp:283-302 | the first pass of a normal process without immediate write always renders there, and reports a swap |
| RenderDevice.StaysInPass | Display/RenderTarget.cpp:269-409 | in a pass the device stays where it is until immediate write is switched on |
| RenderDevice.ElsewhereStays | Display/RenderTarget.cpp:392-409 | immediate write switched on in a pass gives the surface back at index 0 and leaves the device alone elsewhere |
| RenderDevice.KeptOverrideMisses | Display/RenderTarget.cpp:295-300 | calls from a new target: an override kept for two processes, whose second pass renders to the surface in place of it |
| RenderTarget.DisplayRenderTarget.RenderBegin | Display/RenderTarget.cpp:248-267 | the fields and the device after the call are those of the state machine |
| RenderTarget.DisplayRenderTarget.RenderBeginPass | Display/RenderTarget.cpp:269-304 | the fields and the device after the call are those of the state machine |
| RenderTarget.DisplayRenderTarget.RenderEndPass | Display/RenderTarget.cpp:306-322 | the fields and the device after the call are those of the state machine |
| RenderTarget.DisplayRenderTarget.RenderEnd | Display/RenderTarget.cpp:324-341 | the fields and the device after the call are those of the state machine |
| RenderTarget.DisplayRenderTarget.SetEnabled | Display/RenderTarget.cpp:348-352 | the fields and the device after the call are those of the state machine |
| RenderTarget.DisplayRenderTarget.SetRTOverride | Display/RenderTarget.cpp:374-390 | the fields and the device after the call are those of the state machine |
| RenderTarget.DisplayRenderTarget.SetImmediateWrite | Display/RenderTarget.cpp:392-409 | the fields and the device after the call are those of the state machine |
| RenderTarget.DisplayRenderTargetChain.RenderBegin | Display/RenderTarget.cpp:476-491 | the loop reaches every target that it should, once, and no other |
| RenderTarget.DisplayRenderTargetChain.RenderBeginPass | Display/RenderTarget.cpp:493-513 | the loop reaches every enabled target once, and reports whether any was redirected |
| RenderTarget.DisplayRenderTargetChain.RenderEndPass | Display/RenderTarget.cpp:515-528 | the loop reaches every target that it should, once, and no other |
| RenderTarget.DisplayRenderTargetChain.RenderEnd | Display/RenderTarget.cpp:530-545 | the loop reaches every target that it should, once, and no other |
| RenderTarget.DisplayRenderTargetChain.SetImmediateWrite | Display/RenderTarget.cpp:596-609 | the loop reaches every target that it should, once, and no other |
| ProfilingTree.EnterInv | Core/Profiling.cpp:53-67 | entering a scope keeps call tree, summary and clock in agreement |
| ProfilingTree.LeaveInv | Core/Profiling.cpp:69-91 | leaving the innermost scope does too |
| ProfilingTree.SpentPop | Core/Profiling.cpp:86-90 | the time of a scope that ends is booked in its node instead of being open: none is lost or counted twice |
| ProfilingTree.BelowAdvance | Core/Profiling.cpp:69-91 | as the clock goes on, at most one child of a node is open, and only with the node |
| ProfilingTree.FlatIsSummary | Core/Profiling.cpp:78-85 | after any well-nested run, even within scopes, a tag's flat count, longest and shortest are those over its call-tree nodes, and its flat total is that of the nodes with no ancestor of the same tag |
| ProfilingTree.ChildrenWithin | Core/Profiling.cpp:53-91 | when all scopes have ended, the children of a node took at most as much time as the node |
| ProfilingEvents.FlatExactly | Core/Profiling.cpp:78-85 | after every legal run the flat count of a tag is the number of scopes with the tag that ended, longest and shortest are the largest and smallest of their times, and the total is the time of those not nested in one with the same tag |
| ProfilingEvents.NodeExactly | Core/Profiling.cpp:87-90 | the same for each call-tree node and the scopes that ended with its path |
| ProfilingEvents.NodesAreCalled | Core/Profiling.cpp:62-64 | the call tree has a node exactly for every path along which a scope was entered |
| ProfilingEvents.AllEnded | Core/Profiling.cpp:53-91 | every leave event of a legal run ends one scope |
| Profiling.Profiler.CallFor | Core/Profiling.cpp:62-64 | the node of a new scope is found or created, at the root or below the current node |
| Profiling.Profiler.Enter | Core/Profiling.cpp:53-67 | the linked call tree in place follows the tree by paths |
| Profiling.Profiler.Leave | Core/Profiling.cpp:69-91 | so do the node, the flat summary and the way back to the enclosing scope (what they count is in ProfilingEvents) |
| FileMemory.FileMemory.Open | Core/FileMemory.cpp:54-67 | a file opened for reading holds the bytes read, in a buffer of whole blocks |
| FileMemory.FileMemory.Seek | Core/FileMemory.cpp:123-144 | the cursor from the start, the end or itself; it may leave the file |
| FileMemory.FileMemory.Read | Core/FileMemory.cpp:146-158 | exactly the bytes that are there, from any cursor |
| FileMemory.FileMemory.Write | Core/FileMemory.cpp:160-188 | a write within the file overwrites or extends it and keeps all other bytes; one behind the end keeps the old bytes and puts the new ones at the cursor |
| FileMemory.FileMemory.Grow | Core/FileMemory.cpp:168-178 | growth keeps the contents |
| FileMemory.PiecesReadBack | Core/FileMemory.cpp:146-188 | what was written at a place in the file in any pieces is read back from there in any pieces |
| FileMemory.OthersSurvive | Core/FileMemory.cpp:160-188 | bytes that a write does not cover survive it |
| FileMemory.WritesJoin | Core/FileMemory.cpp:160-188 | any writes in a row are one write of their data joined |
| FileMemory.ReadsJoin | Core/FileMemory.cpp:146-158 | any reads in a row are one read of their total size, also at the end of the file |
| FileMemory.GrowthSuffices | Core/FileMemory.cpp:166 | the growth formula makes room exactly if the cursor is not too far past the capacity; within the file it always does |
| FontRoundTrip.RoundTrip | Display/FontBMF.cpp:278-374 | a well-formed version 3 font file loads and gives back info, common, pages, characters and kernings exactly if its textures are found, the font object holds a name for each page it counts, and no name has 2^31 bytes; else `Release` reads past the names, or a buffer is used that was not read into |
| FontRoundTrip.LoadedIsNamed | Display/FontBMF.cpp:278-374 | a new font object holds those names, and so does one after any load that succeeded |
| FontRoundTrip.ReleasedCannotLoad | Display/FontBMF.cpp:361-374 | after `Release` it does not, exactly if it had pages, and no file can be loaded |
| FontRoundTrip.LoadReleaseLoad | Display/FontBMF.cpp:278-374 | such a sequence: load a well-formed file, `Release`, load anything |
| FontRoundTrip.RefusedCannotLoad | Display/FontBMF.cpp:278-374 | another one: a file refused between its common and its page block, then load anything |
| FontRoundTrip.InfoBack | Display/FontBMF.cpp:414-446 | the info block is read back, with its name |
| FontRoundTrip.CommonBack | Display/FontBMF.cpp:448-464 | so is the common block |
| FontRoundTrip.PagesBack | Display/FontBMF.cpp:466-487 | so are the page names, all of one length |
| FontRoundTrip.CharsBack | Display/FontBMF.cpp:489-529 | so are the characters, with different ids |
| FontRoundTrip.KerningsBack | Display/FontBMF.cpp:531-551 | so are the kernings |
| FontRoundTrip.BlockStep | Display/FontBMF.cpp:294-345 | one round of the block loop takes one block |
| FontFormat.InStep | Display/FontBMF.cpp:414-551 | on any input, a reader that accepts a block takes exactly the block size, or what is left of the file if that is less; but the common block does so exactly if it would with the size 15 |
| FontRoundTrip.OutOfStep | Display/FontBMF.cpp:448-464 | a common block of size 20, with 20 bytes: the loop goes on five bytes before its end |
| FontRoundTrip.OversizedCommon | Display/FontBMF.cpp:294-345 | where these are zeros the file is refused, whatever well-formed blocks follow |
| FontFormat.NeverLonger | Display/FontBMF.cpp:414-551 | no reader goes back, so the block loop ends |
| FontRefusals.HeaderExactly | Display/FontBMF.cpp:405-412 | a header is accepted exactly if the file begins with BMF; of a shorter file that agrees so far, letters are compared that were never read |
| FontRefusals.CharsExactly | Display/FontBMF.cpp:497-507 | written characters are accepted exactly if no id is repeated or known |
| FontRefusals.ShortRead | Display/FontBMF.cpp:416-464 | a read at the end of the file gets the bytes that are left, and leaves the others as they were |
| FontRefusals.EndKeepsKernings | Display/FontBMF.cpp:531-551 | a kerning block at the end of the file keeps the entries that the font has, and adds empty ones |
| FontRefusals.LastByteIgnored | Display/FontBMF.cpp:294-302 | a single byte behind the last block is ignored |
| FontBMF.DisplayFont.ReadBlockInfo | Display/FontBMF.cpp:414-446 | the reader on the file's cursor computes what the format says, for any contents of the file; a name that the end of the file cuts off has a meaning exactly if its zero was read |
| FontBMF.DisplayFont.ReadBlockCommon | Display/FontBMF.cpp:448-464 | the same for the common block |
| FontBMF.DisplayFont.ReadBlockPages | Display/FontBMF.cpp:466-487 | the same for the pages, whose names share a buffer: one that is cut off may end in the rest of the one before; with no page count read before, the division has no meaning |
| FontBMF.DisplayFont.ReadBlockChars | Display/FontBMF.cpp:489-529 | the same for the characters: a repeated id stops the block and refuses the file |
| FontBMF.DisplayFont.ReadBlockKerning | Display/FontBMF.cpp:531-551 | the same for the kernings |
| FontBMF.DisplayFont.CheckHeader | Display/FontBMF.cpp:405-412 | the three letters, in order; the version is not looked at |
| FontBMF.DisplayFont.ReadBlocks | Display/FontBMF.cpp:294-345 | the do-while loop ends and computes the block function |
| FontBMF.DisplayFont.Release | Display/FontBMF.cpp:361-374 | goes through the names of all pages counted, then drops the names and keeps the count |
| FontBMF.DisplayFont.LoadPageTextures | Display/FontBMF.cpp:553-587 | the loop over the pages stops at the first texture that is not found |
| FontBMF.DisplayFont.Create | Display/FontBMF.cpp:278-353 | `Create` computes the load of a file with any contents into an object in any state |
| SphereStrip.CountExact | Display/GeometryHelperSphere.cpp:255-260 | the index count is what is written, exactly with a bottom hemisphere or a single slice, and two more otherwise |
| SphereStrip.IndicesBelow | Display/GeometryHelperSphere.cpp:476-537 | every index is below the vertex count |
| SphereStrip.SixteenBits | Display/GeometryHelperSphere.cpp:407-413 | the vertex count is at most the index count, so 16 bits hold every index wherever they are chosen |
| SphereStrip.TrianglesOfPairs | Display/GeometryHelperSphere.cpp:169 | what the device draws from the indices, triangle by triangle |
| SphereMesh.StripIsMesh | Display/GeometryHelperSphere.cpp:476-537 | the strip draws the pole fans and two triangles per quad, each once and in one orientation; with a top hemisphere alone and more than one slice the two trailing zeros draw one triangle too many |
| SphereMesh.RowsPart | Display/GeometryHelperSphere.cpp:501-526 | the rows with their links draw two triangles per quad and nothing between rows |
| SphereSurface.Closed | Display/GeometryHelperSphere.cpp:476-537 | every edge of a triangle is the reversed edge of another, but for the edges of the equator of a single hemisphere: the surface has no other hole and is evenly oriented |
| SphereManifold.EdgeOnce | Display/GeometryHelperSphere.cpp:476-537 | no directed edge lies in two triangles |
| SphereManifold.Manifold | Display/GeometryHelperSphere.cpp:476-537 | each edge lies, reversed, in exactly one triangle, which is another one; an edge of the equator of a single hemisphere lies in none |
| SphereManifold.Boundary | Display/GeometryHelperSphere.cpp:476-537 | all edges of the equator are there, in one direction: they are the boundary of a single hemisphere |
| SphereBuffers.FillIndices | Display/GeometryHelperSphere.cpp:411-537 | the loops fill the buffer with exactly the strip, for either index type, without a value wrapping |
| SphereBuffers.FillVertices | Display/GeometryHelperSphere.cpp:282-379 | every vertex of the buffer is written and no other, also by the loops that count an unsigned down |
| SphereBuffers.FillRing | Display/GeometryHelperSphere.cpp:316-338 | the count-down loop ends when the unsigned counter wraps, after one full ring |
| SphereBuffers.VerticesLength | Display/GeometryHelperSphere.cpp:240-243 | the vertex count formula is the number of vertices |
| SphereBuffers.RingIsCircle | Display/GeometryHelperSphere.cpp:298-373 | ring r of the index strip is one circle of the sphere, from the top pole to the equator and below it down to the bottom pole |
| SphereBuffers.RingTurns | Display/GeometryHelperSphere.cpp:316-366 | along a ring the angle grows from vertex to vertex and closes; for a sphere seen from inside it shrinks, which turns every triangle round |
| SphereBuffers.PolesAtEnds | Display/GeometryHelperSphere.cpp:282-379 | the poles are the first and the last vertex |
| SphereBuffers.DisplayGeometrySphere.CreateBuffers | Display/GeometryHelperSphere.cpp:230-270 | the shapes that are refused, and both counts |
| SphereBuffers.DisplayGeometrySphere.FillIndexBuffer | Display/GeometryHelperSphere.cpp:403-544 | the 16-bit buffer holds the same indices as a 32-bit one would |

## Left out

- Direct3D, DirectInput, Win32, Lua and libnoise: foreign code. Device calls succeed, and nobody else writes the states that the filter caches; a failing device call, after which the filter still caches the value, is not modelled.
- Wrap-around of `head`, `tail` and the slot versions at 2^32, memory fences and alignment: counters are unbounded and memory is sequentially consistent. The read of a slot, item and version together, is one step; in the source it is a plain volatile read of 64 bits, which can be two loads on a 32-bit target. `t % size` is not safe across a wrap for sizes that do not divide 2^32. `operator[]` has no check and no use here.
- Items of the queue are not 0, and a queue has at least one slot: 0 encodes an empty slot.
- Allocation failure, the 16 ms time-outs and the begin event of the workers, which nobody waits for. `JobThread::Create` is taken to have succeeded.
- Rounding of floats in octree, camera and clipper: coordinates are reals. The length of (h, h, h) is h times a number whose square is 3; the lengths of plane normals are given numbers with the right square. How `ExtractFrustumPlanes` builds the six planes from the view matrix is not modelled, only the loop that normalizes them.
- Object boxes of the octree do not change while the object is inside, and their corners are ordered; moving an object is a removal and an addition.
- OctreeHeap.Octree.RemoveObjectAt: takes the set of objects as a ghost argument, because an object that is not in the index must be told from one that is.
- The classifier of a traversal depends on the node only. Traversals start at the root or at a node of the tree; `AddTraverseMode` and `RemoveTraverseMode` are plain map updates.
- `OctreeObject::SetAABB` and the bounding mesh; `CollisionWithAABB`, which culling does not use.
- Construction and destruction of the elements of a pool, and the addresses behind its offsets.
- Overflow of the sphere's counts and sizes beyond 2^32, the trigonometry, the scaling by the radius and the normals of its vertices: a vertex is the name of its place. `RayIntersect` of the sphere relies on a triangle tester that is not part of this model.
- FileMemory.FileMemory.Write: requires that a write with the cursor behind the capacity fits the grown buffer, which FileMemory.GrowthSuffices decides; what the program does otherwise has no meaning. Sizes are unbounded. The bytes between the old end and a cursor behind it are unspecified. The flush to disk on release, and `FileNative`.
- Font files that end within a name before its zero was read, name no page before the page block, or have an info block below its fixed size: the source then reads memory that was never written, or divides by 0. The model stops there as `Unspecified` or `Undefined`. So it does for `Release` on an object that counts more pages than it names. Whether the texture of a page is found is a parameter; what loading and unloading does to textures, the texture coordinates derived from a character block, and text layout are not modelled.
- `DisplayRenderTarget::SetIndex` after creation, and the surfaces' reference counts; a surface is named by its texture. `DisplayRenderTargetChain::Clear` and the enabling of all targets only call what is modelled.
- `Profiling::OutputInfo`, `Reset` and `Clear`, the names of tags, and the start and stop times that feed the percentages. Scopes end in the reverse order of their beginning, as C++ objects on a stack do; counts are unbounded.
- Texture, sky, water and scene loading, materials, fonts' draw calls, landscape and path finding: input and output, or code whose parts are not in the repository.
- `Core/VMath.h` and `Core/noiseutils.cpp`: copies of foreign libraries. `Core/Time.cpp`, `Core/ObjectCreator.h`, the path helpers of `Core/File.cpp` and the action switch of `Application/ApplicationActions.cpp`: no modelled part depends on what they compute; the path in front of a texture's name is part of the parameter that says whether it is found.
