# Hospital simulation: event queue, splay tree and patient records

This project models three pieces of a hospital emergency-room simulation
written in C#, and proves properties of them in Dafny.

1. **The event queue and the drain loop** (COIS2020A2/Program.cs).
   - `PriorityQueue<T>` is a 0-based binary min-heap backed by a list. It is
     modelled as a class whose `data` field is a sequence. An element's key
     stands for `CompareTo`.
   - `Event.CompareTo` orders events by time.
   - `FindAvailableDoctor` is modelled with C#'s truncating `%`.
   - `RunSimulation` is modelled as the drain loop, which empties the event
     queue earliest-first, repeated for each run.
   - The proofs show these facts about the code as written:
     - `FindAvailableDoctor` returns its start index whenever it does not
       throw. It throws in two cases only: zero doctors with a negative start
       index (division by zero), and -1 doctors with the start index
       `int.MinValue` (the overflow of `int.MinValue % -1`).
     - Every arrival is therefore seated on doctor 0. It comes back as a
       departure at its arrival time plus its treatment time.
     - The waiting queues stay empty.
     - A run that starts with n arrivals drains after exactly 2n iterations.
       What it processes is exactly the arrivals plus their departures.
     - With non-negative treatment times, events are processed in time order.
   - Bookkeeping is ghost state. The ghost `Books` follow the loop, and the
     `Ledger` subset type holds the drain-loop invariant.
2. **`SplayTree<T>`** (COIS2020A3/COIS2020A3/Program.cs).
   - It is built on heap-allocated `Node` objects, with `root` and
     `previousRoot` fields.
   - Ghost state records the nodes' links as a map. A rank map shows the links
     have no cycle. `TreeAt` reads the structure from a node as a `Tree` value.
   - `Insert` clears a link of the node that `previousRoot` keeps. `Remove`
     can then leave nodes reachable along two paths. So the invariant is
     acyclicity plus "a node that is a left child has no other link into it",
     not tree shape or search order.
   - Each operation is proved against a function on `Tree` values in
     `SplayShapes`.
3. **`Patient`** (Assignment2/Program.cs).
   - It covers the emergency-level thresholds, the treatment-time scaling,
     the treatment-time setter and `ReduceTreatmentTime`.
   - It also models the constructor, which never stores the patient number.
   - `PatientNumber` and `LevelOfEmergency` have getters only, so they are
     `const` fields that only the constructors assign.

Items of the splay tree are integers, since the program instantiates
`SplayTree<int>`, so `default(T)` is 0. C# `double` values are Dafny
`real`s. The COIS2020A2 event times are only added, subtracted and compared.
Random draws and `Math.Log` values are parameters.

## Model

| member | source | states |
|---|---|---|
| PriorityQueues.PriorityQueue.constructor | COIS2020A2/Program.cs:49-52 | a new queue is empty and heap-ordered |
| PriorityQueues.PriorityQueue.Count | COIS2020A2/Program.cs:97-100 | the number of elements held, counted with multiplicity |
| PriorityQueues.PriorityQueue.Peek | COIS2020A2/Program.cs:92-95 | no element (`default(T)`) exactly when the queue is empty; otherwise an element of the queue no larger than any other |
| PriorityQueues.PriorityQueue.Swap | COIS2020A2/Program.cs:102-107 | exchanges two positions and keeps the contents as a multiset |
| PriorityQueues.PriorityQueue.Enqueue | COIS2020A2/Program.cs:54-65 | the sift-up keeps every element at least its parent at (i-1)/2; the count grows by one and exactly `item` is added to the contents |
| PriorityQueues.PriorityQueue.SiftDown | COIS2020A2/Program.cs:76-88 | sifting down from the root (right child only when strictly smaller, stop when parent ≤ child) restores heap order and keeps the contents |
| PriorityQueues.PriorityQueue.Dequeue | COIS2020A2/Program.cs:67-90 | on an empty queue returns none and leaves it empty; otherwise returns what `Peek` returned, an element no larger than any other, removes exactly one occurrence of it and keeps heap order |
| PriorityQueues.RootIsMinimum | COIS2020A2/Program.cs:67-72 | in a heap the element at index 0 is no larger than the one at any index |
| PriorityQueues.RootBelowAll | COIS2020A2/Program.cs:72 | in a non-empty heap the front element is no larger than any element |
| Simulation.Event.CompareTo | COIS2020A2/Program.cs:33-36 | negative, zero or positive exactly when this event's time is before, equal to or after the other's; a missing event counts as time 0 |
| Simulation.CompareToMatchesKey | COIS2020A2/Program.cs:33-36 | the comparisons the heap makes with `CompareTo` agree with comparing event times |
| Simulation.TruncRem | COIS2020A2/Program.cs:218 | C#'s `%`: the dividend is a multiple of the divisor plus the result, which is smaller than the divisor in magnitude and has the sign of the dividend (so it is the dividend itself when that is smaller than the divisor in magnitude) |
| Simulation.TruncatedQuotient | COIS2020A2/Program.cs:218 | for truncated division, the quotient of the magnitudes with the sign of the quotient restores the dividend |
| Simulation.Simulation.constructor | COIS2020A2/Program.cs:120-125 | stores the number of doctors, the mean arrival time and the mean treatment time; there is no event queue yet |
| Simulation.Simulation.FindAvailableDoctor | COIS2020A2/Program.cs:214-224 | throws (`None`) exactly when the scan's first remainder throws: the number of doctors is 0 and `startIndex` is negative (division by zero), or the number of doctors is -1 and `startIndex` is `int.MinValue` (overflow); otherwise returns `startIndex`, never -1 |
| Simulation.Seat | COIS2020A2/Program.cs:167-185 | an event re-enqueued as a departure keeps its patient, takes the given doctor, and ends the patient's treatment time after the given start |
| Simulation.SeatAllPermutation | COIS2020A2/Program.cs:166-170 | turning two orderings of the same arrivals into departures gives two orderings of the same departures |
| Simulation.Restarted | COIS2020A2/Program.cs:180-186 | a departure restarts exactly one patient when its level's waiting queue is non-empty, and none otherwise |
| Simulation.Released | COIS2020A2/Program.cs:180-182 | after a departure the waiting queues hold one patient fewer exactly when one was restarted |
| Simulation.AfterArrival | COIS2020A2/Program.cs:162-171 | processing an arrival appends it to the log of processed events |
| Simulation.AfterDeparture | COIS2020A2/Program.cs:177-188 | processing a departure appends it to the log of processed events |
| Simulation.ArrivalStep | COIS2020A2/Program.cs:160-171 | taking the earliest event, an arrival, and re-enqueueing it as its departure keeps the drain loop's invariant and lowers its variant |
| Simulation.DepartureStep | COIS2020A2/Program.cs:177-188 | taking the earliest event, a departure, and restarting the first waiting patient of its level keeps the drain loop's invariant and lowers its variant |
| Simulation.EarliestByTime | COIS2020A2/Program.cs:160 | the event `Dequeue` returns has the earliest time in the queue |
| Simulation.DrainStart | COIS2020A2/Program.cs:157 | the drain loop's invariant holds before the first iteration |
| Simulation.DrainFinished | COIS2020A2/Program.cs:158-189 | once the queue is empty: the waiting queues only lost their fronts; the iteration count is two per arrival plus one per queued departure and per waiting patient; every arrival was seated; each seated arrival and its departure were processed; with non-negative treatment times the processed events are in time order |
| Simulation.StartOfRun | COIS2020A2/Program.cs:133-155 | a run starts with the arrivals queued, empty waiting queues and nothing processed |
| Simulation.RunFinished | COIS2020A2/Program.cs:157-189 | a run from n arrivals alone ends with empty waiting queues after exactly 2n iterations; the processed events are the arrivals plus their departures on doctor 0, in time order when treatment times are non-negative |
| Simulation.Simulation.Admit | COIS2020A2/Program.cs:162-176 | an arrival is enqueued as a departure on doctor 0 at its time plus its treatment time; the waiting branch cannot be reached |
| Simulation.Simulation.Discharge | COIS2020A2/Program.cs:177-188 | the front patient of the departing patient's level, if any, is dequeued from the waiting queue and enqueued as a departure with the same doctor at the departure time plus its treatment time |
| Simulation.Simulation.ProcessNextEvent | COIS2020A2/Program.cs:160-188 | one iteration takes out an event of the queue that is no later than any other, and the books become `AfterArrival` or `AfterDeparture` of the old books for that event according to its kind; the heap stays valid and the loop's variant drops |
| Simulation.Simulation.Drain | COIS2020A2/Program.cs:157-189 | the loop terminates with an empty queue; its ghost books satisfy the invariant that `DrainFinished` reads off |
| Simulation.Simulation.EnqueueAll | COIS2020A2/Program.cs:144-155 | after enqueueing a run's arrivals the queue holds exactly those arrivals |
| Simulation.Simulation.DrainArrivals | COIS2020A2/Program.cs:157-189 | draining a queue of n arrivals takes exactly 2n iterations, leaves the waiting queues empty and processes exactly the arrivals and their doctor-0 departures |
| Simulation.Simulation.RunOnce | COIS2020A2/Program.cs:133-189 | one run, on a new event queue and three new waiting queues, ends with both kinds of queue empty after 2n iterations |
| Simulation.Simulation.RunSimulation | COIS2020A2/Program.cs:127-190 | each of the `NumberOfRuns` runs processes twice its arrivals: the arrivals and their departures |
| SplayShapes.InOrderItems | COIS2020A3/COIS2020A3/Program.cs:117-121 | the left-to-right items of a tree are its items, with multiplicity |
| SplayShapes.SearchPath | COIS2020A3/COIS2020A3/Program.cs:137-163 | the search path is empty exactly for an empty tree and starts at the root's item |
| SplayShapes.FoundIsMember | COIS2020A3/COIS2020A3/Program.cs:263-267 | an item found at the top of its search path is in the tree |
| SplayShapes.MemberIsFound | COIS2020A3/COIS2020A3/Program.cs:263-267 | in a tree in search order every item is found |
| SplayShapes.MemberNotFound | COIS2020A3/COIS2020A3/Program.cs:263-267 | without search order an item of the tree can be missed |
| SplayShapes.InsertAtRoot | COIS2020A3/COIS2020A3/Program.cs:213-231 | the new root holds the inserted item |
| SplayShapes.Detached | COIS2020A3/COIS2020A3/Program.cs:218-229 | the old root keeps its item and loses exactly the subtree it handed to the new node |
| SplayShapes.InsertInOrder | COIS2020A3/COIS2020A3/Program.cs:216-231 | `Insert` puts the item right before or right after the old root's item in left-to-right order, as the comparison with the top of the search path decides |
| SplayShapes.InsertKeepsItems | COIS2020A3/COIS2020A3/Program.cs:213-231 | after `Insert` the items are the old items plus the new one |
| SplayShapes.InsertBreaksSearchOrder | COIS2020A3/COIS2020A3/Program.cs:218-229 | comparing with the top of the path but splitting at the root can break search order |
| SplayShapes.DetachedLosesSubtree | COIS2020A3/COIS2020A3/Program.cs:213-229 | the tree `Undo` restores equals the tree before `Insert` exactly when the link `Insert` cleared was already empty; otherwise that subtree's items are lost |
| SplayShapes.RemoveRoot | COIS2020A3/COIS2020A3/Program.cs:244-259 | with no left child the right subtree is the tree; otherwise the left child is the root, keeps its left subtree and gets the old root's right subtree |
| SplayShapes.RemoveRootItems | COIS2020A3/COIS2020A3/Program.cs:244-259 | `Remove` loses the root's item and, when there is a left child, that child's old right subtree |
| SplayShapes.RemoveTakesRoot | COIS2020A3/COIS2020A3/Program.cs:237-259 | the node removed is the root even when the item found is elsewhere |
| SplayShapes.RotateRight | COIS2020A3/COIS2020A3/Program.cs:180-186 | lifting the left child keeps the left-to-right items |
| SplayShapes.RotateLeft | COIS2020A3/COIS2020A3/Program.cs:190-196 | lifting the right child keeps the left-to-right items |
| SplayShapes.SplayStep | COIS2020A3/COIS2020A3/Program.cs:170-197 | one pass of the splay loop keeps the left-to-right items |
| SplayShapes.SplayLoop | COIS2020A3/COIS2020A3/Program.cs:166-201 | the tree the loop leaves has a root; an empty stack, or one whose top is the root's item, leaves the tree as it is |
| SplayShapes.SplayKeepsInOrder | COIS2020A3/COIS2020A3/Program.cs:166-201 | the whole splay loop keeps the left-to-right items |
| SplayGraph.Node.constructor | COIS2020A3/COIS2020A3/Program.cs:117-121 | a new node holds its item and has no children |
| SplayGraph.InsertState | COIS2020A3/COIS2020A3/Program.cs:216-231 | the links `Insert` leaves have no cycle, keep left children unshared, and spell out the new tree and the detached old root |
| SplayGraph.RemoveGraph | COIS2020A3/COIS2020A3/Program.cs:247-255 | the links `Remove` leaves have no cycle, keep left children unshared, and spell out the tree without the root |
| SplayGraph.RotateRightGraph | COIS2020A3/COIS2020A3/Program.cs:180-186 | in a forest, lifting the left child of a node with no parent keeps a forest whose tree at the lifted node is the rotated tree |
| SplayGraph.RotateLeftGraph | COIS2020A3/COIS2020A3/Program.cs:190-196 | the mirror image for the right child |
| SplayGraph.Join | COIS2020A3/COIS2020A3/Program.cs:281-283 | a new node over two disjoint copies is a copy of the whole tree |
| SplayTrees.SplayTree.constructor | COIS2020A3/COIS2020A3/Program.cs:131-134 | a new tree is one node holding `default(T)`, with nothing to undo |
| SplayTrees.SplayTree.Access | COIS2020A3/COIS2020A3/Program.cs:137-163 | returns the items on the search path from the root, the top of the stack last |
| SplayTrees.SplayTree.Contains | COIS2020A3/COIS2020A3/Program.cs:263-267 | true exactly when the search path is non-empty and ends at the item; that implies membership, and the converse holds in search order |
| SplayTrees.SplayTree.Insert | COIS2020A3/COIS2020A3/Program.cs:204-232 | on an empty tree: a single node and nothing to undo; otherwise the old root is saved, the tree is `InsertAtRoot` and the saved tree is `Detached`; the invariant is kept |
| SplayTrees.SplayTree.InsertAbove | COIS2020A3/COIS2020A3/Program.cs:213-231 | `Insert` on a tree with a root |
| SplayTrees.SplayTree.Graft | COIS2020A3/COIS2020A3/Program.cs:216-229 | a new node holding the item becomes the parent of the old root as `InsertedLinks` says |
| SplayTrees.SplayTree.Hang | COIS2020A3/COIS2020A3/Program.cs:218-229 | the new node's and old root's links become those `InsertedLinks` describes |
| SplayTrees.SplayTree.Remove | COIS2020A3/COIS2020A3/Program.cs:235-260 | an empty tree throws; when the tree is empty or the search path does not end at the item, nothing changes, neither the tree nor the tree `Undo` would restore; otherwise the tree becomes `RemoveRoot` of the old one; the saved root stays |
| SplayTrees.SplayTree.RemoveTop | COIS2020A3/COIS2020A3/Program.cs:244-259 | the root node is removed as `RemoveRoot` says, including the second search |
| SplayTrees.SplayTree.Attach | COIS2020A3/COIS2020A3/Program.cs:254 | the left child's right link takes the old root's right subtree |
| SplayTrees.SplayTree.Splay | COIS2020A3/COIS2020A3/Program.cs:166-201 | the root ends as the final `p`, the tree is `SplayLoop` of the old tree and the stack, and the invariant is kept |
| SplayTrees.SplayTree.Rotate | COIS2020A3/COIS2020A3/Program.cs:170-197 | one pass of the loop changes the links to spell out `SplayStep` and keeps a forest |
| SplayTrees.SplayTree.LiftLeft | COIS2020A3/COIS2020A3/Program.cs:182-185 | the node's left child rises over it; the links become `RotatedRight` |
| SplayTrees.SplayTree.LiftRight | COIS2020A3/COIS2020A3/Program.cs:192-195 | the node's right child rises over it; the links become `RotatedLeft` |
| SplayTrees.SplayTree.Undo | COIS2020A3/COIS2020A3/Program.cs:316-327 | throws and changes nothing when nothing is saved; otherwise the saved root becomes the root, with the tree it spells out now, and nothing is left to undo |
| SplayTrees.SplayTree.Clone | COIS2020A3/COIS2020A3/Program.cs:270-275 | a new tree on new nodes with the same tree, or a new default tree when the original is empty; nothing to undo |
| SplayTrees.SplayTree.CloneOf | COIS2020A3/COIS2020A3/Program.cs:272-274 | a new tree whose root is replaced by a copy of the tree at the given node when there is one; its nodes are all new |
| SplayTrees.SplayTree.CloneHelper | COIS2020A3/COIS2020A3/Program.cs:278-286 | copies the tree at a node onto new nodes; with no node it leaves the target as it was |
| SplayTrees.SplayTree.CloneRight | COIS2020A3/COIS2020A3/Program.cs:281-283 | copies the right subtree under the new node, which then heads a copy of the whole tree |
| SplayTrees.SplayTree.Equals | COIS2020A3/COIS2020A3/Program.cs:288-295 | true exactly when the other object is a splay tree with the same tree |
| SplayTrees.SplayTree.EqualsHelper | COIS2020A3/COIS2020A3/Program.cs:298-313 | true exactly when the trees at the two nodes are the same |
| SplayTrees.NewTreeFacts | COIS2020A3/COIS2020A3/Program.cs:131-134 | a new tree contains `default(T)`, and `Undo` on it throws |
| SplayTrees.UndoTwice | COIS2020A3/COIS2020A3/Program.cs:316-327 | a second `Undo` right after another throws |
| SplayTrees.CloneEquals | COIS2020A3/COIS2020A3/Program.cs:270-296 | the clone of a tree with a root is `Equals` to it |
| SplayTrees.EqualsReflexive | COIS2020A3/COIS2020A3/Program.cs:288-313 | `Equals` is reflexive |
| Patients.GenerateLevelOfEmergency | Assignment2/Program.cs:45-57 | level 1 exactly when the draw is below 0.6, 2 from 0.6 to below 0.9, and 3 from 0.9 on, so always 1 to 3 |
| Patients.LevelMonotone | Assignment2/Program.cs:54-56 | a larger draw never gives a lower level |
| Patients.Patient.constructor | Assignment2/Program.cs:35-42 | the level is drawn, the patient number is 0 whatever is passed, and the treatment time is 0 |
| Patients.Patient.Numbered | Assignment2/Program.cs:35-42 | the intended constructor stores the patient number passed in |
| Patients.Patient.GenerateTreatmentTime | Assignment2/Program.cs:60-75 | `meanTime * ln(u)` scaled by 2 to the power (level - 1) for a valid level, and by 4 for any level other than 1 and 2; never positive for a non-negative mean |
| Patients.Patient.IntendedTreatmentTime | Assignment2/Program.cs:60-75 | the evidently intended `-meanTime * ln(u)` with the same scaling, never negative for a non-negative mean |
| Patients.NegativeTreatmentTime | Assignment2/Program.cs:67-74 | with mean 10 and `ln(u) = -1` the source's rule gives a negative time and the intended rule a positive one |
| Patients.Patient.SetTreatmentTime | Assignment2/Program.cs:27-31 | stores the value; the patient number and level are `const` fields, so nothing else can change |
| Patients.Patient.ReduceTreatmentTime | Assignment2/Program.cs:79-82 | lowers the treatment time by exactly the amount given; only the treatment time can change |
| Patients.NumberLost | Assignment2/Program.cs:37 | a patient constructed with number 7 has number 0 |
| Patients.NumberKept | Assignment2/Program.cs:35-37 | with the intended constructor the number given is the number kept |

## Left out

- The console programs are not modelled, because they are only input and output:
  - `Main` in COIS2020A2/Program.cs:227-266
  - `Main` in COIS2020A3/COIS2020A3/Program.cs:9-110
  - `PrintTree` in COIS2020A3/COIS2020A3/Program.cs:330-345
- `GetHashCode` (COIS2020A3/COIS2020A3/Program.cs:348-353) is not modelled. It only returns the library hash of the root's item.
- Random draws are not modelled, because they are randomness and floating-point library calls:
  - `Random.NextDouble`, `Math.Log`, `Math.Pow` and `GenerateExponential`
  - `GenerateEmergencyLevel` of COIS2020A2
  - In `Patient` the draw and its logarithm are parameters. In `RunSimulation` the arrivals of each run are an input, so the arrival loop of COIS2020A2/Program.cs:141-155 is modelled only as their enqueueing.
- The wait-time statistics (`totalWaitTime` and its average, COIS2020A2/Program.cs:129, 179, 192) are not modelled. They are floating-point accumulation against a `currentTime` that the drain loop never updates.
- `GetEventQueue` is not modelled; it only returns the field.
- Simulation.Simulation.RunSimulation: does not return the average wait time, only the processed events of each run.
- The event queue models only orders given by a real-valued key, not an arbitrary `IComparable<T>.CompareTo`; `Simulation.CompareToMatchesKey` shows the key matches `Event.CompareTo`, the program's only instantiation.
- Integers are unbounded. C#'s 32-bit width appears only in `FindAvailableDoctor`: its `startIndex` is at least `int.MinValue`, and the overflow of `int.MinValue % -1` is modelled. That scan's `i++` stays below the number of doctors, so it cannot wrap. Elsewhere the core's integers are list indices, counts and items, which the model treats as unbounded.
- PriorityQueues.PriorityQueue.SiftDown: the source's child index `pi * 2 + 1` (COIS2020A2/Program.cs:80) wraps to a negative `int` once `pi` reaches 2^30, that is for a queue of more than 2^30 events. The `ci > li` test then passes, and `data[rc]` throws `ArgumentOutOfRangeException`. The model's indices are unbounded and do not capture this.
- Simulation.Event.CompareTo: C#'s `double.CompareTo` on NaN is not modelled, because times are reals.
- COIS2020A2's `Patient` and `Event` are values. The source updates the fields of an event it has just dequeued and that nothing else refers to, so building a new value is equivalent.
- The waiting queues are an array of sequences rather than `Queue<Event>` objects.
- SplayTrees.SplayTree.Splay: it is modelled only under these conditions, because a rotation of a node with two links into it could close a cycle:
  - the tree is a forest;
  - nothing is saved for undo;
  - `p` is the root.

  The source never calls it. Its stack is a sequence passed by value, so the caller's stack is not seen to empty.
- SplayTrees.SplayTree.Remove: when a node is removed, it does not state what happens to the tree `Undo` would restore. Nodes shared with it can have their links changed.
- SplayTrees.SplayTree.Undo: returns an outcome instead of `this`. The exception is an `InvalidOperation` outcome.
- SplayTrees.SplayTree.Equals: the argument is a `SplayTree?`. An object of another class is modelled by `null`, which the source also answers with false.
- SplayTree items are `int`, as in the program's only instantiation, rather than any `IComparable<T>`.
- Patients.Patient.GenerateTreatmentTime: the products `meanTime * Math.Log(u)` and `2 *` or `4 *` it (Assignment2/Program.cs:67, 73-74) are exact here, not rounded to `double`. A draw of exactly 0.0 is not modelled either: there `Math.Log` gives -∞, so the time is -∞, or NaN when `meanTime` is 0, and `r <= 0.0` does not hold for NaN. `logDraw` is a finite real.
- Patients.Patient.constructor: the `meanTime` argument is accepted and unused, as in the source. The draw the source takes from `new Random()` is a parameter.

## Findings

| source | as written | input that shows it | evidently intended | confidence | as-written member | corrected member |
|---|---|---|---|---|---|---|
| Assignment2/Program.cs:37 | `this.patient_number = PatientNumber;` reads the field through its own getter, so the number passed in is never stored | `new Patient(7, 10)` has `PatientNumber == 0` | store the argument `patientNumber` | high; not executed | Patients.NumberLost | Patients.NumberKept |
| Assignment2/Program.cs:67 | `meanTime * Math.Log(randomNumber)` is never positive, since ln(u) ≤ 0 for a draw below 1, so treatment times come out negative | mean 10 with ln(u) = -1 gives -10, -20 or -40 by level | `-meanTime * ln(u)`, the exponential draw COIS2020A2/Program.cs:203 uses | high; not executed | Patients.NegativeTreatmentTime | Patients.Patient.IntendedTreatmentTime |
