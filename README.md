# LUScheduling core, modelled in Dafny

LUScheduling assigns the class sections of a Learning Unlimited program to rooms and time
blocks. This project models the deterministic core of that scheduler, and of its two Python
helper scripts, and proves what the code promises about it.

- **Persistent sorted maps** (`treap.dfy`, `bstmap.dfy`). `TreapNode` is an immutable treap
  whose `balance` and `combine` rebuild nodes. `BstMap` is a sorted map over it whose `insert`
  and `delete` return a new map. It also has range views (head, tail, sub) and navigation
  queries (first, last, floor, ceiling, lower, higher). Trees are datatypes, so the receiver
  is never changed.
- **Program graph and assignments** (`graph.dfy`, `assignments.dfy`). Class periods and
  their time blocks, rooms and sections. A start assignment occupies consecutive periods of
  its block, and each of those periods is one present assignment.
- **Conflicts and validator** (`validation.dfy`). `ScheduleValidator` is a class that
  accumulates conflicts in four lists.
- **Schedule** (`schedule.dfy`, `updates.dfy`, `serial.dfy`). The room → period → section
  table and the section → start table. Queries `startingAt`, `startingBefore` and
  `occurringAt`, and the `occurringAt` map view. `assignStart`, `removeStartingAt` and
  `forceAssignStart`, and the serial form of a schedule.
- **Schedule logics** (`logic.dfy`). The duplicate-section, room-conflict, teacher-conflict,
  prerequisite, lunch and room-property logics, and the chained logic. Each gives the
  conflicts it appends to a validator, and the imperative validators are proved to append
  exactly those.
- **Condition** (`condition.dfy`). The pass/fail flag shared by a condition and its
  ancestors, as a class over a parent chain.
- **Older mutable schedule and program index** (`legacy.dfy`). `MutableSchedule` has a table
  and a map updated in place. `Program` holds the id maps and the ordering of time blocks.
- **Text, flags and CSV** (`text.dfy`, `converters.dfy`, `csv.dfy`). Splitting, joining and
  trimming. The flag-string converters. The CSV writer, and the CSV-to-schedule reader.
- **JSON program reader** (`json.dfy`). The weighted edit distance that matches resource
  requests, dense subject ids and base-record merging. Also the sorted id lists and the
  grouping of rooms into buildings.
- **Python scripts** (`scripts.dfy`). `upload_assignments.py` groups CSV rows by section and
  posts one form per section. `data_loader.py` lists programs and downloads the data
  endpoints.
- **Findings** (`findings.dfy`). Concrete schedules on which the code as written departs from
  its evident intent.

Random treap heap keys, the login session, the page fetcher and the prompt answers are
parameters. Printing and the network are not modelled.

## Model

| member | source | states |
|---|---|---|
| Treap.Mk | src/org/learningu/scheduling/util/bst/TreapNode.java:15-25 | the constructor keeps key, value, children and heap key; with consistent children the size field is 1 plus the children's sizes and equals the number of nodes |
| Treap.SizeCountsNodes | src/org/learningu/scheduling/util/bst/TreapNode.java:24 | where every size field is 1 plus its children's sizes, a tree's size is its node count |
| Treap.CreateNode | src/org/learningu/scheduling/util/bst/TreapNode.java:43-50 | createNode copies key, value and heap key from the source node and takes the given children |
| Treap.Balance | src/org/learningu/scheduling/util/bst/TreapNode.java:56-76 | balance yields a node whose in-order entries are left, then source, then right |
| Treap.BalanceRoot | src/org/learningu/scheduling/util/bst/TreapNode.java:62-75 | the root's heap key is the least of the three; the source stays root with the given children exactly when neither child has a smaller heap key |
| Treap.BalanceHeap | src/org/learningu/scheduling/util/bst/TreapNode.java:62-75 | balance over two heap-ordered sides yields a heap-ordered tree |
| Treap.BalanceContents | src/org/learningu/scheduling/util/bst/TreapNode.java:62-75 | balance holds exactly the pairs of left, source and right |
| Treap.BalanceBst | src/org/learningu/scheduling/util/bst/TreapNode.java:62-75 | with every left key below and every right key above the source, balance yields a search tree |
| Treap.Combine | src/org/learningu/scheduling/util/bst/TreapNode.java:78-98 | a null side gives the other side unchanged; otherwise the root with the smaller heap key (ties to the left) is on top, and the in-order entries are left's then right's |
| Treap.CombineHeap | src/org/learningu/scheduling/util/bst/TreapNode.java:83-97 | combine of two heap-ordered trees is heap-ordered |
| Treap.CombineContents | src/org/learningu/scheduling/util/bst/TreapNode.java:83-97 | combine holds exactly the pairs of both sides |
| Treap.CombineBst | src/org/learningu/scheduling/util/bst/TreapNode.java:83-97 | combine of two search trees whose keys are in order is a search tree |
| Treap.SizeIsKeyCount | src/org/learningu/scheduling/util/bst/TreapNode.java:24 | in a search tree with consistent sizes, the size is the number of distinct keys |
| BstMap.SeekFindsContents | src/org/learningu/scheduling/util/bst/BstMap.java:144-158 | the descent finds exactly the value the tree holds for the key, or nothing |
| BstMap.Seek | src/org/learningu/scheduling/util/bst/BstMap.java:152 | no contract of its own: the descent of `BstOperations.seek` by key comparison; SeekFindsContents states that it finds exactly the stored value |
| BstMap.FirstIsLeast | src/org/learningu/scheduling/util/bst/BstMap.java:203-209 | the leftmost in-range entry is the least in-range key, and there is none exactly when no key lies in range |
| BstMap.LastIsGreatest | src/org/learningu/scheduling/util/bst/BstMap.java:212-218 | the rightmost in-range entry is the greatest in-range key, and there is none exactly when no key lies in range |
| BstMap.First | src/org/learningu/scheduling/util/bst/BstMap.java:203-209 | no contract of its own: the leftmost in-range path of `furthestPath`; FirstIsLeast states that it is the least in-range entry |
| BstMap.Last | src/org/learningu/scheduling/util/bst/BstMap.java:212-218 | no contract of its own: the rightmost in-range path of `furthestPath`; LastIsGreatest states that it is the greatest in-range entry |
| BstMap.ModifyAtPut | src/org/learningu/scheduling/util/bst/BstMap.java:315-325 | at the target a put yields a valid treap with the key set to the value; it is a rebuilding change keeping the node's heap key and the tree's shape exactly when the key was present |
| BstMap.ModifyAtRemove | src/org/learningu/scheduling/util/bst/BstMap.java:333-342 | at the target a removal yields a valid treap without the key; it is the identity, leaving the tree itself, exactly when the key was absent |
| BstMap.LiftPutLeft | src/org/learningu/scheduling/util/bst/BstMap.java:190-200 | a put below the left child, carried up, keeps a valid treap holding the new pair |
| BstMap.LiftPutRight | src/org/learningu/scheduling/util/bst/BstMap.java:190-200 | the same for the right child |
| BstMap.LiftRemoveLeft | src/org/learningu/scheduling/util/bst/BstMap.java:190-200 | a removal below the left child, carried up, keeps a valid treap without the key |
| BstMap.LiftRemoveRight | src/org/learningu/scheduling/util/bst/BstMap.java:190-200 | the same for the right child |
| BstMap.MutatePut | src/org/learningu/scheduling/util/bst/BstMap.java:161-166 | a put leaves a valid treap whose pairs are the old ones with the key set to the value |
| BstMap.Mutate | src/org/learningu/scheduling/util/bst/BstMap.java:190-200 | no contract of its own: `BstOperations.mutate`, descending to the key and rebuilding or rebalancing on the way up; MutatePut and MutateRemove state its effect for a put and a removal |
| BstMap.MutateRemove | src/org/learningu/scheduling/util/bst/BstMap.java:168-183 | a removal leaves a valid treap whose pairs are the old ones without the key; an absent key leaves the tree itself |
| BstMap.CountInRangeIsFilterLength | src/org/learningu/scheduling/util/bst/BstMap.java:134-136 | the range count (whole subtrees by their size field) is the number of in-range entries of the in-order walk |
| BstMap.EntriesOfBst | src/org/learningu/scheduling/util/bst/BstMap.java:74-96 | the in-order walk of a search tree visits its keys in strictly increasing order |
| BstMap.SaturatedCast | src/org/learningu/scheduling/util/bst/BstMap.java:135 | a count above Integer.MAX_VALUE saturates to it; below it is kept |
| BstMap.BstMap.Get | src/org/learningu/scheduling/util/bst/BstMap.java:144-158 | get is present exactly for a non-null key the map holds, and gives its value |
| BstMap.BstMap.ContainsKey | src/org/learningu/scheduling/util/bst/BstMap.java:139-141 | containsKey holds exactly for a non-null key the map holds |
| BstMap.BstMap.Insert | src/org/learningu/scheduling/util/bst/BstMap.java:161-166 | a null key or value is a NullPointerException, a key outside the range an IllegalArgumentException; otherwise the new map holds the old pairs with the key set to the value, over the same range |
| BstMap.BstMap.Modify | src/org/learningu/scheduling/util/bst/BstMap.java:190-200 | no contract of its own: `modify` applies the mutation to the root and keeps the range; Insert and Delete state its effect on the pairs |
| BstMap.BstMap.Delete | src/org/learningu/scheduling/util/bst/BstMap.java:168-183 | the new map holds the old pairs without the key; a null or absent key returns the same map |
| BstMap.BstMap.Size | src/org/learningu/scheduling/util/bst/BstMap.java:134-136 | size is the saturated length of the entry set |
| BstMap.BstMap.FirstEntry | src/org/learningu/scheduling/util/bst/BstMap.java:203-209 | the entry of the least key in range, or null exactly when the map is empty |
| BstMap.BstMap.LastEntry | src/org/learningu/scheduling/util/bst/BstMap.java:212-218 | the entry of the greatest key in range, or null exactly when the map is empty |
| BstMap.BstMap.FirstKey | src/org/learningu/scheduling/util/bst/BstMap.java:248-262 | firstKey throws NoSuchElementException exactly when the map is empty |
| BstMap.BstMap.LastKey | src/org/learningu/scheduling/util/bst/BstMap.java:253-262 | lastKey throws NoSuchElementException exactly when the map is empty |
| BstMap.BstMap.HeadMap | src/org/learningu/scheduling/util/bst/BstMap.java:264-269 | headMap is the same tree under the range narrowed to keys up to toKey |
| BstMap.BstMap.TailMap | src/org/learningu/scheduling/util/bst/BstMap.java:280-285 | tailMap is the same tree under the range narrowed to keys from fromKey |
| BstMap.BstMap.SubMap | src/org/learningu/scheduling/util/bst/BstMap.java:271-278 | IllegalArgumentException exactly when toKey is below fromKey, or the keys are equal and both bounds are open; otherwise the same tree under the range narrowed to both bounds |
| BstMap.BstMap.CeilingEntry | src/org/learningu/scheduling/util/bst/BstMap.java:287-289 | the least entry at or above the key, null exactly when there is none |
| BstMap.BstMap.HigherEntry | src/org/learningu/scheduling/util/bst/BstMap.java:295-297 | the least entry strictly above the key, null exactly when there is none |
| BstMap.BstMap.FloorEntry | src/org/learningu/scheduling/util/bst/BstMap.java:291-293 | the greatest entry at or below the key, null exactly when there is none |
| BstMap.BstMap.LowerEntry | src/org/learningu/scheduling/util/bst/BstMap.java:299-301 | the greatest entry strictly below the key, null exactly when there is none |
| BstMap.Create | src/org/learningu/scheduling/util/bst/BstMap.java:53-59 | create() is an empty map over all keys, of size 0, where get returns null for every key |
| BstMap.Remove | src/org/learningu/scheduling/util/bst/BstMap.java:128-131 | remove always throws UnsupportedOperationException |
| BstMap.Clear | src/org/learningu/scheduling/util/bst/BstMap.java:185-188 | clear always throws UnsupportedOperationException |
| BstMap.InsertThenGet | src/org/learningu/scheduling/util/bst/BstMap.java:161-166 | after insert(k, v), get(k) is v and every other key reads as before |
| BstMap.ReinsertKeepsShape | src/org/learningu/scheduling/util/bst/BstMap.java:322-323 | re-inserting a present key keeps every node's heap key and the tree's shape, so the size does not change |
| BstMap.InsertNewGrowsSize | src/org/learningu/scheduling/util/bst/BstMap.java:319-320 | inserting an absent key into an unrestricted map adds one to its size |
| BstMap.EntryListIsSortedPairs | src/org/learningu/scheduling/util/bst/BstMap.java:69-125 | the entry set lists the map's pairs in strictly increasing key order, one per key |
| BstMap.SizeIsSaturatedCount | src/org/learningu/scheduling/util/bst/BstMap.java:134-136 | size() is the saturated number of keys in the map |
| BstMap.FloorEntryOfPairs | src/org/learningu/scheduling/util/bst/BstMap.java:291-293 | on a whole map, floorEntry(k) is the pair with the greatest key at or below k, or null when every key is above k |
| BstMap.EntryListEntriesArePairs | src/org/learningu/scheduling/util/bst/BstMap.java:105-110 | every entry the iterator yields is a pair of the map |
| Graph.Periods | src/org/learningu/scheduling/graph/TimeBlock.java:25-46 | a block's periods are exactly the periods created with indices 0 up to its period count, in order |
| Graph.TailPeriods | src/org/learningu/scheduling/graph/ClassPeriod.java:54-62 | getTailPeriods(count) is the block's periods from index up to index + count, and IndexOutOfBoundsException exactly when that sub-list does not exist |
| Graph.CompareTo | src/org/learningu/scheduling/graph/ClassPeriod.java:68-75 | compareTo is -1, 0 or 1 and orders periods by block id, then index |
| Graph.CompareToIsOrder | src/org/learningu/scheduling/graph/ClassPeriod.java:68-75 | compareTo is antisymmetric and transitive |
| Graph.TailPeriodsAscend | src/org/learningu/scheduling/graph/ClassPeriod.java:60-75 | a tail starts at the period itself and ascends strictly under compareTo |
| Graph.TailPeriodsPrefix | src/org/learningu/scheduling/graph/ClassPeriod.java:60-62 | the tail of count periods is the tail of count + 1 without its last period |
| Graph.GradeRange | src/org/learningu/scheduling/graph/ClassPeriod.java:64-66 | the grade range is the closed range [minGrade, maxGrade], and Ranges.closed refuses minGrade > maxGrade with IllegalArgumentException |
| Graph.Program.GetPeriod | src/org/learningu/scheduling/graph/Program.java:276-280 | getPeriod(id) is the period with that id, or IllegalArgumentException when there is none |
| Graph.Program.TeachersFor | src/org/learningu/scheduling/graph/Program.java:252-254 | no contract of its own: the teacher ids stored for the section, none for a section with no entry |
| Graph.Program.SectionsForTeacher | src/org/learningu/scheduling/graph/Program.java:327-333 | no contract of its own: the sections stored for the teacher, none for a teacher with no entry |
| Graph.Program.Prerequisites | src/org/learningu/scheduling/graph/Program.java:248-250 | no contract of its own: the prerequisite course ids stored for the section, none for a section with no entry |
| Graph.Program.SectionsOfCourse | src/org/learningu/scheduling/graph/Program.java:323-325 | no contract of its own: the sections stored for the course, none for a course with no entry |
| Graph.Program.RoomProperties | src/org/learningu/scheduling/graph/Program.java:272-274 | no contract of its own: the properties stored for the room, none for a room with no entry |
| Graph.Program.RoomRequirements | src/org/learningu/scheduling/graph/Program.java:268-270 | no contract of its own: the properties the section requires, none for a section with no entry |
| Graph.Program.GetRoom | src/org/learningu/scheduling/graph/Program.java:282-286 | getRoom(id) is the room with that id, or IllegalArgumentException when there is none |
| Graph.Program.GetSection | src/org/learningu/scheduling/graph/Program.java:288-292 | getSection(id) is the section with that id, or IllegalArgumentException when there is none |
| Assignments.CreateStart | src/org/learningu/scheduling/schedule/StartAssignment.java:34-54 | create succeeds exactly when period, room and section share one program and index plus period length fits in the block; otherwise IllegalArgumentException |
| Assignments.PresentPeriods | src/org/learningu/scheduling/schedule/StartAssignment.java:56-58 | the present periods are the tail of the start period as long as the section, the i-th being the block's period at index + i |
| Assignments.CreatePresent | src/org/learningu/scheduling/schedule/PresentAssignment.java:25-34 | the constructor succeeds exactly when 0 <= index < period length, else IllegalArgumentException |
| Assignments.PresentAssignments | src/org/learningu/scheduling/schedule/StartAssignment.java:60-80 | there are period-length present assignments and element i is the one with index i |
| Assignments.GetPresentAssignment | src/org/learningu/scheduling/schedule/StartAssignment.java:63-76 | getPresentAssignment(i) is element i, and IndexOutOfBoundsException exactly when i is out of range |
| Assignments.Period | src/org/learningu/scheduling/schedule/PresentAssignment.java:64-67 | a present assignment's period is element index of the start's present periods, in the same block at the start's index plus index |
| Assignments.LastPeriod | src/org/learningu/scheduling/schedule/StartAssignment.java:124-127 | the last period is the final tail period; with period length 0 the lookup throws IndexOutOfBoundsException |
| Assignments.StartEqualsIgnoresLock | src/org/learningu/scheduling/schedule/StartAssignment.java:134-145 | start assignments are equal exactly when they differ at most in the lock flag |
| Assignments.PresentEqualsSameSlot | src/org/learningu/scheduling/schedule/PresentAssignment.java:74-84 | equal present assignments have the same room, period and section |
| Assignments.PresentAssignmentsAgree | src/org/learningu/scheduling/schedule/PresentAssignment.java:36-67 | each present assignment takes room, section, program and time block from its start assignment, and its period is the matching present period |
| Validation.CreateGlobalConflict | src/org/learningu/scheduling/logic/GlobalConflict.java:17-50 | a null candidate, collection or condition is a NullPointerException, an empty collection an IllegalArgumentException; otherwise the getters return exactly the arguments |
| Validation.LocalStartDelta | src/org/learningu/scheduling/logic/ScheduleValidator.java:79-90 | validateLocal on a start assignment appends one local start conflict when cond is false and nothing otherwise |
| Validation.LocalPresentDelta | src/org/learningu/scheduling/logic/ScheduleValidator.java:92-103 | validateLocal on a present assignment appends one local present conflict when cond is false and nothing otherwise |
| Validation.GlobalStartDelta | src/org/learningu/scheduling/logic/ScheduleValidator.java:105-125 | validateGlobal on a start assignment appends exactly when cond is false and the conflicting collection is non-empty, and the conflict holds that collection |
| Validation.GlobalPresentDelta | src/org/learningu/scheduling/logic/ScheduleValidator.java:127-147 | the same for a present assignment |
| Validation.AppendFacts | src/org/learningu/scheduling/logic/ScheduleValidator.java:79-155 | validations only extend the four lists, keep every global conflict non-empty, and the validator is (locally) valid after exactly when it was before and the appended part is |
| Validation.Conflicts.Append | src/org/learningu/scheduling/logic/ScheduleValidator.java:79-147 | no contract of its own: a run of validations appends to each of the four lists; AppendFacts and AppendAssoc state what this keeps |
| Validation.AppendAssoc | src/org/learningu/scheduling/logic/ScheduleValidator.java:79-147 | a run of validations can be summarised piece by piece |
| Validation.ScheduleValidator.constructor | src/org/learningu/scheduling/logic/ScheduleValidator.java:47-57 | a fresh validator has four empty lists |
| Validation.ScheduleValidator.ValidateLocalStart | src/org/learningu/scheduling/logic/ScheduleValidator.java:79-90 | the new lists are the old ones followed by what LocalStartDelta appends |
| Validation.ScheduleValidator.ValidateLocalPresent | src/org/learningu/scheduling/logic/ScheduleValidator.java:92-103 | the new lists are the old ones followed by what LocalPresentDelta appends |
| Validation.ScheduleValidator.ValidateGlobalStart | src/org/learningu/scheduling/logic/ScheduleValidator.java:105-125 | the new lists are the old ones followed by what GlobalStartDelta appends |
| Validation.ScheduleValidator.ValidateGlobalPresent | src/org/learningu/scheduling/logic/ScheduleValidator.java:127-147 | the new lists are the old ones followed by what GlobalPresentDelta appends |
| Validation.ScheduleValidator.IsLocallyValid | src/org/learningu/scheduling/logic/ScheduleValidator.java:149-151 | locally valid exactly when both local lists are empty |
| Validation.ScheduleValidator.IsValid | src/org/learningu/scheduling/logic/ScheduleValidator.java:153-155 | valid exactly when locally valid and both global lists are empty |
| ScheduleTables.Schedule.RoomMap | src/org/learningu/scheduling/schedule/Schedule.java:269-270 | the room's period map is the one stored under the room, and it files every slot under its own period |
| ScheduleTables.Schedule.StartingAt | src/org/learningu/scheduling/schedule/Schedule.java:268-277 | present exactly when a section starts in the room at that period; then it is an unlocked start of that section at that period and room |
| ScheduleTables.Schedule.StartingBefore | src/org/learningu/scheduling/schedule/Schedule.java:279-288 | when present, the start is the floor entry of the room's map at the period and lies in the same time block; absent exactly when there is no floor entry or the floor entry is in another block |
| ScheduleTables.Schedule.OccurringAt | src/org/learningu/scheduling/schedule/Schedule.java:290-300 | when present, the start found by startingBefore runs over the period and the result is its present assignment at the relative index; absent otherwise |
| ScheduleTables.Schedule.OccurringAtContainsKey | src/org/learningu/scheduling/schedule/Schedule.java:183-187 | the view's containsKey is true exactly when the room is known and a section starts at exactly that period |
| ScheduleTables.Schedule.OccurringAtHasRoom | src/org/learningu/scheduling/schedule/Schedule.java:189-196 | the corrected containsKey is true exactly when get returns an assignment |
| ScheduleTables.Schedule.OccurringAtValues | src/org/learningu/scheduling/schedule/Schedule.java:152-169 | the entries of the view are exactly the present assignments occurring in the program's rooms at the period |
| ScheduleTables.Schedule.ContainsStart | src/org/learningu/scheduling/schedule/Schedule.java:246-256 | contains is true exactly when the assignment's section is stored at its room and period |
| ScheduleTables.Schedule.Added | src/org/learningu/scheduling/schedule/Schedule.java:306-315 | the insert puts the section at its period in its room, changes no other room, and files the assignment under its section; the schedule stays well formed |
| ScheduleTables.Schedule.RemoveStartingAt | src/org/learningu/scheduling/schedule/Schedule.java:322-334 | the result is startingAt; nothing changes when it is absent; otherwise the period leaves the room's map, no other room changes, and the section leaves the assignment table |
| ScheduleTables.CreateSchedule | src/org/learningu/scheduling/schedule/Schedule.java:67-74 | the new schedule has exactly the program's rooms, each with an empty map, and no assignments; its two tables agree |
| ScheduleTables.OccurringAtFindsCover | src/org/learningu/scheduling/schedule/Schedule.java:279-300 | in a room that is not double-booked, occurringAt finds every start whose run covers the period |
| ScheduleTables.OccurringAtIff | src/org/learningu/scheduling/schedule/Schedule.java:279-300 | in a room that is not double-booked, occurringAt is present exactly when some start covers the period |
| ScheduleTables.Schedule.TablesAgree | src/org/learningu/scheduling/schedule/Schedule.java:239-265 | no contract of its own: the two tables agree, as the start-assignment set needs (it iterates the section table, while contains and size read the starting-time table): every assignment has its section stored at its room and period, and every stored slot is filed under its section's assignment, which names that room and period |
| ScheduleTables.SlotsFiled | src/org/learningu/scheduling/schedule/Schedule.java:239-256 | in agreeing tables, every start in a room is the one its section's assignment names |
| ScheduleTables.AssignmentsContained | src/org/learningu/scheduling/schedule/Schedule.java:239-256 | in agreeing tables, every start the set iterates is one that contains finds |
| ScheduleTables.RemoveKeepsTablesAgree | src/org/learningu/scheduling/schedule/Schedule.java:322-334 | removeStartingAt keeps the two tables in agreement |
| ScheduleTables.AddedKeepsTablesAgree | src/org/learningu/scheduling/schedule/Schedule.java:308-316 | entering a start whose section is not yet scheduled, at a free period of its room, keeps the two tables in agreement |
| ScheduleTables.AddedKeepsStored | src/org/learningu/scheduling/schedule/Schedule.java:308-316 | after such an entry, every assignment, old or new, is stored at its room and period |
| ScheduleLogic.AsList | src/org/learningu/scheduling/logic/DuplicateSectionLogic.java:28 | Optional.asSet as a list: empty for an absent value, the single value otherwise |
| ScheduleLogic.DuplicateEffect | src/org/learningu/scheduling/logic/DuplicateSectionLogic.java:22-29 | the duplicate check adds at most one global start conflict and nothing else |
| ScheduleLogic.DuplicateEffectIff | src/org/learningu/scheduling/logic/DuplicateSectionLogic.java:19-30 | a conflict is added exactly when the section is already scheduled, and it lists exactly the existing assignment |
| ScheduleLogic.RoomConflictEffect | src/org/learningu/scheduling/logic/RoomConflictLogic.java:18-21 | the room check adds at most one global present conflict and nothing else |
| ScheduleLogic.RoomConflictEffectIff | src/org/learningu/scheduling/logic/RoomConflictLogic.java:14-22 | a conflict is added exactly when something already occurs in the room at the period, and it lists exactly that present assignment |
| ScheduleLogic.TaughtBy | src/org/learningu/scheduling/logic/TeacherConflictLogic.java:53-59 | a section is collected exactly when some of the teachers teaches it |
| ScheduleLogic.CoursesTaughtByTeachers | src/org/learningu/scheduling/logic/TeacherConflictLogic.java:53-59 | the loop collects exactly the sections taught by the teachers |
| ScheduleLogic.FilterBySection | src/org/learningu/scheduling/logic/TeacherConflictLogic.java:38-46 | the filter keeps exactly the present assignments whose section is in the set |
| ScheduleLogic.TeacherConflictEffect | src/org/learningu/scheduling/logic/TeacherConflictLogic.java:31-50 | the teacher check adds at most one global present conflict and nothing else |
| ScheduleLogic.TeacherConflictEffectIff | src/org/learningu/scheduling/logic/TeacherConflictLogic.java:26-51 | a conflict is added exactly when some present assignment at the period is taught by a teacher of the candidate's section; the conflict lists exactly those assignments |
| ScheduleLogic.TeacherConflictsAreClashes | src/org/learningu/scheduling/logic/TeacherConflictLogic.java:36-46 | the filtered values of the occurringAt view are exactly the teacher clashes |
| ScheduleLogic.TeacherClash | src/org/learningu/scheduling/logic/TeacherConflictLogic.java:36-46 | no contract of its own: another present assignment at the period whose section shares a teacher; TeacherConflictEffectIff and TeacherConflictsAreClashes state the check in its terms |
| ScheduleLogic.EndsBefore | src/org/learningu/scheduling/logic/PrerequisiteLogic.java:23-32 | a section counts exactly when it is scheduled, has a last period, and that period compares below the start |
| ScheduleLogic.PrerequisiteMet | src/org/learningu/scheduling/logic/PrerequisiteLogic.java:21-33 | no contract of its own: some section of the course ends before the start; SearchPrerequisite and PrerequisitesEffectIff state the check in its terms |
| ScheduleLogic.PrerequisitesEffect | src/org/learningu/scheduling/logic/PrerequisiteLogic.java:20-35 | one possible local start conflict per prerequisite course and nothing else |
| ScheduleLogic.PrerequisitesEffectIff | src/org/learningu/scheduling/logic/PrerequisiteLogic.java:15-36 | every conflict added is the prerequisite conflict of the candidate, and none is added exactly when every prerequisite course has a section ending before the start |
| ScheduleLogic.PrerequisiteEffect | src/org/learningu/scheduling/logic/PrerequisiteLogic.java:18-35 | the check over the section's prerequisites; a section without prerequisites adds nothing |
| ScheduleLogic.LunchesOf | src/org/learningu/scheduling/logic/LunchLogic.java:28-33 | exactly the lunch periods among the given ones |
| ScheduleLogic.LunchScan | src/org/learningu/scheduling/logic/LunchLogic.java:41-51 | the lunch periods left only shrink; every listed conflict is a scheduled assignment in the block |
| ScheduleLogic.LunchScanIff | src/org/learningu/scheduling/logic/LunchLogic.java:41-51 | a teacher's scan lists no conflict exactly when none of their sections in the block covers a remaining lunch period, and then every remaining lunch period is left |
| ScheduleLogic.TakesLunch | src/org/learningu/scheduling/logic/LunchLogic.java:41-51 | no contract of its own: a section scheduled in the block that covers a remaining lunch period; LunchScanIff states the scan in its terms |
| ScheduleLogic.TeacherLunches | src/org/learningu/scheduling/logic/LunchLogic.java:40-54 | at most one global start conflict per teacher and nothing else |
| ScheduleLogic.TeacherLunchesFacts | src/org/learningu/scheduling/logic/LunchLogic.java:40-54 | every lunch conflict is about the candidate and lists only assignments in its block; there is none exactly when no teacher's section takes a remaining lunch period |
| ScheduleLogic.LunchEffect | src/org/learningu/scheduling/logic/LunchLogic.java:21-55 | the whole lunch check adds only global start conflicts, at most one per teacher |
| ScheduleLogic.LunchEffectCases | src/org/learningu/scheduling/logic/LunchLogic.java:35-38 | an assignment covering no lunch period is not checked; otherwise the teachers are scanned with the block's lunch periods it leaves |
| ScheduleLogic.Binding | src/org/learningu/scheduling/logic/RoomPropertyLogic.java:27 | exactly the binding properties among the room's properties |
| ScheduleLogic.RoomPropertyEffect | src/org/learningu/scheduling/logic/RoomPropertyLogic.java:18-31 | at most two local start conflicts and nothing else |
| ScheduleLogic.RoomPropertyEffectIff | src/org/learningu/scheduling/logic/RoomPropertyLogic.java:16-32 | the required-property conflict appears exactly when a requirement is missing, the binding conflict exactly when the room has an unrequired binding property, none exactly when both checks pass |
| ScheduleLogic.PresentEffect | src/org/learningu/scheduling/logic/ScheduleLogic.java:14-15 | validate on a present assignment never adds a start conflict and keeps global conflicts non-empty |
| ScheduleLogic.ChainPresent | src/org/learningu/scheduling/logic/ChainedScheduleLogic.java:46-57 | a chain on a present assignment adds no start conflict |
| ScheduleLogic.PresentsEffect | src/org/learningu/scheduling/logic/ScheduleLogic.java:8-12 | the inherited start check, one present check per present assignment, adds no start conflict |
| ScheduleLogic.StartEffect | src/org/learningu/scheduling/logic/ScheduleLogic.java:8-12 | every global conflict any logic adds on a start assignment lists at least one assignment |
| ScheduleLogic.ChainStart | src/org/learningu/scheduling/logic/ChainedScheduleLogic.java:36-44 | the chained sub-logics keep every global conflict non-empty |
| ScheduleLogic.ValidatePresent | src/org/learningu/scheduling/logic/ChainedScheduleLogic.java:46-57 | the validator gains exactly PresentEffect of the logic |
| ScheduleLogic.ValidatePresents | src/org/learningu/scheduling/logic/ScheduleLogic.java:8-12 | the validator gains exactly the present checks of every present assignment, in order |
| ScheduleLogic.SearchPrerequisite | src/org/learningu/scheduling/logic/PrerequisiteLogic.java:21-33 | the inner search answers exactly whether some section of the course ends before the start |
| ScheduleLogic.ValidatePrerequisites | src/org/learningu/scheduling/logic/PrerequisiteLogic.java:18-35 | the validator gains exactly PrerequisiteEffect |
| ScheduleLogic.CollectLunches | src/org/learningu/scheduling/logic/LunchLogic.java:28-33 | the loop collects exactly LunchesOf the block's periods |
| ScheduleLogic.ScanTeacher | src/org/learningu/scheduling/logic/LunchLogic.java:41-51 | the inner loop lists exactly the conflicts of LunchScan |
| ScheduleLogic.ValidateLunch | src/org/learningu/scheduling/logic/LunchLogic.java:21-55 | the validator gains exactly LunchEffect |
| ScheduleLogic.ValidateTeacherLunches | src/org/learningu/scheduling/logic/LunchLogic.java:40-54 | the validator gains exactly TeacherLunches over the course's teachers |
| ScheduleLogic.ValidateRoomProperties | src/org/learningu/scheduling/logic/RoomPropertyLogic.java:18-31 | the validator gains exactly RoomPropertyEffect |
| ScheduleLogic.ValidateStart | src/org/learningu/scheduling/logic/ChainedScheduleLogic.java:36-44 | the validator gains exactly StartEffect of the logic, for every logic class |
| LogicFacts.LockedStartAddsNothing | src/org/learningu/scheduling/logic/ChainedScheduleLogic.java:38-40 | a chain skips a locked start assignment entirely |
| LogicFacts.ChainStartValidIff | src/org/learningu/scheduling/logic/ChainedScheduleLogic.java:41-43 | a prefix of a chain is valid on a start exactly when each sub-logic in it is |
| LogicFacts.ChainPresentValidIff | src/org/learningu/scheduling/logic/ChainedScheduleLogic.java:50-52 | a prefix of a chain is valid on a present assignment exactly when each sub-logic in it is |
| LogicFacts.ChainMemberPasses | src/org/learningu/scheduling/logic/ChainedScheduleLogic.java:50-52 | a present assignment passing a chain passes each of its sub-logics |
| LogicFacts.ChainValidIff | src/org/learningu/scheduling/logic/ChainedScheduleLogic.java:36-57 | an unlocked start (and any present assignment) passes a chain exactly when it passes every sub-logic; an empty chain adds nothing |
| LogicFacts.PresentsValidIff | src/org/learningu/scheduling/logic/ScheduleLogic.java:8-12 | the inherited start check is valid exactly when the logic passes every present assignment |
| LogicFacts.NoPresentCheck | src/org/learningu/scheduling/logic/ScheduleLogic.java:14-15 | a logic without its own present check adds nothing over the present assignments |
| LogicFacts.DuplicateStartIsOwnCheck | src/org/learningu/scheduling/logic/DuplicateSectionLogic.java:21-29 | the duplicate logic on a start is exactly its own check |
| LogicFacts.PrerequisiteStartIsOwnCheck | src/org/learningu/scheduling/logic/PrerequisiteLogic.java:16-35 | the prerequisite logic on a start is exactly its own check |
| LogicFacts.RoomPropertyStartIsOwnCheck | src/org/learningu/scheduling/logic/RoomPropertyLogic.java:17-31 | the room-property logic on a start is exactly its own check |
| LogicFacts.BaseStartAddsNothing | src/org/learningu/scheduling/logic/ScheduleLogic.java:8-15 | the base logic never adds a conflict |
| LogicFacts.RoomConflictStartIff | src/org/learningu/scheduling/logic/RoomConflictLogic.java:14-22 | the room logic passes a start exactly when none of the periods it would occupy is occupied in its room |
| LogicFacts.PassesRoomConflict | src/org/learningu/scheduling/logic/RoomConflictLogic.java:18-21 | one present assignment passes the room logic exactly when its room is free at its period |
| ScheduleLogic.LunchesLeft | src/org/learningu/scheduling/logic/LunchLogic.java:28-38 | the lunch periods still to be checked are exactly those of the block that the assignment does not cover |
| Conditions.Condition.Create | src/org/learningu/scheduling/util/Condition.java:21-23 | a new root condition passes and has no parent |
| Conditions.Condition.Sub | src/org/learningu/scheduling/util/Condition.java:33-37 | a new condition passes, with the given parent, and its ancestors are the parent's chain |
| Conditions.Condition.CreateSubCondition | src/org/learningu/scheduling/util/Condition.java:60-63 | a fresh passing condition whose parent is this one and whose ancestors are this one's chain |
| Conditions.Condition.Verify | src/org/learningu/scheduling/util/Condition.java:65-72 | a failed check marks this condition and every ancestor as failing; a passed one changes nothing; no other condition is touched |
| Conditions.Condition.ChainShape | src/org/learningu/scheduling/util/Condition.java:68 | walking parent links from a condition visits exactly its chain, ending at the root |
| Conditions.Condition.Passes | src/org/learningu/scheduling/util/Condition.java:74-76 | passes is the condition's flag |
| Conditions.Condition.AssertPasses | src/org/learningu/scheduling/util/Condition.java:78-82 | an assertion failure exactly when the condition does not pass |
| ScheduleUpdates.AssignEffect | src/org/learningu/scheduling/schedule/Schedule.java:303-307 | the validator of assignStart is (locally) valid exactly when the start check and every present check are |
| ScheduleUpdates.AssignedState | src/org/learningu/scheduling/schedule/Schedule.java:308-319 | a rejected assignment leaves the schedule as it was; an accepted one is contained in the new schedule, is filed under its section, and no other room changes |
| ScheduleUpdates.AssignStart | src/org/learningu/scheduling/schedule/Schedule.java:302-320 | the fresh validator holds exactly AssignEffect and the schedule returned is AssignedState |
| ScheduleUpdates.ValidAssignPassesPresent | src/org/learningu/scheduling/schedule/Schedule.java:304-307 | an accepted assignment passes the logic at each of its present assignments |
| ScheduleUpdates.RoomFreeAt | src/org/learningu/scheduling/schedule/Schedule.java:302-320 | with RoomConflictLogic in the chain, an accepted assignment finds its room free at each period it needs |
| ScheduleUpdates.NotCovered | src/org/learningu/scheduling/schedule/Schedule.java:302-320 | with RoomConflictLogic in the chain, no start already in the room covers a period an accepted assignment needs |
| ScheduleUpdates.StartsApart | src/org/learningu/scheduling/schedule/Schedule.java:302-320 | an accepted start and a start already in its block of the room do not overlap |
| ScheduleUpdates.AssignKeepsRoomFree | src/org/learningu/scheduling/schedule/Schedule.java:302-320 | with RoomConflictLogic in the chain, assignStart never double-books the assignment's room |
| ScheduleUpdates.AssignKeepsRoomsFree | src/org/learningu/scheduling/schedule/Schedule.java:302-320 | with RoomConflictLogic in the chain, assignStart keeps every room of the schedule free of overlaps |
| ScheduleUpdates.Starts | src/org/learningu/scheduling/schedule/Schedule.java:348 | the start assignment of each present assignment, in order |
| ScheduleUpdates.PresentTargets | src/org/learningu/scheduling/schedule/Schedule.java:345-350 | a start is removed for the present conflicts exactly when it is the start of some conflicting present assignment |
| ScheduleUpdates.StartTargets | src/org/learningu/scheduling/schedule/Schedule.java:351-355 | a start is removed for the start conflicts exactly when it is some conflicting start assignment |
| ScheduleUpdates.TargetsKnownRooms | src/org/learningu/scheduling/schedule/Schedule.java:345-356 | every removal target's room has a map in the schedule |
| ScheduleUpdates.RemoveTargetValid | src/org/learningu/scheduling/schedule/Schedule.java:322-334 | one removal keeps the schedule well formed, with the same program and rooms |
| ScheduleUpdates.RemoveTarget | src/org/learningu/scheduling/schedule/Schedule.java:348 | no contract of its own: one `removeStartingAt` at the target's period and room; RemoveTargetValid states what it keeps |
| ScheduleUpdates.LastRemovalValid | src/org/learningu/scheduling/schedule/Schedule.java:344-356 | the as-written removals keep the schedule well formed, with the same program and rooms |
| ScheduleUpdates.LastRemoval | src/org/learningu/scheduling/schedule/Schedule.java:344-356 | no contract of its own: the removals as written, each starting again from the original schedule; LastRemovalValid, LastRemovalSnoc and LastRemovalKeepsEarlier state its properties |
| ScheduleUpdates.RemoveEach | src/org/learningu/scheduling/schedule/Schedule.java:344-356 | no contract of its own: the removals as intended, each applied to the schedule the previous one left; RemoveEachValid, RemoveEachSnoc, RemoveEachClears, RemoveEachShrinks and RemoveEachKeeps state its properties |
| ScheduleUpdates.RemoveEachValid | src/org/learningu/scheduling/schedule/Schedule.java:344-356 | the intended removals keep the schedule well formed, with the same program and rooms |
| ScheduleUpdates.LastRemovalSnoc | src/org/learningu/scheduling/schedule/Schedule.java:348-349 | as written, each removal restarts from the original schedule, so appending a target leaves only its removal |
| ScheduleUpdates.RemoveEachSnoc | src/org/learningu/scheduling/schedule/Schedule.java:348-349 | as intended, appending a target applies one more removal to the schedule so far |
| ScheduleUpdates.SameRoomKey | src/org/learningu/scheduling/schedule/Schedule.java:269 | rooms with the same identity share one period map |
| ScheduleUpdates.RemoveStep | src/org/learningu/scheduling/schedule/Schedule.java:322-334 | one removal deletes only the target's period from the target's room |
| ScheduleUpdates.RemoveEachStep | src/org/learningu/scheduling/schedule/Schedule.java:344-356 | the last intended removal deletes only the last target's period from its room |
| ScheduleUpdates.RemoveEachStepAt | src/org/learningu/scheduling/schedule/Schedule.java:344-356 | the same step, for one room |
| ScheduleUpdates.KeptThroughStep | src/org/learningu/scheduling/schedule/Schedule.java:344-356 | a start the last removal does not target survives it |
| ScheduleUpdates.RemoveEachClears | src/org/learningu/scheduling/schedule/Schedule.java:344-356 | after the intended removals no target's start is left in its room |
| ScheduleUpdates.RemoveEachShrinks | src/org/learningu/scheduling/schedule/Schedule.java:344-356 | the intended removals only delete: every start left was there before, unchanged |
| ScheduleUpdates.RemoveEachKeeps | src/org/learningu/scheduling/schedule/Schedule.java:344-356 | the intended removals delete nothing but the targets |
| ScheduleUpdates.LastRemovalKeepsEarlier | src/org/learningu/scheduling/schedule/Schedule.java:344-356 | as written, every earlier target that lies elsewhere than the last one is still scheduled |
| ScheduleUpdates.RemoveOneAsWritten | src/org/learningu/scheduling/schedule/Schedule.java:349 | one removal as written is removeStartingAt on the original schedule |
| ScheduleUpdates.RemoveOne | src/org/learningu/scheduling/schedule/Schedule.java:349 | one removal as intended is removeStartingAt on the schedule so far |
| ScheduleUpdates.RemovePresentStartsAsWritten | src/org/learningu/scheduling/schedule/Schedule.java:346-349 | the inner present loop as written equals LastRemoval over the conflicting starts |
| ScheduleUpdates.RemoveStartsAsWritten | src/org/learningu/scheduling/schedule/Schedule.java:352-354 | the inner start loop as written equals LastRemoval over the conflicting starts |
| ScheduleUpdates.RemovePresentStarts | src/org/learningu/scheduling/schedule/Schedule.java:346-349 | the inner present loop as intended equals RemoveEach over the conflicting starts |
| ScheduleUpdates.RemoveStarts | src/org/learningu/scheduling/schedule/Schedule.java:352-354 | the inner start loop as intended equals RemoveEach over the conflicting starts |
| ScheduleUpdates.PresentTargetsStep | src/org/learningu/scheduling/schedule/Schedule.java:345-350 | the present targets grow conflict by conflict |
| ScheduleUpdates.StartTargetsStep | src/org/learningu/scheduling/schedule/Schedule.java:351-355 | the start targets grow conflict by conflict |
| ScheduleUpdates.RemovePresentConflictsAsWritten | src/org/learningu/scheduling/schedule/Schedule.java:345-350 | the first loop as written equals LastRemoval over all present targets |
| ScheduleUpdates.RemoveStartConflictsAsWritten | src/org/learningu/scheduling/schedule/Schedule.java:351-355 | the second loop as written continues LastRemoval over all start targets |
| ScheduleUpdates.RemoveConflictingAsWritten | src/org/learningu/scheduling/schedule/Schedule.java:344-356 | both loops as written equal LastRemoval over every target |
| ScheduleUpdates.RemovePresentConflicts | src/org/learningu/scheduling/schedule/Schedule.java:345-350 | the first loop as intended equals RemoveEach over all present targets |
| ScheduleUpdates.RemoveStartConflicts | src/org/learningu/scheduling/schedule/Schedule.java:351-355 | the second loop as intended continues RemoveEach over all start targets |
| ScheduleUpdates.RemoveConflicting | src/org/learningu/scheduling/schedule/Schedule.java:344-356 | both loops as intended equal RemoveEach over every target |
| ScheduleUpdates.ForceAssignStartAsWritten | src/org/learningu/scheduling/schedule/Schedule.java:336-358 | a locally invalid assignment is refused with its validator and the schedule unchanged; otherwise assignStart runs on the schedule as the as-written removals leave it |
| ScheduleUpdates.ForceAssignStart | src/org/learningu/scheduling/schedule/Schedule.java:336-358 | the same, with assignStart run on the schedule left after every conflicting start is removed |
| ScheduleUpdates.AcceptedIsNew | src/org/learningu/scheduling/logic/DuplicateSectionLogic.java:19-30 | with DuplicateSectionLogic in the chain, an accepted unlocked start is of a section not yet scheduled |
| ScheduleUpdates.AcceptedSlotFree | src/org/learningu/scheduling/logic/RoomConflictLogic.java:15-22 | with RoomConflictLogic in the chain, an accepted start of at least one period finds nothing booked at its start period in its room |
| ScheduleUpdates.AssignKeepsTablesAgree | src/org/learningu/scheduling/schedule/Schedule.java:302-320 | with both logics in the chain, assignStart of an unlocked start of at least one period keeps the two tables in agreement |
| ScheduleUpdates.LastRemovalKeepsTablesAgree | src/org/learningu/scheduling/schedule/Schedule.java:344-356 | the removals as written keep the two tables in agreement |
| ScheduleUpdates.RemoveEachKeepsTablesAgree | src/org/learningu/scheduling/schedule/Schedule.java:344-356 | the removals as intended keep the two tables in agreement |
| ScheduleSerial.Resolve | src/org/learningu/scheduling/schedule/Schedules.java:28-32 | an entry resolves exactly when its three ids are known and form a valid start assignment, which then carries the entry's lock flag; every failure is an IllegalArgumentException |
| ScheduleSerial.StepFacts | src/org/learningu/scheduling/schedule/Schedules.java:28-40 | one entry keeps the schedule well formed over the same program and rooms and never drops a section |
| ScheduleSerial.StepState | src/org/learningu/scheduling/schedule/Schedules.java:28-40 | no contract of its own: the schedule after one entry; StepFacts and StepAdds state its properties |
| ScheduleSerial.StepAdds | src/org/learningu/scheduling/schedule/Schedules.java:33-40 | an accepted entry has its section entered |
| ScheduleSerial.ReplayValid | src/org/learningu/scheduling/schedule/Schedules.java:26-44 | the loop keeps the schedule well formed over the same program and rooms |
| ScheduleSerial.Replay | src/org/learningu/scheduling/schedule/Schedules.java:26-44 | no contract of its own: the deserialize loop over the entries in list order; ReplayValid, ReplayGoodIff, ReplayKeepsSections and ReplayHoldsSection state its properties |
| ScheduleSerial.AcceptedOfPrefix | src/org/learningu/scheduling/schedule/Schedules.java:26-44 | whether an entry passes does not depend on the entries after it |
| ScheduleSerial.Accepted | src/org/learningu/scheduling/schedule/Schedules.java:26-44 | no contract of its own: entry i passes on the schedule built from the entries before it; AcceptedOfPrefix and ReplayGoodIff state its properties |
| ScheduleSerial.ReplayGoodStep | src/org/learningu/scheduling/schedule/Schedules.java:34-39 | the flag after an entry is the flag before it and that entry passing |
| ScheduleSerial.ReplayGoodAt | src/org/learningu/scheduling/schedule/Schedules.java:25-44 | a surviving flag means every entry passed |
| ScheduleSerial.ReplayBadSome | src/org/learningu/scheduling/schedule/Schedules.java:25-44 | a cleared flag means some entry failed |
| ScheduleSerial.ReplayGoodIff | src/org/learningu/scheduling/schedule/Schedules.java:25-48 | the flag survives exactly when every entry passes on the schedule built from the entries before it |
| ScheduleSerial.ReplayKeepsSections | src/org/learningu/scheduling/schedule/Schedules.java:26-44 | the loop only adds sections to the assignment table |
| ScheduleSerial.ReplayHoldsSection | src/org/learningu/scheduling/schedule/Schedules.java:21-51 | when the flag survives, every entry that resolves has its section in the result |
| ScheduleSerial.StepKeepsSection | src/org/learningu/scheduling/schedule/Schedules.java:33-40 | a section entered before an entry is still entered after it |
| ScheduleSerial.LastEntryHeld | src/org/learningu/scheduling/schedule/Schedules.java:33-40 | an accepted entry that resolves has its section entered |
| ScheduleSerial.DeserializeEntry | src/org/learningu/scheduling/schedule/Schedules.java:27-43 | one pass of the loop reports exactly whether the entry passes and yields the schedule after it |
| ScheduleSerial.ReplayNext | src/org/learningu/scheduling/schedule/Schedules.java:26-44 | replaying one more entry applies one more step |
| ScheduleSerial.Deserialize | src/org/learningu/scheduling/schedule/Schedules.java:21-51 | starting from the factory's empty schedule, the result is the replayed schedule when every entry passes, and an AssertionError otherwise |
| ScheduleSerial.ToSerial | src/org/learningu/scheduling/schedule/Schedules.java:56-60 | the written entry carries the assignment's ids and no lock flag |
| ScheduleSerial.ResolveToSerial | src/org/learningu/scheduling/schedule/Schedules.java:28-32 | reading back a written assignment gives the assignment again, unlocked |
| ScheduleSerial.Serialize | src/org/learningu/scheduling/schedule/Schedules.java:53-63 | one entry per scheduled section, in the assignment table's section order, each the ids of that section's assignment |
| ScheduleSerial.Int32 | src/org/learningu/scheduling/schedule/Schedule.java:259-265 | a Java int: in range, and equal to its argument when that is in range |
| ScheduleSerial.Int32Add | src/org/learningu/scheduling/schedule/Schedule.java:262 | adding to a wrapped sum wraps the exact sum |
| ScheduleSerial.SizeSumIsTotal | src/org/learningu/scheduling/schedule/Schedule.java:259-265 | without saturation the sum of the map sizes is the number of starts |
| ScheduleSerial.RoomEntryValid | src/org/learningu/scheduling/schedule/Schedule.java:261 | every map of the room table's entries is well formed |
| ScheduleSerial.SizeSumStep | src/org/learningu/scheduling/schedule/Schedule.java:262 | each step adds the room map's saturated size |
| ScheduleSerial.StartCountStep | src/org/learningu/scheduling/schedule/Schedule.java:261-263 | one pass of the size loop keeps the wrapped running sum |
| ScheduleSerial.StartCount | src/org/learningu/scheduling/schedule/Schedule.java:258-265 | size() is the wrapped sum of the room maps' saturated sizes |
| ScheduleSerial.StartCountIsTotal | src/org/learningu/scheduling/schedule/Schedule.java:258-265 | for fewer than 2^31 starts, size() is the number of starts |
| ScheduleSerial.PairCard | src/org/learningu/scheduling/schedule/Schedule.java:261-262 | a room contributes as many (room, period) pairs as its map has periods |
| ScheduleSerial.SlotKeysMember | src/org/learningu/scheduling/schedule/Schedule.java:261-262 | a (room, period) pair is counted exactly when the room's entry holds that period |
| ScheduleSerial.SlotKeysFrom | src/org/learningu/scheduling/schedule/Schedule.java:261-262 | every counted (room, period) pair comes from a room entry that holds that period |
| ScheduleSerial.SlotKeysHas | src/org/learningu/scheduling/schedule/Schedule.java:261-262 | every period a room entry holds is counted with that room |
| ScheduleSerial.SlotKeysCount | src/org/learningu/scheduling/schedule/Schedule.java:259-265 | the (room, period) pairs of the room table number the starts it holds |
| ScheduleSerial.MapOfFrom | src/org/learningu/scheduling/schedule/Schedule.java:261 | every key of the room table comes from one of its entries, with that entry's map |
| ScheduleSerial.EntrySlotsAreSlots | src/org/learningu/scheduling/schedule/Schedule.java:259-265 | the pairs counted over the entry list are exactly the booked (room, period) pairs of the schedule |
| ScheduleSerial.SlotOfInjective | src/org/learningu/scheduling/schedule/Schedule.java:239-265 | in agreeing tables, two scheduled sections never share a room and period |
| ScheduleSerial.SlotOfOnto | src/org/learningu/scheduling/schedule/Schedule.java:239-265 | in agreeing tables, every booked (room, period) pair is the slot of some scheduled section |
| ScheduleSerial.SlotOfCard | src/org/learningu/scheduling/schedule/Schedule.java:239-265 | an injective slot map keeps the number of sections |
| ScheduleSerial.AssignmentsAreSlots | src/org/learningu/scheduling/schedule/Schedule.java:239-265 | in agreeing tables, there are as many scheduled sections as booked (room, period) pairs |
| ScheduleSerial.SizeIsSerialLength | src/org/learningu/scheduling/schedule/Schedules.java:53-63 | in agreeing tables with fewer than 2^31 starts, size() equals the number of entries serialize writes |
| ScheduleFindings.OneRoom | src/org/learningu/scheduling/schedule/Schedule.java:67-74 | the factory's schedule for a one-room program: the room with an empty map and no assignments |
| ScheduleFindings.TwoStarts | src/org/learningu/scheduling/schedule/Schedule.java:308-316 | two one-period sections booked at the two periods of one block of the room |
| ScheduleFindings.TwoTargetsAsWritten | src/org/learningu/scheduling/schedule/Schedule.java:344-356 | with two targets in one room, the loops as written leave the first one booked, while the corrected loops clear both |
| ScheduleFindings.ForceAssignKeepsEarlierConflict | src/org/learningu/scheduling/schedule/Schedule.java:336-358 | force-assigning a two-period section over two booked starts leaves the first booked as written, and frees both periods when corrected |
| ScheduleFindings.LongStart | src/org/learningu/scheduling/schedule/Schedule.java:308-316 | one two-period section booked at the first period of the block |
| ScheduleFindings.ContainsKeyMissesCover | src/org/learningu/scheduling/schedule/Schedule.java:183-196 | for a room whose only start covers a later period, containsKey of the view says no while get finds the start, and the corrected containsKey says yes |
| ScheduleFindings.OccurringAtViewDisagrees | src/org/learningu/scheduling/schedule/Schedule.java:183-196 | the concrete case: in the view at the second period, containsKey misses the room that get finds |
| ScheduleFindings.OneStart | src/org/learningu/scheduling/schedule/Schedule.java:308-316 | one one-period section booked at the first period of the room, with the tables in agreement |
| ScheduleFindings.P1Free | src/org/learningu/scheduling/schedule/Schedule.java:290-300 | in a room holding only that start, nothing occurs at the second period |
| ScheduleFindings.LockedDuplicateAccepted | src/org/learningu/scheduling/logic/ChainedScheduleLogic.java:37-52 | a locked second start of the same section at the second period passes the duplicate and room checks |
| ScheduleFindings.MisfiledSlot | src/org/learningu/scheduling/schedule/Schedule.java:239-265 | tables holding a section at one period while its assignment names another do not agree |
| ScheduleFindings.SecondStartSplitsTables | src/org/learningu/scheduling/schedule/Schedule.java:308-316 | entering a second start of a booked section at another period breaks the agreement |
| ScheduleFindings.LockedDuplicateSplitsTables | src/org/learningu/scheduling/logic/ChainedScheduleLogic.java:37-44 | the concrete case: a locked duplicate start is accepted and leaves the two tables disagreeing |
| LegacySchedule.Contains | src/org/learningu/scheduling/MutableSchedule.java:55 | Table.contains: a hash table contains the cells holding a value, an array table every cell of its row and column keys |
| LegacySchedule.AssignStep | src/org/learningu/scheduling/MutableSchedule.java:53-59 | assign succeeds exactly on a hash table with the cell and the course both free, and then enters the assignment in both tables; a taken cell or course is an IllegalStateException that changes nothing |
| LegacySchedule.RemoveStep | src/org/learningu/scheduling/MutableSchedule.java:46-51 | remove succeeds exactly when the course holds this very assignment on a hash table, and then clears both entries; an unassigned course is a NullPointerException, a different assignment an IllegalArgumentException, and failures change nothing |
| LegacySchedule.AssignKeepsConsistent | src/org/learningu/scheduling/MutableSchedule.java:53-59 | a successful assign keeps the table and the course map in agreement |
| LegacySchedule.RemoveKeepsConsistent | src/org/learningu/scheduling/MutableSchedule.java:46-51 | a successful remove keeps the table and the course map in agreement |
| LegacySchedule.AssignThenRemove | src/org/learningu/scheduling/MutableSchedule.java:46-59 | on a consistent hash-backed schedule, assign then remove restores the prior state |
| LegacySchedule.AssignOnArrayTableFails | src/org/learningu/scheduling/MutableSchedule.java:25-30 | on the array table that create(program) builds, assign never succeeds; a cell outside its keys leaves the two tables in disagreement |
| LegacySchedule.MutableSchedule.Create | src/org/learningu/scheduling/MutableSchedule.java:25-30 | an array-backed schedule over the program's blocks and rooms, with both tables empty |
| LegacySchedule.MutableSchedule.CopyOf | src/org/learningu/scheduling/MutableSchedule.java:32-36 | a hash-backed schedule holding copies of the given tables |
| LegacySchedule.MutableSchedule.Assign | src/org/learningu/scheduling/MutableSchedule.java:53-59 | the exception and the new state are those of AssignStep |
| LegacySchedule.MutableSchedule.Remove | src/org/learningu/scheduling/MutableSchedule.java:46-51 | the exception and the new state are those of RemoveStep |
| LegacyProgram.Get | src/org/learningu/scheduling/Program.java:105-111 | the value stored under the key, or NoSuchElementException exactly when there is none |
| LegacyProgram.Set | src/org/learningu/scheduling/Program.java:113-119 | as written: any non-null value is stored, replacing an earlier one; only null throws |
| LegacyProgram.SetChecked | src/org/learningu/scheduling/Program.java:113-119 | as intended: a null value or a key already present throws; otherwise the map grows by one |
| LegacyProgram.MakeIdMap | src/org/learningu/scheduling/Program.java:121-127 | throws NullPointerException exactly when an element is null (at `getId`); otherwise maps every id to the object of its last element, keys being the ids present |
| LegacyProgram.MakeIdMapChecked | src/org/learningu/scheduling/Program.java:121-127 | succeeds exactly when no element is null and the ids are distinct, mapping every element's id to it; otherwise fails at the first null element (NullPointerException) or the first repeated id (IllegalArgumentException) |
| LegacyProgram.DistinctValues | src/org/learningu/scheduling/Program.java:121-127 | with no null elements and distinct ids the map as written holds every element under its id and has one entry per element, so the two versions agree |
| LegacyProgram.LastValuesKeys | src/org/learningu/scheduling/Program.java:121-127 | the keys of the map as written are exactly the ids of the non-null elements |
| LegacyProgram.DuplicateIdOverwrites | src/org/learningu/scheduling/Program.java:113-127 | two items with one id: as written the second silently wins, the intended check refuses them |
| LegacyProgram.ReverseIndex | src/org/learningu/scheduling/Program.java:55-61 | succeeds exactly when the list has no repeated element, mapping each element to its position |
| LegacyProgram.FirstTimeBlock | src/org/learningu/scheduling/Program.java:63-69 | an empty map throws; a result is reached along prevTime links and has no predecessor; a link to a missing id is a NullPointerException; a cycle never ends |
| LegacyProgram.OrderedTimeBlocks | src/org/learningu/scheduling/Program.java:71-83 | the blocks followed are chained by nextTime from the first; a complete result ends at a block without a successor; a missing id is a NoSuchElementException; with assertions on, each link must be mirrored by prevTime |
| Text.Split | src/org/learningu/scheduling/flags/Converters.java:137 | at least one piece, and no piece contains the separator |
| Text.JoinSplit | src/org/learningu/scheduling/flags/Converters.java:137 | joining the pieces with the separator gives back the text |
| Text.Join | src/org/learningu/scheduling/flags/Converters.java:137 | no contract of its own: the pieces with the separator between consecutive ones; JoinSplit and SplitJoin state that it inverts the split |
| Text.SplitJoin | src/org/learningu/scheduling/flags/Converters.java:137 | splitting a join of separator-free pieces gives back the pieces |
| Text.SplitPiece | src/org/learningu/scheduling/flags/Converters.java:137 | a piece free of the separator splits into itself |
| Text.SplitPrefix | src/org/learningu/scheduling/flags/Converters.java:137 | text before the first separator is the first piece |
| Text.TrimStart | src/org/learningu/scheduling/flags/Converters.java:137 | a suffix of the text that does not start with whitespace, and everything removed is whitespace |
| Text.TrimEnd | src/org/learningu/scheduling/flags/Converters.java:137 | a prefix of the text that does not end with whitespace, and everything removed is whitespace |
| Text.Trim | src/org/learningu/scheduling/flags/Converters.java:137 | neither end of the result is whitespace |
| Text.TrimInfix | src/org/learningu/scheduling/flags/Converters.java:137 | the text is whitespace, then the trimmed result, then whitespace |
| Text.TrimParts | src/org/learningu/scheduling/flags/Converters.java:137 | the pieces around a trimmed infix are whitespace |
| Text.TrimIdempotent | src/org/learningu/scheduling/flags/Converters.java:137 | trimming twice is trimming once |
| Text.SplitTrim | src/org/learningu/scheduling/flags/Converters.java:137 | one trimmed piece per piece of the split, in order |
| Text.Lower | src/org/learningu/scheduling/flags/Converters.java:38 | each character lower-cased, the length kept |
| Text.Decimal | src/org/learningu/scheduling/flags/Converters.java:31 | decimal digits whose value is the number |
| Text.ParseInt | src/org/learningu/scheduling/flags/Converters.java:31 | success only on an optional sign and at least one digit whose value fits in 32 bits, giving that value; every failure is a NumberFormatException |
| Text.ParseIntText | src/org/learningu/scheduling/flags/Converters.java:31 | every 32-bit int parses back from its decimal text |
| Text.LessIrreflexive | src/org/learningu/scheduling/flags/Converters.java:152 | no string is below itself |
| Text.Less | src/org/learningu/scheduling/flags/Converters.java:152 | no contract of its own: lexicographic order by character, a proper prefix first; LessIrreflexive, LessTransitive and LessTotal state that it is a strict total order |
| Text.LessTransitive | src/org/learningu/scheduling/flags/Converters.java:152 | the string order is transitive |
| Text.LessTotal | src/org/learningu/scheduling/flags/Converters.java:152 | any two strings are ordered or equal |
| Sequences.FirstOccurrences | src/org/learningu/scheduling/flags/Converters.java:152-156 | the insertion-ordered set holds exactly the elements of the list |
| Sequences.FirstOccurrencesDistinct | src/org/learningu/scheduling/flags/Converters.java:152-156 | the set holds each element once |
| Sequences.FirstOccurrencesOfDistinct | src/org/learningu/scheduling/flags/Converters.java:152-156 | a list without repeats is kept as it is |
| Sequences.FirstOccurrencesSnoc | src/org/learningu/scheduling/flags/Converters.java:152-156 | adding an element appends it unless it is already there |
| FlagConverters.ConverterFor | src/org/learningu/scheduling/flags/Converters.java:161-192 | a parameterized List, Set or Optional type gets that converter around its argument's converter; a plain enum, Integer, int, String, File, URI, Period or Duration type its own; anything else, Boolean and Double included, is an IllegalArgumentException |
| FlagConverters.Parse | src/org/learningu/scheduling/flags/Converters.java:28-159 | the string converter is the identity; a list holds one value per trimmed piece, a set at most that many, an optional converter yields an optional value |
| FlagConverters.Collect | src/org/learningu/scheduling/flags/Converters.java:138-142 | the builder loop's outcome: it succeeds exactly when every result succeeds, then holding each value in order; otherwise its error is that of the first failure, every earlier result succeeding |
| FlagConverters.ParseAll | src/org/learningu/scheduling/flags/Converters.java:139-141 | one value per piece when it succeeds; ParseAllPieces states which values and which error |
| FlagConverters.Parses | src/org/learningu/scheduling/flags/Converters.java:139-140 | one parse result per piece |
| FlagConverters.ParseAllCollects | src/org/learningu/scheduling/flags/Converters.java:138-142 | parsing the pieces one after another, stopping at the first exception, is Collect over their parses |
| FlagConverters.ParseAllPieces | src/org/learningu/scheduling/flags/Converters.java:139-141 | the pieces parse exactly when each piece parses; then the values are those of the pieces, in order; otherwise the error is that of the first piece that fails, every earlier piece parsing |
| FlagConverters.ListParsesPieces | src/org/learningu/scheduling/flags/Converters.java:133-145 | the list converter gives the values of its trimmed comma-separated pieces, or their first error |
| FlagConverters.SetParsesPieces | src/org/learningu/scheduling/flags/Converters.java:147-159 | the set converter gives the first occurrence of each of those values, in order, or their first error |
| FlagConverters.ListPieces | src/org/learningu/scheduling/flags/Converters.java:133-145 | a list flag parses exactly when every piece parses; then item i is piece i parsed; otherwise its error is that of the first piece that fails |
| FlagConverters.BooleanFalseExactly | src/org/learningu/scheduling/flags/Converters.java:35-44 | the boolean converter gives false exactly for null, "false" and "f" in any case |
| FlagConverters.BooleanExamples | src/org/learningu/scheduling/flags/Converters.java:38 | "FALSE" and "F" are false and "no" is true |
| FlagConverters.StringIdentity | src/org/learningu/scheduling/flags/Converters.java:46-51 | the string converter is chosen for String and returns its text |
| FlagConverters.StringListPieces | src/org/learningu/scheduling/flags/Converters.java:139-141 | the string converter accepts every piece unchanged |
| FlagConverters.StringList | src/org/learningu/scheduling/flags/Converters.java:133-145 | a List of String flag holds every trimmed piece of its text, in order, empty ones included |
| FlagConverters.SetIsListWithoutRepeats | src/org/learningu/scheduling/flags/Converters.java:147-159 | a set flag parses exactly when the list parses, and holds the list items in the order of their first occurrence, each once and nothing else |
| FlagConverters.OptionalPlus | src/org/learningu/scheduling/flags/Converters.java:116-131 | empty text is absent; a plus followed by text is the text parsed |
| FlagConverters.OptionalNeedsPlus | src/org/learningu/scheduling/flags/Converters.java:123-126 | non-empty text without a leading plus is an IllegalArgumentException |
| FlagConverters.BooleanNotDispatched | src/org/learningu/scheduling/flags/Converters.java:161-192 | converterFor never picks the boolean converter |
| PrettyCsv.Escape | src/org/learningu/scheduling/pretty/Csv.java:65-70 | escaping only lengthens the text and leaves quote-free text unchanged |
| PrettyCsv.UnescapeEscape | src/org/learningu/scheduling/pretty/Csv.java:65-70 | undoing the doubled quotes gives back the original text |
| PrettyCsv.Quote | src/org/learningu/scheduling/pretty/Csv.java:65-70 | a cell added with text starts and ends with a double quote |
| PrettyCsv.QuoteRoundTrip | src/org/learningu/scheduling/pretty/Csv.java:65-70 | stripping the outer quotes and undoing the doubling gives back the text |
| PrettyCsv.RowSplitsBack | src/org/learningu/scheduling/pretty/Csv.java:51-54 | a row whose cells hold no comma splits back into its cells |
| PrettyCsv.Row.Text | src/org/learningu/scheduling/pretty/Csv.java:51-54 | no contract of its own: the cells joined by commas; RowSplitsBack states that it splits back into the cells |
| PrettyCsv.RowTexts | src/org/learningu/scheduling/pretty/Csv.java:22-25 | one rendered text per row, in order |
| PrettyCsv.CsvSplitsBack | src/org/learningu/scheduling/pretty/Csv.java:22-25 | a table whose rows hold no line break splits back, line by line, into its rows |
| PrettyCsv.Csv.Text | src/org/learningu/scheduling/pretty/Csv.java:22-25 | no contract of its own: the rows joined by line feeds; CsvSplitsBack states that it splits back into the rows |
| PrettyCsv.RowBuilder.constructor | src/org/learningu/scheduling/pretty/Csv.java:60-62 | a new row builder has no cells |
| PrettyCsv.RowBuilder.Add | src/org/learningu/scheduling/pretty/Csv.java:64-72 | one quoted cell is appended, and it reads back as the message, formatted only when there are arguments |
| PrettyCsv.RowBuilder.AddBlank | src/org/learningu/scheduling/pretty/Csv.java:74-77 | one empty cell is appended |
| PrettyCsv.RowBuilder.Build | src/org/learningu/scheduling/pretty/Csv.java:79-81 | the row holds the cells added, in order |
| PrettyCsv.CsvBuilder.constructor | src/org/learningu/scheduling/pretty/Csv.java:30-32 | a new table builder has no rows |
| PrettyCsv.CsvBuilder.Add | src/org/learningu/scheduling/pretty/Csv.java:34-37 | one row is appended |
| PrettyCsv.CsvBuilder.Build | src/org/learningu/scheduling/pretty/Csv.java:39-41 | the table holds the rows added, in order |
| CsvSchedule.RoomIndex | src/org/learningu/scheduling/CsvScheduleToProto.java:79-85 | a repeated room name is an IllegalArgumentException |
| CsvSchedule.RoomIndexFacts | src/org/learningu/scheduling/CsvScheduleToProto.java:79-85 | the index is built exactly when no two rooms share a name, and then maps each room's name to its id and holds no other name |
| CsvSchedule.Earlier | src/org/learningu/scheduling/CsvScheduleToProto.java:56-62 | the earlier of the new start and the kept one by period id, the new one on a tie or when none is kept |
| CsvSchedule.Keep | src/org/learningu/scheduling/CsvScheduleToProto.java:106-107 | offering a start adds its section to the kept sections |
| CsvSchedule.KeepValid | src/org/learningu/scheduling/CsvScheduleToProto.java:106-107 | every kept start stays filed under its own section |
| CsvSchedule.ParseLineCells | src/org/learningu/scheduling/CsvScheduleToProto.java:90-98 | a line is accepted only with at least two cells; a start is read only when the second cell names a known room and the first and third cells parse as the section and period ids; an unknown room gives no start |
| CsvSchedule.ParseLine | src/org/learningu/scheduling/CsvScheduleToProto.java:90-98 | no contract of its own: what one line contributes; ParseLineCells states when it fails, when it yields nothing and what start it yields |
| CsvSchedule.FirstAssignments | src/org/learningu/scheduling/CsvScheduleToProto.java:88-109 | the kept sections are exactly the sections of the starts read |
| CsvSchedule.FirstAssignmentsAreMinimal | src/org/learningu/scheduling/CsvScheduleToProto.java:88-109 | each section keeps one of its own starts, with the smallest period id among them |
| CsvSchedule.KeepMinimal | src/org/learningu/scheduling/CsvScheduleToProto.java:106-107 | offering a start keeps each section's start minimal |
| CsvSchedule.SectionKept | src/org/learningu/scheduling/CsvScheduleToProto.java:106-107 | every start read has its section kept |
| CsvSchedule.CsvProcessor.constructor | src/org/learningu/scheduling/CsvScheduleToProto.java:75-86 | a new processor holds the room index and no kept start |
| CsvSchedule.CsvProcessor.ProcessLine | src/org/learningu/scheduling/CsvScheduleToProto.java:88-109 | true for every line that does not throw, with the start kept as Keep says or nothing changed for an unknown room; a malformed line throws and changes nothing |
| CsvSchedule.CsvProcessor.GetResult | src/org/learningu/scheduling/CsvScheduleToProto.java:111-114 | every kept start exactly once, one per section |
| CsvSchedule.ReadLines | src/org/learningu/scheduling/CsvScheduleToProto.java:117-121 | reading a file stops at the first exception; otherwise the kept starts are FirstAssignments of the starts read |
| CsvSchedule.FailureSticks | src/org/learningu/scheduling/CsvScheduleToProto.java:121 | once a line throws, reading any longer prefix throws the same exception |
| JsonProgram.LevBounds | src/org/learningu/scheduling/json/JsonProgramProvider.java:194-212 | every table entry is between 0 and the length of b's prefix, except column 0, which holds the length of a's prefix |
| JsonProgram.Lev | src/org/learningu/scheduling/json/JsonProgramProvider.java:194-212 | no contract of its own: the table recurrence (deletion free, insertion 1, substitution 5); LevBounds and LevSelf state its bounds |
| JsonProgram.EditCost | src/org/learningu/scheduling/json/JsonProgramProvider.java:194-212 | no contract of its own: the last table entry; EditCostBounds states its bounds and Levenshtein computes it |
| JsonProgram.LevSelf | src/org/learningu/scheduling/json/JsonProgramProvider.java:194-212 | a string is at distance 0 from itself |
| JsonProgram.EditCostBounds | src/org/learningu/scheduling/json/JsonProgramProvider.java:194-212 | the distance is between 0 and the length of b when b is non-empty, the length of a when b is empty, and 0 from a string to itself |
| JsonProgram.Levenshtein | src/org/learningu/scheduling/json/JsonProgramProvider.java:194-212 | the row-by-row table fill returns the recursive edit cost (free deletion, insertion 1, substitution 5) |
| JsonProgram.Row | src/org/learningu/scheduling/json/JsonProgramProvider.java:170 | the row of a resource id is the table's entry for it, or empty when the id is absent |
| JsonProgram.Costs | src/org/learningu/scheduling/json/JsonProgramProvider.java:172-178 | one edit cost per resource of the row, from its description to the requested value |
| JsonProgram.FirstMinIndex | src/org/learningu/scheduling/json/JsonProgramProvider.java:172-178 | the position holds the least cost and no earlier position does |
| JsonProgram.FindAttr | src/org/learningu/scheduling/json/JsonProgramProvider.java:164 | the found resource has exactly the requested attribute; none is found only when no resource has it |
| JsonProgram.Resolve | src/org/learningu/scheduling/json/JsonProgramProvider.java:158-184 | an empty value resolves to nothing; an exact attribute match wins; otherwise the first least-cost resource of the row, and nothing for an empty row |
| JsonProgram.ClosestResource | src/org/learningu/scheduling/json/JsonProgramProvider.java:172-178 | the loop finds the first position of least edit cost |
| JsonProgram.ResolveRequest | src/org/learningu/scheduling/json/JsonProgramProvider.java:158-184 | one request resolves as the specification of a request says |
| JsonProgram.Resolutions | src/org/learningu/scheduling/json/JsonProgramProvider.java:156-185 | each request resolves on its own, in order |
| JsonProgram.Somes | src/org/learningu/scheduling/json/JsonProgramProvider.java:182-184 | only resolved requests add an id, so there are no more ids than requests |
| JsonProgram.SomesAppend | src/org/learningu/scheduling/json/JsonProgramProvider.java:156-185 | the ids of two request lists are the ids of the first followed by those of the second |
| JsonProgram.SomesStep | src/org/learningu/scheduling/json/JsonProgramProvider.java:182-184 | one more request adds its id exactly when it resolves |
| JsonProgram.ResolutionsAppend | src/org/learningu/scheduling/json/JsonProgramProvider.java:156-185 | resolving two request lists is resolving each in turn |
| JsonProgram.EmptyRequestSkipped | src/org/learningu/scheduling/json/JsonProgramProvider.java:161-163 | a request with an empty value adds nothing, wherever it stands |
| JsonProgram.RequiredResources | src/org/learningu/scheduling/json/JsonProgramProvider.java:156-185 | the loop adds one required resource per resolving request, in request order |
| JsonProgram.FirstOfRow | src/org/learningu/scheduling/json/JsonProgramProvider.java:113-116 | a room's resource is the first of its row, and an empty row fails with NoSuchElement |
| JsonProgram.SubjectTable.constructor | src/org/learningu/scheduling/json/JsonProgramProvider.java:221 | the subjects map starts empty |
| JsonProgram.SubjectTable.SubjectId | src/org/learningu/scheduling/json/JsonProgramProvider.java:134-138 | a known category keeps its id; a new one gets the next dense id; ids stay dense |
| JsonProgram.SubjectIds | src/org/learningu/scheduling/json/JsonProgramProvider.java:134-138 | each section's subject id is the position of its category in first-seen order |
| JsonProgram.NextFirstSeen | src/org/learningu/scheduling/json/JsonProgramProvider.java:134-137 | the first-seen order grows exactly when the category is new |
| JsonProgram.IdsExtended | src/org/learningu/scheduling/json/JsonProgramProvider.java:134-138 | ids already given keep their categories when a new category is added |
| JsonProgram.Merges | src/org/learningu/scheduling/json/JsonProgramProvider.java:76-81 | one merge result per parsed record |
| JsonProgram.MergedAtMostOnce | src/org/learningu/scheduling/json/JsonProgramProvider.java:76-81 | a later record with the same id merges nothing, since the base record was removed |
| JsonProgram.NeverMergedAfterRemoval | src/org/learningu/scheduling/json/JsonProgramProvider.java:76-81 | an id missing from the base never merges |
| JsonProgram.FirstUseMerges | src/org/learningu/scheduling/json/JsonProgramProvider.java:76-81 | the first record with an id present in the base merges that base record |
| JsonProgram.BaseRecords.constructor | src/org/learningu/scheduling/json/JsonProgramProvider.java:48-52 | the base map starts as the initial program's records |
| JsonProgram.BaseRecords.MergeBase | src/org/learningu/scheduling/json/JsonProgramProvider.java:76-81 | the record for the id is returned if present and removed from the base |
| JsonProgram.BaseRecords.MergeEach | src/org/learningu/scheduling/json/JsonProgramProvider.java:76-81 | merging records in order yields the merge results and removes every used id |
| JsonProgram.SectionMergesOtherRecord | src/org/learningu/scheduling/json/JsonProgramProvider.java:187 | a section whose course id is another section's id merges that other section's base record, and its own stays unmerged |
| JsonProgram.SectionsMergeOwnRecords | src/org/learningu/scheduling/json/JsonProgramProvider.java:262-264 | keyed by section id, sections with distinct ids each merge exactly their own base record, whatever their course ids |
| JsonProgram.InsertSorted | src/org/learningu/scheduling/json/JsonProgramProvider.java:102 | inserting into a strictly increasing list keeps it strictly increasing with the same elements plus the new one |
| JsonProgram.ConsIncreasing | src/org/learningu/scheduling/json/JsonProgramProvider.java:102 | a head below every element of an increasing list gives an increasing list |
| JsonProgram.SortedIds | src/org/learningu/scheduling/json/JsonProgramProvider.java:102 | the sorted copy is strictly increasing, has exactly the input's elements and is no longer |
| JsonProgram.SortedLength | src/org/learningu/scheduling/json/JsonProgramProvider.java:102 | an insertion adds at most one element |
| JsonProgram.SortedIdsOfSorted | src/org/learningu/scheduling/json/JsonProgramProvider.java:102 | a strictly increasing list is its own sorted copy |
| JsonProgram.SortedUnique | src/org/learningu/scheduling/json/JsonProgramProvider.java:102 | two strictly increasing lists with the same elements are equal |
| JsonProgram.MergedIds | src/org/learningu/scheduling/json/JsonProgramProvider.java:120-126 | after merging, the id list is strictly increasing and holds the own and base ids |
| JsonProgram.BuildingName | src/org/learningu/scheduling/json/JsonProgramProvider.java:300-301 | the building name is the prefix of the room name up to the first space or hyphen |
| JsonProgram.RoomsOf | src/org/learningu/scheduling/json/JsonProgramProvider.java:298-303 | exactly the input rooms with that building name, in input order |
| JsonProgram.LookupFound | src/org/learningu/scheduling/json/JsonProgramProvider.java:288-302 | a name with rooms filed under it is a key of the multimap |
| JsonProgram.Put | src/org/learningu/scheduling/json/JsonProgramProvider.java:302 | putting keeps the keys sorted and puts the new key or the old first key first |
| JsonProgram.SortedTail | src/org/learningu/scheduling/json/JsonProgramProvider.java:288-290 | the keys after the first stay sorted |
| JsonProgram.PrependSorted | src/org/learningu/scheduling/json/JsonProgramProvider.java:288-290 | a key below the first key can go in front |
| JsonProgram.LookupBelowHead | src/org/learningu/scheduling/json/JsonProgramProvider.java:288-290 | a key below the first key has no rooms |
| JsonProgram.LookupPut | src/org/learningu/scheduling/json/JsonProgramProvider.java:302 | putting a room appends it to its key and leaves every other key's rooms unchanged |
| JsonProgram.PutKeepsNoEmptyGroup | src/org/learningu/scheduling/json/JsonProgramProvider.java:302 | putting a room never leaves a key of the multimap without rooms |
| JsonProgram.SomeRoomOf | src/org/learningu/scheduling/json/JsonProgramProvider.java:288-302 | a building name with rooms filed under it is the building name of some room |
| JsonProgram.GroupBuildings | src/org/learningu/scheduling/json/JsonProgramProvider.java:288-311 | buildings are numbered 0, 1, ... in sorted name order; each holds exactly its rooms in input order and at least one room, so (with SomeRoomOf) every building is the building of some room; every room has its building |
| JsonProgram.LookupInSorted | src/org/learningu/scheduling/json/JsonProgramProvider.java:305-309 | walking the sorted keys finds each key's rooms |
| UploadAssignments.PairLessIrreflexive | src/python/upload_assignments.py:55 | no (period, room) pair sorts before itself |
| UploadAssignments.PairLessTransitive | src/python/upload_assignments.py:55 | the tuple order used by the sort is transitive |
| UploadAssignments.PairLessTotal | src/python/upload_assignments.py:55 | any two different pairs are ordered one way or the other |
| UploadAssignments.Insert | src/python/upload_assignments.py:55 | inserting a pair adds exactly that pair to the list's contents |
| UploadAssignments.Sort | src/python/upload_assignments.py:55 | sorting a section's pairs keeps exactly the same pairs, counted with repeats |
| UploadAssignments.InsertSorted | src/python/upload_assignments.py:55 | inserting into a sorted list keeps it sorted |
| UploadAssignments.InsertAtFrontSorted | src/python/upload_assignments.py:55 | a pair no greater than the first goes in front and the list stays sorted |
| UploadAssignments.HeadBelowInserted | src/python/upload_assignments.py:55 | when the pair goes further in, the first pair stays below everything after it |
| UploadAssignments.ConsSorted | src/python/upload_assignments.py:55 | a head no greater than every later pair gives a sorted list |
| UploadAssignments.SortSorted | src/python/upload_assignments.py:55 | the sorted pairs are in ascending tuple order |
| UploadAssignments.SortedTail | src/python/upload_assignments.py:55 | dropping the first pair of a sorted list leaves it sorted, with that pair removed |
| UploadAssignments.SortedArrangementUnique | src/python/upload_assignments.py:55 | two sorted lists of the same pairs are equal, so the modelled sort gives the order list.sort() gives |
| UploadAssignments.Grouped | src/python/upload_assignments.py:42-47 | a successful grouping has no section without pairs; a failed one is a ValueError |
| UploadAssignments.Entries | src/python/upload_assignments.py:45-47 | a section's pairs, taken from its rows in order, are no more than the rows |
| UploadAssignments.GroupedFailsOnBadRow | src/python/upload_assignments.py:45-46 | grouping fails exactly when some row does not have three fields |
| UploadAssignments.GroupedHoldsEveryRow | src/python/upload_assignments.py:42-47 | the sections are exactly those of the rows, each holding the (period, room) pairs of its rows in row order |
| UploadAssignments.EntriesAreRows | src/python/upload_assignments.py:46-47 | a pair is in a section's list exactly when some row of that section carries its room and period |
| UploadAssignments.GroupedPrefixFails | src/python/upload_assignments.py:45-46 | a bad row stops the reading: a failure in a prefix is the failure of the whole file |
| UploadAssignments.GroupRows | src/python/upload_assignments.py:42-47 | the row loop computes the grouping, or raises ValueError at the first bad row |
| UploadAssignments.BodyFields | src/python/upload_assignments.py:57-63 | the form holds exactly the token, the section as cls, the action assignreg and the section's pairs as one "period,room" line each |
| UploadAssignments.Line | src/python/upload_assignments.py:61 | no contract of its own: one pair as "period,room"; LineSplitsBack states that it splits back into the pair |
| UploadAssignments.Block | src/python/upload_assignments.py:61-62 | no contract of its own: the lines joined by newlines; BlockSplitsBack states that it splits back into the pairs |
| UploadAssignments.Body | src/python/upload_assignments.py:57-63 | no contract of its own: the posted form; BodyFields states its four fields |
| UploadAssignments.UploadUrl | src/python/upload_assignments.py:32-36 | no contract of its own: the endpoint URL; Upload posts every form to it |
| UploadAssignments.SessionToken | src/python/upload_assignments.py:30 | unpacking login's result gives the session's CSRF token exactly when the result is a browser with its cookie jar; a lone browser raises |
| UploadAssignments.UploadAsWrittenRaises | src/python/upload_assignments.py:30 | as written, login returns the browser alone, so the unpacking raises before the first prompt |
| UploadAssignments.UploadWithJarHasToken | src/python/upload_assignments.py:30 | when login returns the jar too, the token passed to Upload is the session's own |
| UploadAssignments.Confirms | src/python/upload_assignments.py:38 | no contract of its own: the answer lower-cased is "yes"; Upload stops unless both answers confirm |
| UploadAssignments.LineSplitsBack | src/python/upload_assignments.py:61 | a pair's line has no newline and splits on the comma back into period and room |
| UploadAssignments.BlockSplitsBack | src/python/upload_assignments.py:61-62 | the block of clean pairs splits back into one line per pair, each into that pair's period and room |
| UploadAssignments.Step | src/python/upload_assignments.py:54-70 | posting one section starts with the POST of its form |
| UploadAssignments.PostsAppend | src/python/upload_assignments.py:54-70 | the POSTs and progress lines of two runs of events are those of each in turn |
| UploadAssignments.Trace | src/python/upload_assignments.py:54-70 | no contract of its own: the POSTs and progress lines of the sections in order; OnePostPerSection and ProgressEveryHundred state what it holds |
| UploadAssignments.Posts | src/python/upload_assignments.py:66 | no contract of its own: the POST events of a trace, in order; PostsAppend states that it distributes over concatenation |
| UploadAssignments.StepEvents | src/python/upload_assignments.py:66-70 | one section yields one POST, and a progress line exactly when the count is a multiple of 100 |
| UploadAssignments.PostsFor | src/python/upload_assignments.py:54-66 | one POST per section of the order, carrying that section's form |
| UploadAssignments.OnePostPerSection | src/python/upload_assignments.py:54-66 | the upload posts each section once, in the order taken, with its form |
| UploadAssignments.Hundreds | src/python/upload_assignments.py:68-70 | the progress counts up to n are the multiples of 100, n div 100 of them |
| UploadAssignments.HundredsNext | src/python/upload_assignments.py:68-70 | one more section adds a progress count exactly when it brings the count to a multiple of 100 |
| UploadAssignments.ProgressEveryHundred | src/python/upload_assignments.py:68-70 | a progress line follows every hundredth section and no other |
| UploadAssignments.Upload | src/python/upload_assignments.py:29-73 | nothing is posted unless both answers are yes and every row has three fields; a bad row raises ValueError; otherwise every section is posted exactly once with its sorted pairs |
| UploadAssignments.TakeSection | src/python/upload_assignments.py:54 | taking one more section from the dictionary keeps the posted and remaining sections apart and covering all |
| DataLoader.Slug | src/python/data_loader.py:46 | a href with at most three '/'-pieces yields the empty slug |
| DataLoader.ProgramSlugs | src/python/data_loader.py:46-47 | no more slugs than anchors; with OneAnchorSlugs and ProgramSlugsAppend, the slugs are those of the kept anchors, one each, in document order |
| DataLoader.JoinSnoc | src/python/data_loader.py:46 | joining one more piece appends the separator and the piece |
| DataLoader.JoinCons | src/python/data_loader.py:46 | joining a piece in front puts it and the separator before the rest |
| DataLoader.SlugOfMainLink | src/python/data_loader.py:46-47 | a management link "/section/slug/main" is kept and yields its slug, even when the slug holds '/' |
| DataLoader.PiecesWithoutSep | src/python/data_loader.py:46 | the pieces of such a link hold no '/' |
| DataLoader.ProgramSlugsKept | src/python/data_loader.py:46-47 | a slug is listed exactly when some anchor ending with "/main" yields it |
| DataLoader.OneAnchorSlugs | src/python/data_loader.py:46-47 | one anchor yields its slug when its href ends with "/main", and nothing otherwise |
| DataLoader.ProgramSlugsAppend | src/python/data_loader.py:46-47 | the slugs of two runs of anchors are those of the first run followed by those of the second |
| DataLoader.ListingReversed | src/python/data_loader.py:50 | the printed listing is the slugs in reverse document order, each after " - " |
| DataLoader.Listing | src/python/data_loader.py:50 | no contract of its own: the printed lines; ListingReversed states that they are the slugs in reverse order, each after " - " |
| DataLoader.DataUrlPieces | src/python/data_loader.py:57-61 | an endpoint URL splits into the scheme, the host, manage, the program and the endpoint |
| DataLoader.DataUrl | src/python/data_loader.py:57-61 | no contract of its own: the endpoint URL; DataUrlPieces states its path pieces |
| DataLoader.UrlPiecesClean | src/python/data_loader.py:57-61 | those pieces hold no '/' |
| DataLoader.UrlJoin | src/python/data_loader.py:57-61 | joining those pieces gives the endpoint URL back |
| DataLoader.HeadLength | src/python/data_loader.py:64 | the head of a path ends with its last '/' and nothing after it is a '/' |
| DataLoader.StripSlashes | src/python/data_loader.py:64 | stripping trailing slashes leaves a prefix that does not end with '/' |
| DataLoader.FileInTargetDir | src/python/data_loader.py:63-64 | each file lands in the target directory, and its directory is the target directory |
| DataLoader.PathJoin | src/python/data_loader.py:63 | no contract of its own: `os.path.join` for the cases the loader meets; FileInTargetDir states where each file lands |
| DataLoader.DirName | src/python/data_loader.py:64 | no contract of its own: `os.path.dirname`; FileInTargetDir states that a downloaded file's directory is the target directory |
| DataLoader.DistinctFiles | src/python/data_loader.py:63 | different endpoint names are written to different files |
| DataLoader.EndpointActions | src/python/data_loader.py:57-70 | one endpoint is a fetch, a directory creation and a write |
| DataLoader.Downloads | src/python/data_loader.py:56-70 | three actions per endpoint |
| DataLoader.DownloadsInOrder | src/python/data_loader.py:56-70 | the actions of the i-th endpoint are at positions 3i to 3i + 2 |
| DataLoader.LoadData | src/python/data_loader.py:53-70 | the loop over the data endpoints performs exactly the downloads, in order |
| DataLoader.DownloadsSnoc | src/python/data_loader.py:56-70 | one more endpoint appends its three actions |
| DataLoader.NoFileOverwritten | src/python/data_loader.py:7-13 | the five endpoint files are distinct, so no download overwrites another |

## Left out

- Concurrency: the optimizers, executors and scheduler threads are not part of this model.
- Floating-point scoring and acceptance: the scorers, the annealer and the ratio checks of the local logics are not part of this model.
- Randomised code: the perturbers, ResourceLogic, TeacherGroupCapLogic and Shuffle are not part of this model. The random heap key a treap insertion draws is a `heapKey` parameter of every operation that inserts. An operation that inserts several times uses that one key for every insertion, where Java draws a fresh `RAND.nextInt()` each time. This applies to `ScheduleTables.CreateSchedule`, `ScheduleSerial.Replay` and `ScheduleSerial.Deserialize`, and to `ScheduleUpdates.AssignStart` with its removals. Treap balance depends on the keys, but the pairs a map holds do not, and every contract here is about the pairs.
- Dependency injection, reflective flag plumbing, the GUI and the older parsers over org.json are not part of this model.
- util/bst/BstOperations.java, BstRangeOps.java and GeneralRange.java are not part of this model. The descent and lift of `BstMap` follow the identity, rebuilding and rebalancing changes that `BstMap.java` hands to them.
- The cached `entrySet` field of `BstMap.java` is not a field of the model. The entry list is a function of the tree, which gives the same entries.
- Java `HashMap` and `HashSet` iteration order is not modelled. Where the result depends on it, the model takes the order as an input or proves the property for every order. Examples are the subject list of the JSON reader and the section order of `upload_assignments.py`.
- `String.compareTo` on UTF-16 code units is modelled as the order of `char` sequences.
- The library parsers behind the flag converters are not modelled: `File`, `URI`, `Period`, `Duration`, `Double` and enum lookup. Those converters keep the text they are given. Protobuf scalars are unbounded integers.
- `String.format` in `Csv.Builder.add` is the `format` parameter of `PrettyCsv.RowBuilder.Add`.
- Logging, counters and printing are left out. So are the CSRF-token print and the response print of `upload_assignments.py`, and the headings of `data_loader.py`'s listing.
- ScheduleLogic.LunchMessage: the lunch conflict message is one constant. The Java text names the teacher and the block, so the model does not tell two teachers' lunch conflicts apart by their message.
- CsvSchedule: the room-name index takes the (name, id) pairs of every room of every building as one list. It does not walk the buildings itself.
- ScheduleSerial: `deserialize` also checks that each assignment changed the schedule. The model omits that check because the validity check it follows already implies it.
- LegacyProgram.FirstTimeBlock and LegacyProgram.OrderedTimeBlocks: a walk over time-block links that comes back to a block it has already visited ends with `Unending` after as many steps as there are blocks. The Java loop never ends on such input.
- JsonProgram.EditCostBounds: bounds the distance by the length of `b` only when `b` is non-empty. For an empty `b` it states that the distance is the length of `a`.
- UploadAssignments.Upload: the login is a parameter. The row-by-row `csv.reader` is modelled by its rows, and the file opening and its errors are left out. The script unpacks `login`'s result into a pair while `data_loader.py`'s `login` returns the browser alone (see Findings), so the CSRF token is passed in directly, as `SessionToken` reads it from a login that returns the jar too.
- UploadAssignments.Sort: `list.sort` is modelled by its result. Any sorted arrangement of the same pairs equals it (`SortedArrangementUnique`).
- Case folding: Python's `lower()` on the prompt answers is modelled for ASCII letters only.
- ScheduleLogic.EndsBefore: a scheduled prerequisite section with no periods is taken as not ending before the start. Java's `get(size() - 1)` on its empty present-assignment list throws IndexOutOfBoundsException (PrerequisiteLogic.java:28, via `checkElementIndex` at StartAssignment.java:64). Nothing catches it on the way out of `validate`, `assignStart` and `deserialize`. `StartAssignment.create` admits a period length of 0 (StartAssignment.java:51), so the case can arise. The model gives a local prerequisite conflict instead of the exception.
- ScheduleLogic.SearchPrerequisite: the same case. When such a section comes before the first section that ends before the start, Java throws there. The model skips the section and goes on searching.
- ScheduleLogic.PrerequisitesEffect: for the same case it records a conflict where Java throws. Carrying the exception would turn every check effect and the whole validity relation into a result with an error case, and that is not done.
- ScheduleLogic.PrerequisiteEffect: the same, for the whole prerequisite check of one assignment.
- ScheduleLogic.ValidatePrerequisites: the same, for the validator loop; the validator gets a conflict where Java throws.
- ScheduleLogic.PrerequisitesEffectIff: its iff holds for the model. The IndexOutOfBoundsException path above has no counterpart in it.
- Text.ParseInt: only the ASCII digits '0' to '9' are digits. `Integer.valueOf` also accepts the other Unicode decimal digits, for example Arabic-Indic or fullwidth digits, so such text fails here but parses in Java.
- FlagConverters.BooleanFalseExactly: "in any case" means ASCII case. `String.equalsIgnoreCase` also folds non-ASCII letters, so Java reads "falſe" (with a long s) as false, while the model reads it as true.
- Graph.Program.SectionsForTeacher: an unknown teacher gets no sections. Java's `checkArgument` throws IllegalArgumentException for one. The logics only ask about teachers taken from the program's own sections, where the two agree.
- JsonProgram.TableOk: the row order of the resource table is an input. Java's TreeBasedTable keeps each row in attribute order, and that order decides the tie-break of `Ordering.min` and which cell `FirstOfRow` takes. The lemmas about the JSON reader hold for every row order, so they cover the sorted one.
- DataLoader: anchors without an `href` are left out; BeautifulSoup would raise `KeyError` on them. Fetching is a function from URL to page, and directory and file errors are not modelled beyond the ignored `makedirs` error. The `os.linesep` join of the listing is a list of lines.
- ScheduleUpdates.AssignKeepsTablesAgree: agreement of the two tables is proved kept only for an unlocked start. ChainedScheduleLogic.java:38-40 skips every start check for a locked start, DuplicateSectionLogic included, so a locked start of a section already scheduled elsewhere is accepted and leaves the section table naming the new period while the old slot stays booked (`ScheduleFindings.LockedDuplicateSplitsTables`). Whether locked starts are meant to be trusted this far is not stated, so the model promises nothing about agreement after one.
- ScheduleUpdates.AssignKeepsTablesAgree: it also needs a start of at least one period, in a room whose existing starts belong to the same program, are at least one period long, and do not overlap (the conditions of `AssignKeepsRoomFree`). RoomConflictLogic checks only the present assignments, so a start with no periods at an occupied period passes it and overwrites that slot in the starting-time table, while the displaced section keeps its entry in the section table.
- ScheduleSerial.SizeIsSerialLength: it holds for schedules whose tables agree and which hold fewer than 2^31 starts. Past that, size() wraps as a Java int while serialize still writes every entry.

## Findings

| source | as written | input that shows it | evidently intended | confidence | as-written member | corrected member |
|---|---|---|---|---|---|---|
| src/org/learningu/scheduling/schedule/Schedule.java:345-356 | each conflicting start is removed from `this`, not from `revised`, so only the last removal survives | a two-period section force-assigned at the first period of a room where two one-period sections start at its first and second periods: the first one stays, and the room is double-booked afterwards | every conflicting start is removed before the assignment | high (not executed) | ScheduleFindings.ForceAssignKeepsEarlierConflict | ScheduleUpdates.ForceAssignStart |
| src/org/learningu/scheduling/schedule/Schedule.java:183-196 | the `occurringAt(period)` view's `containsKey(room)` asks whether a section starts at the period, while `get(room)` returns any section occurring then | a two-period section starting at the first period, viewed at the second: `get` finds it, `containsKey` says the room is absent | `containsKey` holds exactly when `get` returns a value | high (not executed) | ScheduleFindings.OccurringAtViewDisagrees | ScheduleTables.Schedule.OccurringAtHasRoom |
| src/org/learningu/scheduling/Program.java:113-127 | `set` throws only for a null value, so a repeated id silently replaces the earlier object | two objects with id 5: the map keeps the second | a duplicate id throws `IllegalArgumentException`, as the message "Duplicate found" says | high (not executed) | LegacyProgram.DuplicateIdOverwrites | LegacyProgram.MakeIdMapChecked |
| src/org/learningu/scheduling/json/JsonProgramProvider.java:187 | `parseSection` looks up the section's base record by its course id, while the base sections are stored under their section ids (line 264) | a section with id 5 of course 9, with base records for sections 5 and 9: it merges the record of section 9, and its own is never merged | the base record is looked up by the section's own id | medium (not executed) | JsonProgram.SectionMergesOtherRecord | JsonProgram.SectionsMergeOwnRecords |
| src/python/upload_assignments.py:30 | `(browser, cookie_jar) = login(...)` unpacks one object into two names, while `login` in data_loader.py:32-39 returns the browser alone | any run past the option parsing: the unpacking raises before the first prompt | login hands back the browser together with its cookie jar, whose CSRF token is posted | high (not executed) | UploadAssignments.UploadAsWrittenRaises | UploadAssignments.UploadWithJarHasToken |
