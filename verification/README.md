# A verified model of the code runner's hard parts

The runner executes student programs in a jail and returns what happened. Five groups of its code
carry promises that no single test settles, and this project models them and proves those promises:

- **The step-through recorders.** At each step the Python harness walks the object graph of the traced
  program breadth first, renames addresses to small ids, and sends only the difference to the last
  step that entered the trace; a consumer rebuilds the heaps by accumulating. The gdb driver does the
  same for native code, and also expands pointers under budgets, decides which frame a returned value
  belongs to, and adds boxes to a step that is already encoded.
- **Multi-file submissions.** A list of files is checked once with numeric caps, sorted, and checked
  again without caps before it is written.
- **Shell quoting.** Argument lists become the text of a `/bin/sh -c` command.
- **Limits.** Request limits, the batch loop, and the drain grace that must outlast every request.
- **Small stateful pieces.** The concurrency limiter, the metrics registry, the capture buffer, and the
  bounded rendering of one value.

Where the source changes state in place, the model is a class or an array method proved against a
specification; where it is made of expressions, the model is functions and lemmas.

| file | models |
|---|---|
| `HeapDelta.dfy` | how heaps travel: encoder, decoder, exactness of whole traces |
| `PyGraph.dfy`, `Walk.dfy`, `Stack.dfy`, `Recorder.dfy` | the Python harness: object graph, walk, frames, recording |
| `GdbHeap.dfy`, `Pointers.dfy`, `Patching.dfy`, `Driver.dfy`, `Loop.dfy` | the gdb driver: boxes, pointer expansion, adding to an encoded step, the run as a function, the loop |
| `Attribution.dfy`, `Native.dfy` | whose value a finished call handed back; that and the loop together |
| `Drawings.dfy`, `Grounding.dfy`, `Links.dfy`, `Tours.dfy`, `Whole.dfy` | theorems about one snapshot: what is drawn, from where, where links lead, what is known before, when it is the whole graph |
| `Depictions.dfy` | what a snapshot and a returned value show, cell by cell, and which values share a box, told on the values alone |
| `Identity.dfy`, `Returned.dfy`, `SafePatches.dfy` | theorems about ids and about one returned value |
| `Runs.dfy`, `RunLaws.dfy`, `RunIds.dfy` | theorems about every run of the loop |
| `Lists.dfy` | how far a linked list is drawn |
| `ShotCases.dfy`, `RunCases.dfy` | snapshots and runs in which a promise fails |
| `Paths.dfy`, `Sorting.dfy`, `FilePolicy.dfy`, `CompilePlan.dfy` | paths, submissions, the compile plan |
| `FileText.dfy` | acceptance, errors and compile units in terms of the text of the names alone |
| `Shell.dfy` | the quoting, and the tokenizer of POSIX.1-2017, Shell Command Language, sections 2.2 and 2.3 |
| `Limits.dfy`, `Batch.dfy` | limits, drain grace, batch loop |
| `Limiter.dfy`, `Metrics.dfy`, `OutputBuffer.dfy`, `SafeRepr.dfy` | the small stateful pieces |
| `Options.dfy`, `Numbers.dfy` | `Option`, `Result`, `Min`, `Max` |

`dafny verify dfyconfig.toml` checks everything.

Each method of the gdb side is proved equal to a function of the state before it (`AfterValue`,
`AfterExpansion`, `Shoot`, `Annotated`, `AfterStop`, `RunOf`, `Closed`), so what a run produces is
fixed, and to give what that function is proved to give. The theorems are lemmas about those
functions, for every registry, memory, value and run.

## Where the promise fails, and exactly when

The model follows the code. In these places the code does less than its comments or its purpose say.

- **A value returned late can lose its box.** The driver adds the boxes of a returned value to the
  `set` of a step that is already encoded, but the consumer applies `set` and then `del`; and it
  links boxes of the base in place, which reaches the step only if the step sent them.
  `Patching.PatchExactIffSafe`: the step decodes to its new heap if and only if it deletes none of
  the new boxes and it had sent every old box whose links changed. `Runs.RunDecodesIffSafe`: over any
  run, every prefix decodes to its heaps if and only if all its patches are safe in this sense.
  `SafePatches.AlwaysSafeIff`: before the value is drawn, no value can spoil the step if and only if
  no registered object has its box deleted by it and every box that shows an address was sent by it
  (in a full step, an address of an object already in it).
  `RunLaws.TraceLosesInPairs`: a box is lost only right after the turn that had added that box to the
  step before. `RunCases.ReturnedTwiceIsLost` is a run of the loop that loses one: an object that no
  variable shows, returned by two calls in a row, is missing from that step and from the next.
  `RunCases.HeldLinkIsLost` is a run that loses a link: a box unchanged since the step before shows an
  address, what lives there is returned, and the consumer keeps the address.
- **An object can have two ids in one step.** `snapshot` prunes the registry
  (`internal/executor/trace_driver_gdb.py:782`) before `_anota_devolvido` rebuilds the used keys from
  it (line 893). An object boxed in a step, out of sight at the next stop and then returned gets a
  second id and a second box in the first step. `Returned.SecondIdIff`: this happens if and only if
  the returned value shows an object that has a box there and is no longer registered;
  `Returned.NeverDoublesIff`: it can happen for no value if and only if every box of the step is of
  a registered object. `RunCases.ShownThenReturnedDoubles` is a run with a pointer to a local's node.
- **An object can change its id from one step to the next.** The cause is the same. An object boxed in
  a step, not drawn by the next snapshot and then returned to that next step gets a new id there, so
  the consumer sees one box die and another appear (`RunCases.ShownHiddenReturned`).
  `Returned.KeepsEarlierIdIff`: a returned value keeps an id of an earlier step if and only if the
  object is still registered under it after the snapshot in between; `Returned.NeverRenumbersIff`: no
  value can change one if and only if every object of the earlier step has its box in the step already
  or its id in the registry, or the step is full. `RunIds.KeepsItsIdIff`: over any run and for all
  boxes of two consecutive steps, those of returned values included, an object has one id in both if and
  only if the second snapshot draws it or it was registered so when the value was drawn; and in
  that last case the box is one that the consumer loses.
- **The box cap of a step can be passed by a returned value.** A comment says the cap of 200 holds for
  the step with its return value. The code counts the keys that are still registered, after the next
  snapshot has pruned them. `Returned.CapHoldsIff`: the cap holds for every returned value if and only
  if every box of the step is still registered; `Returned.NoteSize` is the exact size;
  `RunCases.ReturnedPassesTheCap` is a run with a step of more than 200 boxes.
- **A link can lead to the wrong box.** `marca_endereco` records a struct under its address before
  its parts are read (`internal/executor/trace_driver_gdb.py:531-545`), and a first part that is
  itself a struct, array or slice has the same address and is recorded over it. A list of
  `Node{pos: Vec, next: ^Node}` is drawn with each `next` leading to the `Vec` of the next node, and
  nothing leading to the nodes (`RunCases.ListLosesItsLinks`). `Links.LinkLeadsHomeIff`: in every
  snapshot a pointer is linked to the box of what it points to if and only if that was the last
  aggregate met at its address; `Tours.LinkForetold` decides this before the snapshot, by a tour of the
  frames, the memory and the budget that has no ids, boxes or registry.
  `Links.DrawnLeadsHomeIff` decides it on one value before it is drawn, `Links.FirstPartTakesTheLink`
  is the failing family, and `Whole.WholeGraphDrawn` says when every link is right.
- **Values without an address share a box.** The key of a struct or array is its kind, address and
  type, so those without an address (parts of a struct handed back in registers) have one key for
  each type (`GdbHeap.AggregatesSharingABox`), and all refer to the drawing of the first
  (`Links.SharedKeyDrawsTheFirst`). In `RunCases.HalvesBecomeOne` a returned pair of different halves
  shows one half twice. Where keys tell values apart each box draws the value that refers to it
  (`Whole.BoxesDrawTheirValues`).
- **An untyped pointer can hide a node.** `_expande_ponteiros` marks an address as seen before it looks
  at the pointer's type, so a `rawptr` that comes first takes the turn of a typed pointer to the same
  node (`Links.UndrawableFirstShadows`). `Links.BoxedIffFirstIsDrawable`: with no budget reached, an
  address that nothing else contains gets its box if and only if the first pointer waiting for it
  leads to something drawable. `Pointers.ExpansionResolves` says exactly what is read.
- **A linked list ends at 33 nodes**, not at the 200 boxes that the comment on `_expande_ponteiros`
  names: each step expands at most 32. `Lists.ListReachesItsEndIff`: a list of plain nodes is drawn to
  its end, every link right, if and only if it has at most 33 and the trace's budget covers them.
- **What is drawn is cut**, by design, in five places: aggregates nested four deep are a depth
  marker in the box that holds them (drawn where its holder was first met, however deep), structs
  and sequences show 30 parts, a step has 200 boxes and queues 400 pointers, and expansions have
  their two budgets. Theorems that say "with no budget reached" are about the last three.
- **A call made while 25 frames are live may not be seen as a call.** The driver sees a call when the list
  of the student's frames grows, and that list covers the innermost 25 frames. Entering a student's
  function makes it grow unless the frame that leaves those 25 is the student's too
  (`Attribution.OneDeeperUnless`); so a call onto the recorded stack is armed if and only if it can be
  and that is not the case (`Attribution.Session.Stop`).
- **The closing deletion of `_drain_heap` never deletes.** Its comment speaks of reserved slots beyond
  the cap; none is ever reserved there (`Walk.Walker.DrainHeap`).
- **An accepted list of files can fail to be written.** The checks allow a file that is also the
  directory of another, and then `MkdirAll` fails (`internal/executor/materialize.go:57-61`;
  `FilePolicy.AcceptedButNoTree`). `FilePolicy.Materialize`: an accepted list is written if and only if
  no path with a slash after it begins another.
- **An empty write to a full buffer sets the truncation flag** although nothing was lost
  (`OutputBuffer.EmptyWriteAtTheBrimTruncates`); for non-empty writes the flag is exact.
- **A traced run of a compiled language is not folded into the drain grace.** It is covered exactly
  when the two ceilings and the slack fit (`Limits.CompiledTracesDrainIff`); there are configurations
  where they do not (`Limits.CompiledTraceOutlivesTheFloor`).
- **The inflight gauge can read more than the limit**, because the slot goes back before the gauge goes
  down (`Limiter.GaugePassesMax`); the number of requests in the handler cannot.
- **A class name is not clipped** by `safe_repr`; its size enters the bounds as a parameter.

## Model

| member | source | states |
|---|---|---|
| HeapDelta.EncodeThenApply | internal/executor/trace_harness.py:585-597 | one delta, decoded against its own base, gives back exactly the heap it was made from |
| HeapDelta.EncodeIsMinimal | internal/executor/trace_harness.py:589-597 | `set` and `del` are disjoint, non-empty when present, contained in every other delta with the same effect, and both absent if and only if the heap is unchanged |
| HeapDelta.ExactAppend | internal/executor/trace_harness.py:585-610 | a trace that decodes exactly still does after one more heap is sent against the last one recorded |
| HeapDelta.ExactPrefixDecodes | internal/executor/trace_driver_gdb.py:1288-1294 | every prefix of an exact trace (cut by a cap, or halved) decodes to exactly the heaps of the steps it keeps |
| HeapDelta.RebuildHeaps | scripts/tutor-corpus.py:65-87 | the in-place loop writes into each step the accumulated heap of all steps up to it and changes nothing else |
| HeapDelta.RebuildIdempotent | scripts/tutor-corpus.py:65-87 | a document already rebuilt rebuilds to itself, under either encoding flag |
| PyGraph.ReachableInClosed | internal/executor/trace_harness.py:282-292 | a set with the roots that is closed under drawn references holds every reachable object |
| PyGraph.DrawAgree | internal/executor/trace_harness.py:327-381 | a box depends only on the ids of the objects its object shows |
| PyGraph.DrawPictures | internal/executor/trace_harness.py:327-381 | a box is of its object's kind and shows, in order, exactly its first 30 items or pairs (key before value) or the names among its first 60 fields or captured cells, each by value or by id, the last of equal names winning, and says whether there were more |
| Walk.Walker.RemapId | internal/executor/trace_harness.py:235-261 | the stored id if the same type is still at the address, else a fresh one from the counter; names of old ids stay |
| Walk.Walker.ValueRef | internal/executor/trace_harness.py:282-292 | an inline primitive, or the one id of the object; a slot and a queue entry are added together, never beyond 200 |
| Walk.Walker.ExpandObject | internal/executor/trace_harness.py:327-381 | the box is the drawing of the object under the ids now given; what it shows is registered |
| Walk.Walker.ExpandItems | internal/executor/trace_harness.py:331-345 | the first 30 items in order, and whether there were more |
| Walk.Walker.ExpandEntries | internal/executor/trace_harness.py:346-355 | the first 30 pairs in order, key before value, and whether there were more |
| Walk.Walker.ExpandClosure | internal/executor/trace_harness.py:303-315 | the captured names that have cells, with empty cells shown as such |
| Walk.Walker.ExpandFields | internal/executor/trace_harness.py:364-376 | the attributes with string names among the first that fit |
| Walk.Walker.DrainHeap | internal/executor/trace_harness.py:406-416 | ends on every graph (free slots, then queue length); afterwards every slot is filled, the queue is empty, ids and filled boxes are as before |
| Walk.NothingWaits | internal/executor/trace_harness.py:415-416 | with an empty queue no slot is unfilled, so the closing deletion removes nothing |
| Walk.AdvancesTransitive | internal/executor/trace_harness.py:235-292 | growing twice is growing: ids, slots and queue order survive any number of serialized values |
| Walk.KeepsIdsTransitive | internal/executor/trace_harness.py:235-261 | an id outlives any number of walks while the type at its address stays |
| Stack.VarsGraph | internal/executor/trace_harness.py:383-404 | the recordable variables up to the cap, each by its own id; only the objects they name become roots |
| Stack.ChainOf | internal/executor/trace_harness.py:497-505 | stopping the walk at four times the cap and cutting afterwards gives exactly the innermost 25 student frames, outermost first |
| Stack.BuildStack | internal/executor/trace_harness.py:492-517 | the entries of those frames, all drawn under the same ids, so an alias across two frames is one box |
| Stack.ShownIsTheStack | internal/executor/trace_harness.py:492-517 | the stack lists, innermost last, exactly the student's frames at the 25 innermost places; each with its name, file and line, and the first 60 of its variables with a string name, in the module frame without the hidden ones |
| Recorder.WalkIsFaithful | internal/executor/trace_harness.py:542-547 | a drained walk is a faithful drawing: distinct objects have distinct ids, each box draws the object of its id, everything named is reachable, and a reference without a box occurs only in a full heap of 200 |
| Recorder.DrawsExactlyTheReachable | internal/executor/trace_harness.py:406-416 | below the box cap the objects drawn are exactly those reachable from the frame variables and the returned value |
| Recorder.DrawsTheWholeGraph | internal/executor/trace_harness.py:327-416 | with no item cap reached either, they are exactly those reachable over all references |
| Recorder.SelfHolderIsFaithful | internal/executor/trace_harness.py:282-292 | a list that holds itself is drawn as one box that refers to itself |
| Recorder.SameRefIffSameObject | internal/executor/trace_harness.py:235-261 | two objects get the same reference if and only if they are the same object |
| Recorder.DrawRefs | internal/executor/trace_harness.py:327-381 | the references in a box are exactly the ids of the objects its object shows |
| Recorder.EdgesMirror | internal/executor/trace_harness.py:327-381 | a box refers to another object's id if and only if its object shows that object; with no item cap reached, if and only if it refers to it at all |
| Recorder.Serialize | internal/executor/trace_harness.py:542-570 | stack, drain, and for a return the value and a second drain that changes no box already drawn |
| Recorder.Recorder.Draft | internal/executor/trace_harness.py:542-597 | the step an event adds: its position is that of the innermost frame of the student's, or the event's own if there is none; stack, returned value and boxes are read off the event; its heap is encoded against the last recorded one, objects boxed at the step before keep their ids, and no earlier id comes back |
| Recorder.Recorder.Accept | internal/executor/trace_harness.py:604-617 | an accepted step becomes the base of the next delta, and the id map then holds exactly the objects boxed in it |
| Recorder.Recorder.Record | internal/executor/trace_harness.py:535-620 | a step refused by a cap leaves trace, base and byte count as they were; an accepted one has the position of the innermost student frame and shows exactly its event, extends a trace that keeps every promise of `TraceOk`, and leaves in the id map exactly the objects it boxed |
| Recorder.TraceGrows | internal/executor/trace_harness.py:535-617 | one more faithful step keeps the promises of the whole trace |
| Recorder.IdNamesOneObject | internal/executor/trace_harness.py:235-261 | over a whole trace one id never names two (address, type) pairs |
| Recorder.ShowsDepicts | internal/executor/trace_harness.py:542-570 | every recorded step, told on the event alone: the position of the innermost student frame, the stack, the returned value and every box cell by cell |
| Recorder.GoneStaysGone | internal/executor/trace_harness.py:611-617 | an id whose box has gone from a step is on no object of any later step, so a reused address never inherits a box |
| Recorder.DecodesEveryPrefix | internal/executor/trace_harness.py:575-610 | decoding any prefix of a recorded trace gives, step by step, the boxes drawn at that step |
| Recorder.RunTrace | internal/executor/trace_harness.py:535-620 | over any run the recorded steps are faithful drawings of the first events in order, they decode exactly, they fit the byte cap, and they fall short of all events only because the step cap was reached or the next event's faithful drawing, with the ids continued and encoded against the last heap, would pass the byte cap |
| GdbHeap.SequencesSharingABox | internal/executor/trace_driver_gdb.py:393-419 | two sequences share a box exactly when type and data agree, for a slice also the length, and for a null pointer also the value's own address |
| GdbHeap.AggregatesSharingABox | internal/executor/trace_driver_gdb.py:531-578 | structs and arrays share a box exactly when kind, type and address agree; having no address is one address |
| GdbHeap.MapsSharingABox | internal/executor/trace_driver_gdb.py:391-419 | two maps share a box exactly when type and data agree and, without data, also the value's own address |
| Depictions.KeysTell | internal/executor/trace_driver_gdb.py:391-583 | over all kinds: what gets a box is a struct, an array, a map or a sequence of plausible length, and two of those share one exactly under the rule for their one kind; two kinds never do |
| Depictions.SameSlotIff | internal/executor/trace_driver_gdb.py:463-480 | in a step with room, two aggregates, maps included, are drawn as one reference if and only if they share a box by that rule |
| Depictions.DrawnInTurn | internal/executor/trace_driver_gdb.py:463-480 | the same for two values drawn one after the other into any step |
| Depictions.VariablesShareIff | internal/executor/trace_driver_gdb.py:726-806 | in every snapshot with room, two variables show one reference if and only if their values share a box by that rule |
| Depictions.ShotShows | internal/executor/trace_driver_gdb.py:726-806 | everything a snapshot shows, cell by cell: names, scalars, texts, addresses, markers, classes, kinds, cuts at 30, four levels deep, references to the box of a value that shares it, and no two boxes for values that share one |
| Depictions.NoteShows | internal/executor/trace_driver_gdb.py:866-917 | the same for a returned value and the boxes it adds |
| Depictions.DrawableMeans | internal/executor/trace_driver_gdb.py:289-300 | a pointer's target is drawn where it points exactly when it is not nil, is declared to lead to an aggregate, and what is read there gets a box and is a struct, array or sequence at that address |
| Depictions.DrawnLivesThere | internal/executor/trace_driver_gdb.py:531-545 | a struct, array or sequence that gets a reference has its address recorded |
| GdbHeap.Registry.IdFor | internal/executor/trace_driver_gdb.py:171-177 | the id of a key, new from the counter when it is unknown; one id never names two keys |
| GdbHeap.Registry.Prune | internal/executor/trace_driver_gdb.py:179-180 | the keys alive stay with their ids; the counter goes on |
| GdbHeap.Heap.Hang | internal/executor/trace_driver_gdb.py:200-202 | the pointer is queued unless 400 wait already |
| GdbHeap.Heap.IdFor | internal/executor/trace_driver_gdb.py:209-217 | no id exactly when the key is new and the step already has 200; a key counts once, and its id is the registry's |
| GdbHeap.Heap.ValueV2 | internal/executor/trace_driver_gdb.py:483-583 | the slot is the reference drawing of the value under the final ids (what that shows is `Depictions.ShotShows`), settled for the rest of the step; boxes already drawn stay, pointers met are queued, nothing beyond 200; the state is that of the functional walk `AfterValue` |
| GdbHeap.ValueDrawn | internal/executor/trace_driver_gdb.py:483-583 | after any value: its slot is the reference drawing under the final ids, it is settled (a box, or the step is full), boxes and ids drawn earlier stay, pointers met are queued or the queue was full, never more than 200 |
| GdbHeap.Heap.BoxFor | internal/executor/trace_driver_gdb.py:436-460 | a key is drawn once, its slot reserved before its parts are read; the slot is the reference to its box, or the limit marker when the step is full |
| GdbHeap.Heap.DrawBox | internal/executor/trace_driver_gdb.py:531-578 | the contents of a box are the reference drawings of its parts, cut at the caps, whatever boxes are still open |
| GdbHeap.AddsTransitive | internal/executor/trace_driver_gdb.py:154-217 | ids, boxes and met pointers survive any number of serialized values |
| GdbHeap.BoxStays | internal/executor/trace_driver_gdb.py:483-583 | a drawing made earlier in a step is still the right drawing at its end |
| Pointers.ExpandPointers | internal/executor/trace_driver_gdb.py:252-301 | ends on every pointer graph (expansions left, then queue length), in the state, budget and reads of the specified expansion, and everything that `ExpansionResolves` says of it |
| Pointers.ExpansionResolves | internal/executor/trace_driver_gdb.py:252-301 | turns are taken in queue order and only by pointers that were met; at most 32 reads, charged to the budget; an address is read, once and as the type of its first pointer, exactly when that pointer leads to a readable aggregate and nothing was boxed there by its turn; the expansion stops only with an empty queue or a used-up budget; a pointer is dropped only by a full queue; whatever was met and no longer waits had its turn and is recorded, or the step is full, or its first pointer leads to nothing drawable |
| Pointers.FirstPointerDecides | internal/executor/trace_driver_gdb.py:289-292 | for any queue and budget, the first pointer to an address that waits before the expansion decides as which type, if at all, the address is read |
| Pointers.DrawableFirstIsBoxed | internal/executor/trace_driver_gdb.py:252-301 | with no budget reached, when that pointer leads to something drawable a box is recorded at the address |
| Pointers.TypedPointersAreDrawn | internal/executor/trace_driver_gdb.py:252-301 | with no budget reached, when every pointer to an address leads to something drawable a box is recorded there |
| Links.UndrawableFirstShadows | internal/executor/trace_driver_gdb.py:289-292 | for any queue and budget, when the first waiting pointer to an address leads to nothing drawable, an address that nothing else contains gets no box, whatever pointers come later |
| Links.BoxedIffFirstIsDrawable | internal/executor/trace_driver_gdb.py:252-301 | decided before the call: with no budget reached, such an address gets its box if and only if the first pointer waiting for it leads to something drawable |
| Links.ShotFollows | internal/executor/trace_driver_gdb.py:209-217 | in every snapshot the recorded addresses and boxed keys are those of the plain order of visits, each address leading to the last aggregate met there |
| Links.LinkLeadsHomeIff | internal/executor/trace_driver_gdb.py:304-347 | in every snapshot a pointer is linked to the box of what it points to if and only if that was the last aggregate met at its address, in the frames and then in what the snapshot read |
| Tours.ShotIsOnTour | internal/executor/trace_driver_gdb.py:726-806 | from whatever registry, a snapshot reads, boxes and records exactly what a tour of its frames, memory and budget foretells, which has no ids, boxes or registry |
| Tours.LinkForetold | internal/executor/trace_driver_gdb.py:304-347 | so decided before the snapshot: a pointer is linked to the box of what it points to if and only if that is the last aggregate the tour meets at its address |
| Links.NoteLinkLeadsHomeIff | internal/executor/trace_driver_gdb.py:866-917 | the same for a returned value drawn into an earlier step |
| Links.DrawnLeadsHomeIff | internal/executor/trace_driver_gdb.py:531-545 | decided on the value alone: a new aggregate is what its address leads to afterwards if and only if none of its parts that are met lives at that address |
| Links.FirstPartTakesTheLink | internal/executor/trace_driver_gdb.py:531-545 | a struct whose first part is an aggregate at its address is never what that address leads to |
| Links.SharedKeyDrawsTheFirst | internal/executor/trace_driver_gdb.py:531-578 | of two values with one key the second is not drawn and refers to the box of the first |
| Pointers.LinkPointers | internal/executor/trace_driver_gdb.py:304-347 | every variable and every slot of every box is linked in place, and nothing else changes |
| Pointers.LinkingIsExact | internal/executor/trace_driver_gdb.py:318-325 | after linking, a box shows an address exactly when it did before and no box lives there |
| Pointers.LinkingIsIdempotent | internal/executor/trace_driver_gdb.py:304-347 | linking again changes nothing |
| Pointers.LinksLeadToBoxes | internal/executor/trace_driver_gdb.py:318-325 | every reference that linking writes leads to some box of the step |
| Pointers.WholeStructureDrawn | internal/executor/trace_driver_gdb.py:252-347 | with no budget reached, an address still shown in a box is nil, or the first pointer to it that was met leads to nothing drawable |
| Pointers.FrameVariablesDrawn | internal/executor/trace_driver_gdb.py:252-347 | the same for the variables of a frame |
| Loop.Snapshot | internal/executor/trace_driver_gdb.py:726-806 | one snapshot: the frames are drawn in full, every read is charged, registered keys keep their ids, and the pruned registry holds exactly the boxes drawn, at most 200 |
| Drawings.ShotIsDrawn | internal/executor/trace_driver_gdb.py:726-806 | every variable of every frame has its settled slot and is linked; every aggregate part less than four deep among the first thirty has its box unless the step is full; what was met is resolved or a budget is used up; reads are charged to the budget |
| Drawings.ShotIsWhole | internal/executor/trace_driver_gdb.py:726-806 | with no budget reached, an address left in a box or a variable is nil or first reached by a pointer to nothing drawable; and a box is recorded wherever all pointers lead to something drawable |
| Grounding.ShotWithin | internal/executor/trace_driver_gdb.py:726-806 | nothing is invented: every box and every pointer followed lies in any set that holds the frame variables and is closed under drawn parts and pointers that can be followed |
| Whole.BoxesDrawTheirValues | internal/executor/trace_driver_gdb.py:531-578 | where equal keys mean equal values, the box that a value's slot refers to is the drawing of that value |
| Whole.WholeGraphDrawn | internal/executor/trace_driver_gdb.py:726-806 | with no budget reached, where the frames reach no two values with one key, no nesting of four, no two types at one pointer and nothing else where a pointer leads: every aggregate they reach has its box, that box draws it, there is no other box, and every pointer is linked to what it points to |
| Identity.ShotTies | internal/executor/trace_driver_gdb.py:154-180 | a key registered before a snapshot keeps its id, any other gets one newer than all before, an id keeps its key for ever, and the pruned registry holds exactly the boxes drawn, at most 200 |
| Loop.Annotate | internal/executor/trace_driver_gdb.py:866-917 | a returned value drawn into the heap of an earlier step: the value is drawn in full, old boxes change only by linking, registered keys keep their ids |
| Drawings.NoteIsDrawn | internal/executor/trace_driver_gdb.py:866-917 | the returned value has its settled and linked slot, its pointers are resolved or a budget is used up, and old boxes change only by linking |
| Grounding.NoteWithin | internal/executor/trace_driver_gdb.py:866-917 | a returned value adds only boxes of what it reaches |
| Identity.NoteTies | internal/executor/trace_driver_gdb.py:880-917 | registered keys keep their ids; each new box is of a registered key or newly named; the patched size is bounded |
| Returned.NoteSize | internal/executor/trace_driver_gdb.py:880-930 | the exact size of a patched step: its boxes, plus the keys used, less the keys of it that were still registered |
| Returned.SecondIdIff | internal/executor/trace_driver_gdb.py:880-917 | two boxes of one step, one of them new, are of one object if and only if the returned value shows an object boxed there and no longer registered |
| Returned.NeverDoublesIff | internal/executor/trace_driver_gdb.py:782-893 | no returned value can do that if and only if every box of the step is of an object still registered |
| Returned.ReturnedAgainDoubles | internal/executor/trace_driver_gdb.py:866-917 | returning any boxed and forgotten object gives it a second box |
| Returned.CapHoldsIff | internal/executor/trace_driver_gdb.py:866-930 | the cap of 200 holds for the patched step whatever is returned if and only if every one of its boxes is still registered |
| Patching.PatchExactIffSafe | internal/executor/trace_driver_gdb.py:920-930 | the patched step decodes to its old heap plus the new boxes if and only if it deletes none of them and had sent every old box that changed; for a first step, whose heap is the base itself, always |
| Patching.OverlayExactIffSafe | internal/executor/trace_driver_gdb.py:920-930 | the same on plain maps, both directions |
| Patching.ReplaceLast | internal/executor/trace_driver_gdb.py:1154-1160 | replacing the last step keeps a trace exact when the replacement decodes |
| Patching.PatchedTrace | internal/executor/trace_driver_gdb.py:920-930 | a whole exact trace whose last step is patched stays exact if and only if that patch is safe |
| Patching.SafeMeans | internal/executor/trace_driver_gdb.py:920-930 | safe is: no new box is deleted by the step, and no old box that changed went unsent |
| SafePatches.AlwaysSafeIff | internal/executor/trace_driver_gdb.py:866-930 | every returned value can be added safely if and only if no registered object has its box deleted by the step (unless the step is full) and every box that shows an address at which something can be recorded was sent by it |
| Loop.Collector.PatchLast | internal/executor/trace_driver_gdb.py:866-930 | the last step re-encoded with the boxes of the value, its heap the base of the next delta; the whole trace stays exact if and only if the patch is safe |
| Loop.Collector.Stop | internal/executor/trace_driver_gdb.py:1096-1214 | one turn of the loop: the run is the specified one, and exactness-iff-safe, the ids, the pairing of losses and the budget are kept |
| Loop.Collector.Append | internal/executor/trace_driver_gdb.py:1172-1214 | a step enters with its delta against the last accepted heap and becomes the base, or the trace ends; either way the trace decodes exactly as much as before |
| Loop.Collect | internal/executor/trace_driver_gdb.py:1086-1256 | over any run: every prefix of what is sent decodes to the heaps of its steps if and only if every value was added safely; each heap is the drawing of its own stop with the value returned to it; losses come in pairs; the trace falls short of the stops only because a cap was reached |
| Runs.RunDecodesIffSafe | internal/executor/trace_driver_gdb.py:1086-1256 | over any run, closing value included, every prefix of what is sent decodes to the heaps of its steps if and only if every value was added safely |
| Runs.NoReturnsNoPatches | internal/executor/trace_driver_gdb.py:1086-1256 | a run without returned values adds nothing late, so it always decodes |
| RunLaws.RunStandsForStops | internal/executor/trace_driver_gdb.py:1086-1256 | over any run the heap of step i is the snapshot of stop i alone, or, exactly when stop i+1 was reached and returned a value (or the uncut run ended with one), that with the boxes of this value on top, added once |
| RunLaws.EachStepDrawsItsStop | internal/executor/trace_driver_gdb.py:1086-1256 | the snapshot of each recorded step draws the frames of its own stop and nothing they do not reach; its heap is that snapshot exactly when no value was returned to it |
| RunLaws.EachPlainStepIsTheGraph | internal/executor/trace_driver_gdb.py:1086-1256 | over any run, a step with no budget reached whose frames reach nothing confusing is exactly the graph of its stop, with every link right |
| RunLaws.EachPatchDrawsItsValue | internal/executor/trace_driver_gdb.py:866-930 | each addition draws the value that the next stop, or the end, returned to that step, on top of the step's own boxes |
| RunIds.RunKeepsIds | internal/executor/trace_driver_gdb.py:154-180 | over any run, closing value included: an object drawn by two consecutive snapshots keeps its id; each returned value is drawn from the registry as the snapshot after its step left it; ids once named keep their key, in snapshots and returned values alike |
| RunIds.KeepsItsIdIff | internal/executor/trace_driver_gdb.py:782-893 | over any run, for any boxes of two consecutive recorded steps: an object has one id in both if and only if the second step's snapshot draws it, or the value returned to that step was drawn while the object was registered under its first id; in that last case the step deletes the box, so the consumer does not see it |
| RunIds.PatchKeepsIdIff | internal/executor/trace_driver_gdb.py:866-930 | a value returned to a step gives an object the id it has in any earlier step if and only if the object was registered under it then |
| RunIds.IdComesBackIffLost | internal/executor/trace_driver_gdb.py:920-930 | a box that a returned value adds has an id of the step before exactly when the step deletes it |
| Returned.KeepsEarlierIdIff | internal/executor/trace_driver_gdb.py:782-893 | decided before the value is drawn: an object keeps an id of an earlier step if and only if it is still registered under it |
| Returned.NeverRenumbersIff | internal/executor/trace_driver_gdb.py:782-893 | no returned value can change an id of an earlier step if and only if each of its objects already has its box in the step or its id in the registry, or the step is full |
| RunIds.EveryBoxIsDrawn | internal/executor/trace_driver_gdb.py:726-930 | over any run every box of every recorded step was drawn from some value, in its snapshot or with the value returned to it |
| RunIds.IdNamesOneKey | internal/executor/trace_driver_gdb.py:154-180 | over any run boxes with one id, at any two recorded steps and whether drawn by a snapshot or with a returned value, were drawn from values with one key: for structs and arrays one kind, type and address |
| RunLaws.TraceLosesInPairs | internal/executor/trace_driver_gdb.py:1086-1256 | over any run a box is lost only when the previous turn had added that very box to the step before |
| RunLaws.TraceKeepsBudget | internal/executor/trace_driver_gdb.py:252-301 | at most 600 addresses are read over a whole run, snapshots and returned values together |
| RunLaws.RunIsCapped | internal/executor/trace_driver_gdb.py:1172-1214 | a trace falls short of its stops only because the step cap was reached or the next step would pass the byte cap |
| Lists.ListIsDrawn | internal/executor/trace_driver_gdb.py:252-301 | a list of any length held by one variable, wherever its cells live, in any memory, from any registry and with any budget, is drawn as exactly its first cells up to the budgets, each linked to the next, the last showing the next address or nil |
| Lists.ListReachesItsEndIff | internal/executor/trace_driver_gdb.py:252-301 | it is drawn to its end if and only if it has at most 33 nodes and the trace can still expand all but the first |
| RunCases.ReturnedTwiceIsLost | internal/executor/trace_driver_gdb.py:1154-1160 | a run of four stops through the loop whose third and fourth step decode to an empty heap although both hold the box |
| RunCases.ShownThenReturnedDoubles | internal/executor/trace_driver_gdb.py:782-893 | a run of two stops whose first step holds one object under two ids |
| RunCases.ShownHiddenReturned | internal/executor/trace_driver_gdb.py:782-893 | a run of three stops in which one object has different ids at two consecutive steps |
| RunCases.ReturnedPassesTheCap | internal/executor/trace_driver_gdb.py:866-930 | a run of two stops whose first step holds more than 200 boxes |
| RunCases.HeldLinkIsLost | internal/executor/trace_driver_gdb.py:866-930 | a run of three stops whose second step holds a link that the consumer never sees |
| RunCases.ListLosesItsLinks | internal/executor/trace_driver_gdb.py:531-545 | a run of one stop: a list of two nodes with a struct for first field, each link leading to that struct |
| RunCases.HalvesBecomeOne | internal/executor/trace_driver_gdb.py:531-545 | a run of two stops that shows a returned pair of different halves as one half twice |
| Attribution.KeyIsIdentity | internal/executor/trace_driver_gdb.py:687-715 | in one stack of live frames with distinct keys, a key names one frame |
| Attribution.ShownIs | internal/executor/trace_driver_gdb.py:726-750 | what a snapshot lists: in order, the functions of exactly the student's frames among the innermost 25 |
| Attribution.OneDeeperUnless | internal/executor/trace_driver_gdb.py:1104-1106 | entering a student's function makes the list one longer, unless a student's frame leaves the innermost 25 |
| Attribution.RepeatsMeans | internal/executor/trace_driver_gdb.py:1144-1145 | the innermost function repeats exactly when it is at an outer place of the list too |
| Attribution.CallThenReturn | internal/executor/trace_driver_gdb.py:1116-1170 | a student's call with a key, stopped in and returned from before the next stop: that stop attributes by key exactly the value it handed back |
| Attribution.Session.Call | internal/executor/trace_driver_gdb.py:1163-1166 | a call whose key no live frame has keeps every armed breakpoint on its own frame |
| Attribution.Session.Return | internal/executor/trace_driver_gdb.py:842-853 | the innermost call ends and exactly its breakpoint fires, with its value |
| Attribution.SameKeyIsInnermost | internal/executor/trace_driver_gdb.py:1147-1151 | the fired breakpoints with the key of the last step's innermost frame are that frame's own, and there is at most one |
| Attribution.Session.Owner | internal/executor/trace_driver_gdb.py:1116-1153 | when the frame key selects an owner, the value is the one handed back by the innermost frame of the step that gets it; and the key selects one exactly when that frame was armed, has a key and has ended; otherwise the fallback applies exactly when one breakpoint fired and no function repeats |
| Attribution.Session.Rearm | internal/executor/trace_driver_gdb.py:1161-1169 | fired and too-deep breakpoints go, every other stays, and entering a deeper level arms the innermost frame once |
| Attribution.ArmedBefore | internal/executor/trace_driver_gdb.py:1164-1169 | a frame is never armed twice |
| Attribution.Session.Stop | internal/executor/trace_driver_gdb.py:1096-1170 | over any number of calls and returns between two stops, recursion and two calls on one line included, attribution by key is right; and a student's function called onto the recorded stack is armed if and only if it can be and no student's frame left the innermost 25 |
| Native.Turn | internal/executor/trace_driver_gdb.py:1096-1214 | attribution and loop together: when the frame key selects an owner, what is drawn into the last step is, in the memory of this stop, the value that the innermost frame of that step handed back |
| Shell.ShJoinMethod | internal/sandbox/sandbox_linux.go:361-367 | the loop over the slice computes the quoted words in order, joined by single spaces |
| Shell.ShJoinRoundTrip | internal/sandbox/sandbox_linux.go:361-367 | tokenizing and removing quotes gives back exactly the argument list, every character quoted, no operator among the tokens, for every list |
| Shell.ShJoinInjective | internal/sandbox/sandbox_linux.go:361-367 | different lists never give the same text |
| Shell.ShellQuoteIsOneWord | internal/executor/compiled_multifile.go:162-164 | a quoted string is the single word it quotes |
| Shell.NetnsCommandTokens | internal/sandbox/sandbox_linux.go:156-168 | the shell sees the limits, then `exec` with exactly the argument list: no argument adds, ends or redirects a command |
| Shell.DecimalDenotes | internal/sandbox/sandbox_linux.go:156-168 | the limits are written as decimal numbers that denote them |
| Paths.JoinSplit | internal/executor/filepolicy.go:360-403 | joining the components of a path on `/` gives the path back |
| Paths.SplitJoin | internal/executor/filepolicy.go:360-403 | splitting the join of slash-free components gives them back |
| Paths.WellformedIsClean | internal/executor/filepolicy.go:78-86 | the component grammar alone implies the whole-path grammar and makes lexical cleaning the identity |
| Paths.StaysBelowRoot | internal/executor/filepolicy.go:360-403 | cleaning `root/path` is the cleaned root followed by the path, whatever the root |
| Paths.CleanDrops | internal/executor/filepolicy.go:360-403 | lexical cleaning drops empty and dot components and cancels a name with the dot-dot after it |
| Paths.ExtIsAfterLastDot | internal/executor/filepolicy.go:399 | the extension is the last dot of the last component and what follows, whatever comes before |
| Paths.NoDotNoExt | internal/executor/filepolicy.go:399 | it is empty exactly when the last component has no dot |
| Paths.LessMeans | internal/executor/filepolicy.go:350-354 | the order of paths: a strict prefix, or a smaller character at the first difference |
| FilePolicy.ValidatePathExact | internal/executor/filepolicy.go:360-403 | a path is accepted if and only if it satisfies every rule, and comes back unchanged |
| FileText.AcceptedText | internal/executor/filepolicy.go:360-403 | acceptance by the text of the components alone: the name grammar, lengths and depth, forbidden components and names, and the text after the last dot of the last component, but for case, among the extensions |
| FileText.ErrorText | internal/executor/filepolicy.go:360-403 | which error a refused path gets, by the same text |
| FileText.GrammarText | internal/executor/filepolicy.go:60-100 | the whole-path grammar character by character |
| FileText.UnitText | internal/executor/filepolicy.go:336-346 | a file is a compile unit exactly when the text after the last dot of its last component is, but for case, a compile extension |
| FilePolicy.AcceptedStaysBelow | internal/executor/filepolicy.go:360-403 | an accepted path is relative, clean, and keeps any root as a proper prefix |
| FilePolicy.ValidatePaths | internal/executor/filepolicy.go:314-355 | the loop with its duplicate set and running total computes the verdict, the first error included, and the set of paths |
| FilePolicy.AcceptedIffAcceptable | internal/executor/filepolicy.go:314-355 | accepted if and only if a condition holds that mentions no order; the result is the path-sorted list |
| FileText.VerdictText | internal/executor/filepolicy.go:314-355 | which error a refused list gets: no files, then too many, then the first file at fault and the first of its faults, then no compile unit |
| FilePolicy.OrderFree | internal/executor/filepolicy.go:314-355 | permuting the files changes neither the verdict nor the result |
| FilePolicy.ResultIsCanonical | internal/executor/filepolicy.go:347-354 | the result is the only sorted arrangement of the files |
| FilePolicy.RecheckAccepts | internal/executor/materialize.go:41-44 | what was accepted with caps is accepted without them and comes back unchanged |
| FilePolicy.UncappedIsSomeCaps | internal/executor/materialize.go:41-44 | what is acceptable without caps is exactly what is acceptable under some caps, with the same lists |
| FilePolicy.Normalize | internal/executor/executor.go:318-354 | accepts exactly when one of source and files is given and, for files, the list is acceptable in any order and the entrypoint names a file or a class; the result then holds the one sorted arrangement of those files and the resolved entrypoint; source and files both, or neither, are the two other errors exactly |
| FilePolicy.NormalizeIdempotent | internal/executor/executor.go:318-354 | a normalized request normalizes to itself |
| FilePolicy.ResolvedIsFixed | internal/executor/filepolicy.go:409-428 | a resolved entrypoint resolves to itself, and a path entrypoint is one of the files |
| FileText.ClassText | internal/executor/filepolicy.go:60-100 | a class name is dotted identifiers, character by character |
| FileText.EntryText | internal/executor/filepolicy.go:409-428 | which error an entrypoint gets: ill-formed, or well formed and missing |
| FilePolicy.Materialize | internal/executor/materialize.go:36-88 | into an empty root: the list is written exactly when it is acceptable without caps and no file is a directory of another, directories made first and nothing overwritten; the files recorded are those of the service, in its order |
| FilePolicy.AcceptedButNoTree | internal/executor/materialize.go:57-61 | a list that every check accepts in which a file is another's directory, so it cannot be written |
| Sorting.SortAscends | internal/executor/filepolicy.go:350-354 | sorting gives an ascending arrangement of the same elements |
| Sorting.SortOrderFree | internal/executor/compiled_multifile.go:155 | when the key tells the elements apart, every order of the input sorts to the same list |
| CompilePlan.CompileUnits | internal/executor/compiled_multifile.go:147-157 | the loop gives the sorted jail paths of the files with a compile extension |
| CompilePlan.CompileArgv | internal/executor/compiled_multifile.go:63-77 | the command is the flags without the single-file slot, `-I/sandbox/src`, then in ascending order the jail paths of exactly the submitted compile units, each as often as its file (once, in an accepted list), then the libraries |
| CompilePlan.FlagsAppend | internal/executor/compiled_multifile.go:63-73 | the flags of a template are those of its parts, in order |
| CompilePlan.FlagText | internal/executor/compiled_multifile.go:63-73 | the source slot is left out and any other token substituted |
| CompilePlan.SubstMarks | internal/executor/compiled.go:1226-1233 | each of the two placeholders at the front becomes its path, and the rest is substituted in turn |
| CompilePlan.SubstText | internal/executor/compiled.go:1226-1233 | text without an opening brace is left alone |
| CompilePlan.CommandOrderFree | internal/executor/compiled_multifile.go:61-81 | the command is the same for every order of the files |
| CompilePlan.UnitsOnceBelowSource | internal/executor/compiled_multifile.go:147-157 | the sorted list of units holds every compile unit once and nothing else, each a clean path below `/sandbox/src` |
| CompilePlan.UnitsCounted | internal/executor/compiled_multifile.go:147-157 | a unit occurs as often as its file |
| CompilePlan.JailSrcInjective | internal/executor/materialize.go:145-147 | different files never share a jail path |
| CompilePlan.ArtifactBelowClasses | internal/executor/compiled_multifile.go:131-134 | the artifact of a valid class is its dotted name as a path below `classes/` |
| CompilePlan.ArtifactInjective | internal/executor/compiled_multifile.go:131-134 | two valid classes never share an artifact |
| Limits.ClampLimits | internal/executor/executor.go:279-309 | every field lies between its floor and its ceiling, the ceiling winning, with the default where it was omitted and the larger envelope for tests and traces |
| Limits.ClampedIsFixed | internal/executor/executor.go:279-309 | clamping a clamped request changes nothing |
| Limits.RuntimeOutputClampAgrees | internal/executor/buffer.go:18-23 | the runtimes' second clamp of the output budget changes nothing after the service's |
| Limits.ShutdownGraceMs | internal/config/config.go:287-300 | the longest of the three shapes plus slack, raised but never lowered by the environment |
| Limits.SingleRequestsDrain | internal/config/config.go:271-286 | single runs, tests and interpreted traces end, slack included, before the grace does |
| Limits.BatchesDrain | internal/config/config.go:275-282 | so does a whole batch, whatever its inputs do, when each run keeps its timeout |
| Limits.CompiledTracesDrainIff | internal/config/config.go:287-300 | every traced run of a compiled language is covered if and only if compile ceiling, test ceiling and slack fit in the grace |
| Limits.CompiledTraceOutlivesTheFloor | internal/config/config.go:287-300 | a configuration and a request that together outlive the computed floor |
| Batch.BatchLoop | internal/executor/batch.go:21-35 | the results are the outcomes of the longest prefix before the first reason to stop, aborted if and only if that prefix is strict, and the clock is compile time plus their durations |
| Batch.RunCountIsUnique | internal/executor/batch.go:21-35 | the number of inputs that run is determined by clock, budget and context |
| Batch.OvershootIsOneRun | internal/executor/batch.go:15-20 | the total is the compile time alone or less than the budget plus the longest run |
| Batch.LargerBudgetExtends | internal/executor/batch.go:21-35 | a larger budget only extends the results |
| Limiter.Gate.Step | internal/transport/httpapi/middleware.go:59-69 | one atomic action of one request: it is refused exactly when all slots are held, no other request moves, the receive never blocks, and it comes nearer its end |
| Limiter.Run | internal/transport/httpapi/middleware.go:54-71 | any schedule of arrivals and steps leaves every request where the schedule puts it, and slots, gauge and overload counter equal to what they count |
| Limiter.LimitConcurrency | internal/transport/httpapi/middleware.go:54-58 | a limit that is not positive leaves the handler unlimited |
| Limiter.HandlerIsBounded | internal/transport/httpapi/middleware.go:54-71 | at most `max` requests are in the handler in every reachable state |
| Limiter.GaugeCountsItsOwners | internal/transport/httpapi/middleware.go:61-63 | the gauge is the requests in the handler, those leaving it, and those past the release but before the decrement; never negative |
| Limiter.ArrivalsAreConserved | internal/transport/httpapi/middleware.go:59-69 | arrivals are the admitted, the refused and the undecided, each counted once |
| Limiter.QuiescentIsClean | internal/transport/httpapi/middleware.go:59-69 | when all requests have finished, slots and gauge are zero and arrivals are the served plus the shed |
| Limiter.GaugePassesMax | internal/transport/httpapi/middleware.go:62 | with one slot the gauge can read two |
| Metrics.SearchFloat64s | internal/metrics/metrics.go:185-190 | the binary search finds the first bound at or above the value |
| Metrics.Histogram.Observe | internal/metrics/metrics.go:185-190 | the histogram still holds exactly the observations made, the new one last |
| Metrics.Histogram.Render | internal/metrics/metrics.go:156-174 | each printed bucket is the number of observations at or below its bound; `+Inf` and the count are all of them |
| Metrics.UpToIsAtMost | internal/metrics/metrics.go:161-165 | the running total after a bucket is the number of observations at or below its bound |
| Metrics.Metrics.ObserveRun | internal/metrics/metrics.go:56-76 | counters and histograms of every language still say exactly what the list of runs says |
| Metrics.RunsBalanceHistogram | internal/metrics/metrics.go:63-67 | a language's run counters summed over its statuses are its histogram's count; compiles never exceed runs |
| Metrics.NamedCountersAgree | internal/metrics/metrics.go:68-75 | the oom, timeout and output-limit counters equal the matching run counters |
| OutputBuffer.LimitedBuffer.Write | internal/executor/buffer.go:41-52 | after any writes the capture is exactly the first `limit` bytes of all of them, and the write reports its full length |
| OutputBuffer.LimitedBuffer.MarkTruncated | internal/executor/buffer.go:59-67 | the callback is called on the first overflow and never again |
| OutputBuffer.LimitedBuffer.String | internal/executor/buffer.go:69-75 | the captured prefix, with the marker exactly when the stream counts as truncated |
| OutputBuffer.TruncatedIffOverLimit | internal/executor/buffer.go:41-52 | for non-empty writes: truncated if and only if the total exceeds the limit |
| OutputBuffer.ChunkingIsInvisible | internal/executor/buffer.go:41-67 | how the same bytes were cut into non-empty writes changes neither capture, flag nor callback |
| OutputBuffer.EmptyWriteAtTheBrimTruncates | internal/executor/buffer.go:42-46 | an empty write to a full buffer counts as truncation though every byte was kept |
| SafeRepr.ResultIsBounded | internal/executor/trace_harness.py:92-171 | scalars are at most 257 characters and containers 513, on every graph, cyclic ones included |
| SafeRepr.RenderShows | internal/executor/trace_harness.py:92-171 | the text of a value: literals, clipped texts, marks, and for a container its brackets around the texts of its first cells, in order, key before value, with an ellipsis exactly when the thirtieth is not the last or the cap was passed |
| SafeRepr.JoinAppend | internal/executor/trace_harness.py:153 | the parts stand in order with a comma and a space between |
| SafeRepr.PartsAreBounded | internal/executor/trace_harness.py:140-166 | before it is clipped a container's text is bounded by the total cap and one more cell, and has at most 31 parts |
| SafeRepr.CircularMeansAncestor | internal/executor/trace_harness.py:133-137 | if the check changes a rendering, the value really contains itself within the depth walked, and the lemma returns the descent |
| SafeRepr.SharingIsPlain | internal/executor/trace_harness.py:133-137 | on a graph that can be ranked, with any sharing, the rendering is the one without the check |
| SafeRepr.SelfHolderIsMarked | internal/executor/trace_harness.py:133-137 | a list that holds itself is rendered with the mark |
| SafeRepr.ChainIsOnePass | internal/executor/trace_harness.py:190-193 | the five replacements in sequence are one escape per character: none touches another's output |
| SafeRepr.FittingStringsAreExact | internal/executor/trace_harness.py:125-128 | a string whose quoted text fits can be read back exactly, so two such strings never look alike |
| SafeRepr.LongStringsAreCut | internal/executor/trace_harness.py:125-128 | one that does not fit shows the first 256 characters of its quoted text and the ellipsis |
| SafeRepr.EscapedIsOneLine | internal/executor/trace_harness.py:190-193 | the rendered text has no line break, carriage return or tab |

## Left out

Of the modelled files:

- Exceptions in the middle of a Python walk (each is caught and leaves a partial box); the memory of one
  event is a value that does not change while it is walked, and live objects have distinct addresses.
- The first version of the variables table (`locals` with `repr` and `type`), the exception and crash
  fields of a step, and the counting of student output: plain data beside the graph.
- The size of a step's JSON text is an uninterpreted number; ids are numbers rather than decimal
  strings; pointers keep their value rather than its hexadecimal text.
- `Attribution.Session.Owner`: the fallback rule (one fired breakpoint, no repeated function) is modelled
  but nothing is claimed about whose value it picks; nor is anything claimed for the value the
  closing patch attaches when the program ends.
- `Attribution.Session.Call`: that simultaneously live frames have distinct keys is a requirement on the
  machine, which the driver does not check.
- Which lines of a native program stop the debugger, prologue handling and variables not yet reached;
  a frame's readable variables are an input. Reading an address as a type gives a value or nothing, the
  same throughout a step.
- Reading a value that gdb cannot convert, and dictionary entries of native maps, which the driver does
  not draw either; a union is an opaque value. Struct names are not shortened or clipped.
- `Loop.Collect`: the values returned are inputs of the loop here; `Native.Turn` takes them from
  `Attribution`. The cost of a step is measured before it is patched, as in the code, and the halving of
  a document that is still too big is `HeapDelta.ExactPrefixDecodes`.
- `Stack.ChainOf`: which frames are the student's and which globals are hidden are inputs.
- The tables of languages, extensions and policies, error messages and their truncation; the first error
  is modelled by its kind.
- Library sorts, `path.Clean`, `path.Ext` and `strings.NewReplacer` are modelled by what they document.
- Failures of the disk itself, symbolic links and a root that is not empty, under `os.Root`; the Go build
  recipe beyond its quoting; compile prelude files.
- `Shell.ShJoinRoundTrip`: tokens are recognised as in section 2.3 and quotes removed as in section
  2.6.7; aliases, reserved words and expansions of unquoted text do not arise, since every character of
  an argument is quoted.
- `Batch.BatchLoop`: time passes only inside runs; the overhead of the loop itself is taken as zero.
- `Limits.SingleRequestsDrain`: a phase is assumed to end by its own timeout; that is the operating system's part.
- `Limiter.Run`: each access to the channel, the gauge and the counter is one atomic step; the memory
  model below that is not modelled. A panic in the handler is a return, since the release is deferred.
- `Metrics.Histogram.Observe`: sums and bounds are real numbers; rounding of floating point is not modelled.
  The counts are a sequence reassigned element by element. The text format of a scrape is left out.
- `SafeRepr.ResultIsBounded`: built-in texts of numbers and bytes are inputs; an iterator that fails half
  way through a container (which turns the whole container into `<unrepr>`) is left out.

Of the repository:

- Process launching, nsjail flags, seccomp text, cgroups and namespaces: operating-system behaviour.
- HTTP routing, JSON coding, logging, base64, token sets, request ids and readiness: easy members.
- Language specifications, version parsing and status classification: finite tables.
- Incremental UTF-8 decoding of the program's output: a library decoder.
