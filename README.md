# pid-flamegraph: user-space core in Dafny

This project models the user-space half of a per-process flame-graph tool,
`ebpf/src/main.rs`. Probe events arrive as Enter/Exit records carrying a
call-path id. The tool pairs them into completed call paths, merges the paths
into one call tree, and lays the tree out as proportionally sized rectangles.

- `numeric.dfy`, module `Numeric`: the `u8`/`u32`/`u64` ranges, min/max, and
  the Euclidean-division facts the proofs use.
- `flame_tree.dfy`, module `FlameTree`: `FlameNode`, `add_child`
  (`AddChild`), `duration` (`Duration`), and path lookup. Properties proved:
  insertion frame, insertion spans, idempotence, one child per name, and
  `start <= end`.
- `colour.dfy`, module `Colour`: the 32-bit wrapping name hash, its split
  into RGB channels, and the "bright" channel variant.
- `layout.dfy`, module `Layout`: `draw_flame_node` as a specification
  function (`Layout`) and as a recursive method with a loop over children
  (`Document.DrawNode`), plus `generate_flamegraph`. Properties proved:
  depth clipping, widths, sibling fit, and label placement.
- `reconstructor.dfy`, module `Reconstructor`: the Enter/Exit handling on
  `stack_data` as a step function (`Step`), as a fold over one buffer
  (`Run`), and as the in-place `Session` class (`ApplyEvent`, `Drain`).
- `pipeline.dfy`, module `Pipeline`: all buffers drained into one session,
  then laid out (`Trace`), and the root-duration consequences.

Modelling decisions:
- Children are a sequence kept in insertion order, one child per distinct
  name. The source uses a `HashMap`, so its left-to-right order is
  unspecified.
- `add_child` is a function that returns the updated tree, and the session
  reassigns its `root` field. The tree is owned by the loop, so no aliasing
  is lost.
- Line 61 calls the evidently intended three-argument
  `FlameNode::new(name, start, end)`. The model implements that call.
- A frame's width is `child_dur * width / total_dur` in integers, saturating
  at `u32::MAX` like the float-to-int cast. A parent of duration 0 sizes
  every child 0, so the whole subtree is skipped. The source has no such
  guard; see Findings.
- `document.add(rect)` discards its result in the source (a compile-level
  defect). The model appends the primitive, as intended.

Two facts about the code shape the model:
- The root is created at [0, 0] and never widened, so its duration is 0
  (`Pipeline.PipelineRootHasZeroDuration`).
- Nothing in the code keeps a child's span inside its parent's. Intermediate
  nodes keep their creation span while deeper nodes widen. Sibling widths
  are therefore proved to fit only under the explicit hypothesis `Nested`,
  and `Layout.AddChildOutgrowsParent` shows a child drawn three times as
  wide as its parent.

## Model

| member | source | states |
|---|---|---|
| FlameTree.NewNode | ebpf/src/main.rs:41-48 | a fresh node has the given name and span and no children; when start <= end it is ordered and lasts end - start (the source's `new` takes no end; its callers pass one, see Left out) |
| FlameTree.Duration | ebpf/src/main.rs:70-72 | `end - start` when start <= end; the u64 wrap-around value otherwise |
| FlameTree.AddChild | ebpf/src/main.rs:51-69 | insertion never changes the name or span of the node it starts from |
| FlameTree.ChildFor | ebpf/src/main.rs:59-61 | the child found or created for a name carries that name; an existing child of that name is reused, and otherwise it is a fresh node spanning [start, end] |
| FlameTree.Descend | ebpf/src/main.rs:59-68 | the child updated by one level of insertion carries the stack's first name; with more names below, its span is that of the found or created child, and at the last name that span is widened to cover [start, end] with its children untouched |
| FlameTree.EmptyStackIsNoOp | ebpf/src/main.rs:53-55 | inserting an empty stack leaves the tree unchanged |
| FlameTree.AddChildFrame | ebpf/src/main.rs:57-68 | every path that is not a prefix of the inserted stack reaches the same subtree (or none) before and after; sibling subtrees and the subtree below the final node are untouched |
| FlameTree.AddChildDescends | ebpf/src/main.rs:57-68 | a lookup along the inserted stack continues in the child that `add_child` found or created for its first name, and before insertion finds nothing when that child did not exist |
| FlameTree.AddChildSpans | ebpf/src/main.rs:60-68 | after insertion every non-empty prefix of the stack exists, named by its last element; intermediate nodes keep their span or are created with [start, end]; the final node becomes [min(old.start, start), max(old.end, end)] or [start, end] when new |
| FlameTree.AddChildKeepsUniqueNames | ebpf/src/main.rs:60-62 | insertion keeps exactly one child per distinct name at every level |
| FlameTree.AddChildKeepsOrdered | ebpf/src/main.rs:61-67 | with start <= end in the record, insertion keeps start <= end at every node |
| FlameTree.AddChildIdempotent | ebpf/src/main.rs:60-68 | inserting the same (stack, start, end) twice gives the same tree as inserting it once |
| FlameTree.MergeScenario | ebpf/src/main.rs:66-67 | ["x","y"] over [0,5] then [2,9] yields one node x -> y spanning [0,9] |
| Colour.NameHash | ebpf/src/main.rs:140 | the wrapping fold `h*31 + b` from 0 equals the polynomial sum of b_i * 31^(n-1-i), reduced modulo 2^32 |
| Colour.WrappingAdd | ebpf/src/main.rs:140 | `wrapping_add` on u32: the sum, less 2^32 when it overflows |
| Colour.Channels | ebpf/src/main.rs:141-143 | the three 8-bit channels (h>>16, h>>8, h, each & 0xFF) recompose to the low 24 bits of the hash |
| Colour.Bright | ebpf/src/main.rs:145 | `c/2 + 128` lies in [128, 255], and 2 * (r - 128) is c rounded down to an even number |
| Colour.NameColour | ebpf/src/main.rs:140-143 | the fill colour of a name, read as r * 2^16 + g * 2^8 + b, is the low 24 bits of the polynomial hash |
| Colour.BrightColour | ebpf/src/main.rs:145 | every bright channel is at least 128 |
| Layout.DrawChild | ebpf/src/main.rs:148-167 | a drawn child's primitives start with its rectangle at (x, y), w by h, filled with its name's colour and standing for its frame, followed by a label exactly when w > 50 (one primitive otherwise, two with the label), and obey the labelling rule |
| Layout.Layout | ebpf/src/main.rs:116-129 | a node at or past the depth limit, a leaf, and a node lasting 0 draw nothing |
| Layout.LayoutKids | ebpf/src/main.rs:128-137 | under a parent lasting 0 no child is drawn |
| Layout.ChildPrims | ebpf/src/main.rs:135-180 | a child draws nothing exactly when its width is 0; otherwise its primitives start with its rectangle at the running offset |
| Layout.Flamegraph | ebpf/src/main.rs:87-106 | the picture starts with the white background, and is the background alone when the root lasts 0 |
| Layout.ChildWidth | ebpf/src/main.rs:128-137 | a frame width is at most u32::MAX, and 0 (subtree skipped) under a zero-duration parent; its exact value is stated by `Layout.ChildWidthIsFloor` |
| Layout.ChildWidthIsFloor | ebpf/src/main.rs:133 | under a parent of positive duration the width w is the floor of child_dur * width / total_dur, saturated at u32::MAX: w * total_dur <= child_dur * width, and below u32::MAX child_dur * width < (w + 1) * total_dur; a child whose share is at least 1 is drawn |
| Layout.AsWrittenWidth | ebpf/src/main.rs:128-133 | the unguarded width agrees with the guarded one whenever the parent's duration is positive |
| Layout.ChildWidthAtMostShare | ebpf/src/main.rs:133 | a width never exceeds the truncated share child_dur * width / total_dur |
| Layout.ChildWidthAtMostParent | ebpf/src/main.rs:132-133 | a child lasting no longer than its parent is no wider than its parent |
| Layout.DrawnWidthProportional | ebpf/src/main.rs:131-137 | the widths of siblings add up to at most their summed durations' share of the parent's width |
| Layout.SiblingWidthsFit | ebpf/src/main.rs:131-137 | when children together last no longer than the parent, the running offset never passes the parent's width |
| Layout.LayoutRows | ebpf/src/main.rs:125-127 | every rectangle is at least 1 wide, one row high and within rows depth..maxDepth-1; nothing is drawn at or below maxDepth, and labels lie in the same rows |
| Layout.LayoutKidsRows | ebpf/src/main.rs:131-183 | the same row bounds for the loop over the children |
| Layout.FlamegraphFitsVertically | ebpf/src/main.rs:76-79 | with MAX_DEPTH = 800/20 every frame rectangle lies inside the 800-high canvas |
| Layout.LayoutColumns | ebpf/src/main.rs:129-183 | when durations nest, every primitive of a subtree lies within the columns [x, x + width) given to it |
| Layout.LayoutKidsColumns | ebpf/src/main.rs:131-183 | the same column bounds for the loop over the children, when their widths together fit the parent's |
| Layout.AddChildOutgrowsParent | ebpf/src/main.rs:57-68 | inserting [a, b] over [0, 10] and then [20, 30] leaves a lasting 10 and its child b lasting 30, so b is sized 300 under a 100-wide a |
| Layout.LayoutLabelled | ebpf/src/main.rs:159-167 | a rectangle wider than 50 is immediately followed by its label at (x+5, y+h-5) naming the rectangle's frame, and every label follows such a rectangle |
| Layout.LayoutKidsLabelled | ebpf/src/main.rs:148-167 | the same labelling rule for the loop over the children |
| Layout.LayoutKidsSnoc | ebpf/src/main.rs:131-183 | one more child adds its width to the running offset, and adds nothing when its width is 0; otherwise it adds its rectangle, label and subtree at that offset |
| Layout.Document.Add | ebpf/src/main.rs:156 | adding a primitive appends it to the document |
| Layout.Document.DrawNode | ebpf/src/main.rs:116-184 | the primitives appended are exactly `Layout` of the node |
| Layout.Document.DrawKid | ebpf/src/main.rs:131-183 | one iteration of the loop over the children extends the primitives from `LayoutKids` of the first i children to that of the first i+1, and advances the offset by the child's width |
| Layout.Document.DrawChildAt | ebpf/src/main.rs:139-180 | one drawn child appends its rectangle, its label when wider than 50, then its subtree one row down |
| Layout.GenerateFlamegraph | ebpf/src/main.rs:75-106 | the document is the white background followed by the layout of the root from (0, 0), 1200 wide, rows of 20, depth limit 40 |
| Reconstructor.NameOfIgnoresPadding | ebpf/src/main.rs:228 | an Enter's name depends only on the first `data_len` bytes of its buffer |
| Reconstructor.NameOfBuffer | ebpf/src/main.rs:228 | a buffer holding a name then zero padding, with `data_len` its length, is named by the decoding of that name |
| Reconstructor.Step | ebpf/src/main.rs:225-245 | Enter opens a fresh id as ([f, f], ts) or appends f to an open id keeping its start; Exit removes an open id and inserts exactly (names, start, exit ts); a stray Exit and any other kind change nothing; other ids are untouched |
| Reconstructor.Run | ebpf/src/main.rs:224-246 | after a buffer, an id is open only if it was open before or some Enter in the buffer carries it |
| Reconstructor.RunKeepsDuplicatedHead | ebpf/src/main.rs:231-236 | every open path always holds at least two names and begins with its first name twice |
| Reconstructor.RunKeepsUniqueNames | ebpf/src/main.rs:239-242 | the event loop keeps one child per distinct name at every level of the tree |
| Reconstructor.RunKeepsRootSpan | ebpf/src/main.rs:211 | the loop never changes the root's name or span |
| Reconstructor.RunIgnoresUnseenIds | ebpf/src/main.rs:224-245 | an id that no event carries keeps its entry, or its absence, through the run |
| Reconstructor.EnterEnterExitScenario | ebpf/src/main.rs:226-242 | Enter(1,a,0), Enter(1,b,1), Exit(1,10) leaves nothing open and records root -> a -> a -> b with span [0, 10] at b |
| Reconstructor.Session.constructor | ebpf/src/main.rs:210-211 | an empty `stack_data` and a root named "root" spanning [0, 0] |
| Reconstructor.Session.ApplyEvent | ebpf/src/main.rs:225-245 | the in-place map and tree updates for one event are exactly `Step` |
| Reconstructor.Session.Drain | ebpf/src/main.rs:224-246 | draining one buffer applies its events in order: the new state is `Run` of the old |
| Pipeline.RunAppend | ebpf/src/main.rs:223-247 | draining a + b equals draining a, then b from the resulting state |
| Pipeline.Trace | ebpf/src/main.rs:210-252 | the document produced is the flame graph of the tree built from all buffers, drained one after another |
| Pipeline.PipelineRootHasZeroDuration | ebpf/src/main.rs:211 | the root of every tree the loop builds has duration 0 |
| Pipeline.AsWrittenRootChildrenSaturate | ebpf/src/main.rs:128-133 | as written, every root child that lasted at all is sized u32::MAX, wider than the 1200-wide canvas |
| Pipeline.AsWrittenScenarioOverflowsCanvas | ebpf/src/main.rs:128-133 | after Enter(1,a,0), Enter(1,b,1), Exit(1,10) the root child "a" lasts 10; as written it is u32::MAX wide, and 0 wide with the guard |
| Pipeline.GuardedPipelineDrawsOnlyBackground | ebpf/src/main.rs:96-106 | with the zero-duration guard, the picture of any tree the loop builds is the background alone |

`Colour.WrappingMul` (`wrapping_mul`, line 140) and `Layout.DrawnWidth` (the
`current_x` accumulator, lines 129 and 182) have no row of their own: the
first is covered by `Colour.NameHash`'s contract, the second by
`Layout.Document.DrawKid`, `Layout.LayoutKidsSnoc` and `Layout.SiblingWidthsFit`.

## Left out

- The kernel side (`ebpf/src/lib.rs`) is not part of this model: the probe program, the `STACKS`, `EVENTS` and `STACK_ID_COUNTER` maps, `get_next_stack_id`, and the symbol lookup. `EbpfData` is mirrored as `RawEvent`.
- Program loading, attaching, `PerfEventArray::poll`, per-CPU buffers and the `tokio` runtime are I/O. So is the `Instant` deadline loop. `Pipeline.Trace` takes the event buffers in the order they were drained.
- `clap` option parsing, the `println!` messages, SVG document building, hex colour formatting and the file write are I/O or serialisation. A rectangle's stroke is reduced to the flag `outlined`; font size and text colour are not modelled.
- `String::from_utf8_lossy` is a `Decoder` function parameter. Its replacement of invalid bytes is not modelled.
- Layout.ChildWidth: the exact integer floor of child_dur * width / total_dur stands in for the f64 computation. The source divides before it multiplies, so its rounded result can fall one below that floor even for small values: 11/15*1200 truncates to 879 where the model gives 880, and 1/49*49 is 0.9999999999999999, so the source skips a child the model draws 1 wide. Rounding of large u64 durations to f64 is not modelled either.
- Layout.ChildWidthIsFloor: states the exact integer floor; for the reason above the source's width can be one less.
- Layout.SiblingWidthsFit: holds only under `Nested` (children together last no longer than their parent). `add_child` does not keep that, as `Layout.AddChildOutgrowsParent` shows, so trees built by the event loop can overflow their parent's columns.
- Layout.LayoutColumns: the same `Nested` hypothesis; without it a subtree can extend past the columns given to it.
- Layout.AsWrittenWidth: models the float cast only for a zero denominator (infinity saturates to u32::MAX, NaN casts to 0). Rounding is not modelled.
- Coordinates are unbounded integers, so u32 overflow of `current_x`, `current_x + 5` and `y + cell_height` is not modelled. It can happen once a width saturates.
- FlameTree.Duration: uses wrapping u64 subtraction (release build). A debug build panics instead when end < start.
- `total_time` is passed to `draw_flame_node` but never read there, so it is not a parameter of `Layout`.
- The bright colour (line 145) is computed but never drawn. It is modelled as a function only.
- The event's `pid` field is carried but never read.
- Reconstructor.WellFormed: an event is assumed to carry the 64-byte name buffer with `data_len <= 64` on an Enter. The source slices `data[..data_len]` and panics otherwise; that panic is not modelled.
- Compile-level defects are modelled as evidently intended: the `svc` import typo, the missing `PerfEvent`/`PerfTypeId` imports, the arity of `FlameNode::new` at lines 61 and 211, `child_name` used after being moved at line 61, and the discarded result of `document.add`.
- A fix for the root's zero duration is not modelled. One option would be a root that spans the whole run, but the intended fix is not evident from the code.

## Findings

| source | as written | input that shows it | evidently intended | confidence | as-written member | corrected member |
|---|---|---|---|---|---|---|
| ebpf/src/main.rs:128-133 | The width divides by the parent's duration with no zero guard. The root is created at [0, 0] and never widened, so at depth 1 the f64 quotient is infinite and the cast gives u32::MAX | Enter(1,"a",0), Enter(1,"b",1), Exit(1,10): root child "a" spans [0, 10] and is drawn 4294967295 wide on a 1200-wide canvas | a parent of zero duration sizes nothing (its subtree is skipped); with that guard, a child lasting no longer than its parent is no wider than it, which `Layout.ChildWidthAtMostParent` proves (it holds as written too once the parent lasts more than 0) | not executed | Layout.AsWrittenWidth, Pipeline.AsWrittenScenarioOverflowsCanvas | Layout.ChildWidth, Pipeline.GuardedPipelineDrawsOnlyBackground |

With the guard in place, `Pipeline.GuardedPipelineDrawsOnlyBackground`
shows the remaining consequence: a tree built by the loop draws nothing but
the background, because its root lasts 0.
