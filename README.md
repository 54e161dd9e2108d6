# Outline tree state machine (rabbithole) in Dafny

rabbithole is an outliner: a tree of text nodes where the user zooms into a child
("push") or back out to the parent ("pop"). This project models the in-memory core
of it:

- **`NumericTree`** (`numeric_tree.dfy`) models the integer-id tree of `src/index.tsx`.
  The state is a map from ids to nodes (`data`, `parent`, `children`), the focused node
  and a `nextId` counter. The model covers the application reducer (`UPDATE_TEXT`,
  `SET_NODE`, `PUSH_CHILD`, `LOAD_STATE`, and any other action type) and the tree reducer
  it delegates to. It also covers the render-time guard that dispatches `PUSH_CHILD` for
  a childless focused node, and the module-level `getNextId` counter, which is a class.
  The structural invariant `Consistent` says four things:
  - every entry is a full node;
  - every key is below `nextId`;
  - a node lists a child exactly when that child names it as parent;
  - no node lists a child twice.

  The model proves that the initial state satisfies it. It also proves that every action
  other than `LOAD_STATE` that names only existing ids preserves it. Finally it covers any
  run of such actions in which each action names only ids that exist when that action is
  applied. This includes nodes created earlier in the same run. Such a run allocates
  exactly the ids from the old `nextId` upward. `LOAD_STATE` installs whatever was parsed
  and can break the invariant.
- **`StringTree`** (`string_tree.dfy`) models the string-id tree of `src/state.ts`: its
  starter state and the `SET_NODE` and `INIT_CHILDREN` transitions. `INIT_CHILDREN`
  replaces a node's children with one fresh child holding an empty paragraph.
- **`SplitIds`** (`split_ids.dfy`) models the pass `SlateContainer` runs on every edited
  batch of blocks. Splitting a block leaves both halves with one id. The pass scans left
  to right and gives a fresh id to every block whose id equals its already updated
  predecessor's id. A block may lack an id, and two adjacent blocks without one count as
  sharing it. The same loop warns about blocks that are not flat. The loop is a
  method on an array. It is proved against the specification function `Pass` and the
  warning list `Warnings`, and lemmas state what `Pass` guarantees.
- `Results` holds `Option`/`Result`, and `Slate` holds the editor's document node type
  with `IsText`.

Exceptions the JavaScript would throw become `Err(TypeError)`. Examples are reading
`children` of a missing entry and `JSON.parse` failing (`Err(SyntaxError)`). The random
id generator `nanoid` is a supplied id, and the model requires that it is not already a
key.

## Model

| member | source | states |
|---|---|---|
| `NumericTree.NewNode` | src/index.tsx:31-35 | A new node is a full node with empty text, the given parent and no children |
| `NumericTree.InitialState` | src/index.tsx:37-78 | The starter tree is consistent, its focus is a key, and its keys are exactly 1 up to `nextId - 1` |
| `NumericTree.TreeReducer` | src/index.tsx:133-160 | UPDATE_TEXT sets one entry's data and keeps that node's parent and children and every other entry. On a missing id it leaves a data-only record. PUSH_CHILD fails exactly when the node is missing or data-only. Otherwise, when the node is not itself the allocated id, it appends the allocated id to the node's children, stores an empty childless node there whose parent is that node, and leaves every other entry alone. Other actions return the tree unchanged |
| `NumericTree.Reducer` | src/index.tsx:99-131 | UPDATE_TEXT sets the named entry's data, keeps a full node's parent and children, keeps every other entry, and keeps focus and counter. SET_NODE moves focus and keeps tree and counter. PUSH_CHILD fails exactly on a missing or data-only node. Otherwise it bumps `nextId` by one, keeps focus and yields the tree reducer's result. When the node is not itself the old `nextId`, it appends the old `nextId` to the node's children and keeps the node's data and parent. It stores an empty childless node with that parent at the old `nextId`, and keeps every other entry. LOAD_STATE fails exactly when parsing fails, and otherwise yields the parsed state. An unrecognised action returns the state unchanged |
| `NumericTree.RenderGuard` | src/index.tsx:166-171 | The guard throws exactly when the focus is missing or data-only, and leaves a focus that has children unchanged |
| `NumericTree.UpdateTextPreservesConsistent` | src/index.tsx:135-143 | From a consistent state, UPDATE_TEXT succeeds, and the result is consistent if and only if the id was already a key |
| `NumericTree.SetNodePreservesConsistent` | src/index.tsx:107-111 | SET_NODE keeps the tree consistent, and the new focus is a key if and only if the target is |
| `NumericTree.PushChildPreservesConsistent` | src/index.tsx:112-156 | On a consistent state and an existing node, PUSH_CHILD allocates `nextId`, which was not a key. The key set grows by exactly that id. The node keeps its data and parent, and its children become the old children plus that id. The new entry is an empty node with the node as parent, and every other entry is unchanged. Focus is kept, `nextId` grows by one, and the result is consistent |
| `NumericTree.PushChildOntoAllocatedId` | src/index.tsx:148-155 | When the node's id equals `nextId`, PUSH_CHILD writes the new empty child over the node itself: the keys stay the same, the node becomes an empty node whose parent is itself, and neither the state before nor the state after is consistent |
| `NumericTree.LoadStateMayBreakConsistency` | src/index.tsx:126-127 | LOAD_STATE yields the parsed state unchecked, so it can replace the consistent starter state with an inconsistent one |
| `NumericTree.GuardGivesOneChild` | src/index.tsx:169-171 | A childless focused node gets exactly one child, the old `nextId`, and the state stays consistent |
| `NumericTree.GuardSettles` | src/index.tsx:166-171 | On a consistent state with a live focus, the guard succeeds and keeps consistency. Afterwards the focus has a child, and a second render changes nothing |
| `NumericTree.StepPreservesConsistent` | src/index.tsx:99-131 | Every action other than LOAD_STATE that is addressed to live ids succeeds and keeps consistency. Keys grow only by the id PUSH_CHILD allocates |
| `NumericTree.RunAllocatesFresh` | src/index.tsx:112-125 | Consider a run without LOAD_STATE in which every action names only ids that exist when it is applied, possibly ones created earlier in the run. Such a run from a consistent state succeeds and ends consistent. `nextId` grows by the number of PUSH_CHILDs, and the new keys are exactly the ids from the old `nextId` upward: strictly increasing and never colliding with earlier keys |
| `NumericTree.AddChildThenZoomIn` | src/index.tsx:169-171 | From the starter tree, "add child" on node 2, focusing the new node 6 and the guard's PUSH_CHILD on it form a live run. It allocates 6 and then 7, leaving node 6 focused with the single child 7 |
| `NumericTree.IdCounter.constructor` | src/index.tsx:24 | The counter starts at 0 |
| `NumericTree.IdCounter.GetNextId` | src/index.tsx:26-29 | The counter grows by one, and the returned id is its new value, larger than any earlier result |
| `StringTree.InitialState` | src/state.ts:20-41 | The starter state has exactly the two generated keys and focuses the root. The root has no data, a null parent and the child as its only child. The child holds a paragraph with the starter text, has no children, and its parent is the number 0 |
| `StringTree.InitialStateUnlinked` | src/state.ts:25-37 | In the starter state as written, the root lists the child but the child does not name the root, so the tree is not consistent |
| `StringTree.InitialStateLinked` | src/state.ts:20-41 | With the child's parent set to the root id, the starter state is consistent |
| `StringTree.TreeReducer` | src/state.ts:64-82 | INIT_CHILDREN fails exactly when the node is missing. Otherwise it replaces the node's children with just the fresh id and keeps its data and parent. It stores an empty-paragraph node with the node as parent at the fresh id. The map grows by exactly that key, and every other entry is unchanged. Other actions return the tree unchanged |
| `StringTree.Reducer` | src/state.ts:47-62 | SET_NODE moves focus and keeps the tree. INIT_CHILDREN fails exactly on a missing node and keeps focus. Otherwise it makes the fresh id the node's only child and stores the empty-paragraph child there. The key set grows by exactly that id, and every other entry is unchanged. An unrecognised action returns the state unchanged |
| `StringTree.InitChildrenPreservesConsistent` | src/state.ts:67-76 | INIT_CHILDREN on a childless node of a consistent tree keeps it consistent |
| `StringTree.InitChildrenOrphans` | src/state.ts:75 | On a node that already has a child, that child stays in the map still naming the node as parent, but the node no longer lists it, so the tree is no longer consistent |
| `StringTree.InitChildrenTwice` | src/state.ts:67-76 | On any tree in which no node lists the first fresh id, consistent or not, two INIT_CHILDRENs on one node leave it with exactly one child, the second fresh id. The first synthesised child stays in the map, no node lists it, and the map grows by exactly the two fresh ids |
| `StringTree.InitChildrenTwiceOnStarter` | src/state.ts:20-41 | On the starter state as written, with its numeric parent, two INIT_CHILDRENs on the root leave the second fresh id as its only child and the first in the map with no node listing it |
| `SplitIds.Pass` | src/components/SlateContainer.tsx:54-66 | The pass keeps the batch length and order and every block's type and children, and never changes the first block |
| `SplitIds.PassPrefix` | src/components/SlateContainer.tsx:54-66 | The pass on a prefix is the prefix of the pass, so each step depends only on blocks to its left |
| `SplitIds.PassAt` | src/components/SlateContainer.tsx:63-65 | Block `i` keeps its id unless that id equals the already updated predecessor's id. In that case it takes the fresh id of step `i` |
| `SplitIds.NoAdjacentDuplicates` | src/components/SlateContainer.tsx:60-65 | If each fresh id differs from the ids its predecessor can end with, no two adjacent blocks of the result share an id |
| `SplitIds.PassKeepsDistinctNeighbours` | src/components/SlateContainer.tsx:63 | A batch with no adjacent shared ids passes through unchanged |
| `SplitIds.PassIdempotent` | src/components/SlateContainer.tsx:53-67 | With fresh ids as above, a second pass changes nothing |
| `SplitIds.ThreeSharedIds` | src/components/SlateContainer.tsx:63-65 | Three blocks with id `x` become `x`, then the fresh id, then `x` again. This holds also when the blocks have no id |
| `SplitIds.WarningsAreNonFlat` | src/components/SlateContainer.tsx:57-59 | The flatness check warns about exactly the blocks whose children are not all text leaves, each once, in increasing order |
| `SplitIds.Disambiguate` | src/components/SlateContainer.tsx:51-68 | The in-place loop leaves the array equal to `Pass` of its old contents and reports exactly `Warnings` of the old contents. The warnings never change the batch |

## Findings

| source | as written | input that shows it | evidently intended | confidence | as-written member | corrected member |
|---|---|---|---|---|---|---|
| src/state.ts:35 | The starter child stores `parent: 0`, a number that is not the root's string id. The declared type allows only an id or null, and the build uses Babel, which does not type-check. | `initialState()` itself: the root lists `childId`, but `tree[childId].parent` is `0`, not `rootId` | `parent: rootId`, so that the child's back-link names the node that lists it | medium, not executed | `StringTree.InitialStateUnlinked` | `StringTree.InitialStateLinked` |

## Left out

- `LOAD_STATE` (src/index.tsx:126-127): `JSON.parse` is a parameter of the action (`None` when it throws). The model does not parse text and does not check that the parsed value has the shape of a state. The source does not check that the loaded state is consistent either, so `StepPreservesConsistent` and `RunAllocatesFresh` exclude LOAD_STATE.
- React rendering, `useReducer`/`useState`/`useEffect`/`useMemo`, DOM events and the `contentEditable` input handler are not modelled. The render guard is modelled as one application of the reducer to the rendered state. The selection reset in `SlateContainer` is not modelled either.
- Slate editor calls (`insertBreak`, `insertText`) and the `is-hotkey` key handling in `SlateContainer` are not modelled. `Text.isText` is modelled as the `Text` case of `Slate.SlateNode`.
- `nanoid` is modelled as supplied ids. In `StringTree` a fresh id is required not to be a key. In `SplitIds`, `freshIds[i]` is the id generated at step `i`. Its randomness is not modelled.
- immer's `produce` is modelled as the pure copy-with-update it denotes for the reducers, and as an in-place update of the working array for the `SlateContainer` pass.
- `console.log` and `console.warn` are not modelled. The flatness warnings become the returned list of indices.
- The presentation components (`DefaultElement`, `TitleElement`, `CodeElement`, `Button`) and `webpack.config.js` are not part of this model. Block depth is only read for styling by `DefaultElement`; nothing modelled here computes it.
- Merging an edited batch back into the tree on push or pop, adjacent-leaf cleanup, leaf/element wrapping and code-fence detection are not part of this model. The code that does them is not among the files modelled: `SlateContainer` only hands the batch to `onPush`/`onPop`.
- JavaScript numbers are doubles. Ids and `nextId` are unbounded integers here, so exhausting exact integers above 2^53 is not modelled.
- `NumericTree.Action.Unrecognised` carries an arbitrary tag. The model does not require that the tag differs from the four action constants.
- `NumericTree.Consistent` and `StringTree.Consistent` do not state that every node is reachable from the root. The source maintains no such property explicitly.
