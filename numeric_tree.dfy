/** The numeric-id outline tree of `src/index.tsx`: a map from integer ids to nodes, the
    focused node and the next id to hand out; the action reducer and the tree reducer it
    delegates to; the render-time guard that gives a childless focused node a child; and
    the module-level id counter. */
module NumericTree {
  import opened Results

  type Id = int

  /** A tree entry. `Node` is the source's node record. `DataOnly` is the record `{ data }`
      that spreading a missing entry produces when UPDATE_TEXT names an id that is not a
      key: it has no `parent` and no `children` field. */
  datatype Entry =
    | Node(data: string, parent: Option<Id>, children: seq<Id>)
    | DataOnly(data: string)

  type Tree = map<Id, Entry>

  datatype State = State(tree: Tree, currentNode: Id, nextId: Id)

  /** The exceptions a reducer call can throw: reading a field of `undefined`, or a
      `JSON.parse` failure. */
  datatype Error = TypeError | SyntaxError

  /** The actions the application dispatches. `LoadState` carries what `JSON.parse` made
      of the pasted text (`None` when it throws); `Unrecognised` stands for an action whose
      type is none of the four constants. */
  datatype Action =
    | UpdateText(id: Id, value: string)
    | SetNode(target: Id)
    | PushChild(nodeId: Id)
    | LoadState(parsed: Option<State>)
    | Unrecognised(tag: string)

  /** The actions the tree reducer sees: PUSH_CHILD arrives with the id to allocate. */
  datatype TreeAction =
    | TreeUpdateText(id: Id, value: string)
    | TreePushChild(nodeId: Id, nextId: Id)
    | TreeOther

  /** A new node: no text, the given parent and no children. */
  function NewNode(parent: Option<Id>): (n: Entry)
    ensures n.Node? && n.data == "" && n.parent == parent && n.children == []
  {
    Node("", parent, [])
  }

  // ---------------------------------------------------------------------------
  // The structural invariant

  /** Node `p` lists `c` among its children. */
  ghost predicate Lists(t: Tree, p: Id, c: Id)
  {
    p in t && t[p].Node? && c in t[p].children
  }

  /** Node `c` names `p` as its parent. */
  ghost predicate HasParent(t: Tree, c: Id, p: Id)
  {
    c in t && t[c].Node? && t[c].parent == Some(p)
  }

  /** Every entry is a full node with a key below `nextId` and no repeated child; a node
      lists a child exactly when that child names it as parent (so every child id is a
      key, and every parent id is a key that lists the node). */
  ghost predicate Consistent(s: State)
  {
    && (forall k :: k in s.tree ==> s.tree[k].Node? && k < s.nextId && Distinct(s.tree[k].children))
    && (forall p, c :: Lists(s.tree, p, c) ==> HasParent(s.tree, c, p))
    && (forall c, p :: HasParent(s.tree, c, p) ==> Lists(s.tree, p, c))
  }

  /** The focused node is a key of the tree. */
  ghost predicate Focused(s: State)
  {
    s.currentNode in s.tree
  }

  // ---------------------------------------------------------------------------
  // Initial state and reducers

  function InitialState(): (s: State)
    ensures Consistent(s) && Focused(s)
    ensures forall k :: k in s.tree <==> 1 <= k < s.nextId
  {
    var t := map[
      1 := Node("", None, [2]),
      2 := Node("why is this thing so?", Some(1), [3, 5]),
      3 := Node("well it could be this", Some(2), [4]),
      4 := Node("", Some(3), []),
      5 := Node("or maybe it could be that", Some(2), [])
    ];
    assert t.Keys == {1, 2, 3, 4, 5};
    State(t, 2, 6)
  }

  /** The tree reducer: UPDATE_TEXT rewrites one entry's data, PUSH_CHILD appends the
      allocated id to a node's children and stores a fresh empty child there (over the
      node itself when the node's id is the allocated one); any other action leaves the
      tree alone. */
  function TreeReducer(tree: Tree, a: TreeAction): (r: Result<Tree, Error>)
    ensures a.TreeUpdateText? ==>
      && r.Ok?
      && r.value.Keys == tree.Keys + {a.id}
      && r.value[a.id].data == a.value
      && (r.value[a.id].Node? <==> a.id in tree && tree[a.id].Node?)
      && (r.value[a.id].Node? ==>
            r.value[a.id].parent == tree[a.id].parent && r.value[a.id].children == tree[a.id].children)
      && (forall k :: k in tree && k != a.id ==> r.value[k] == tree[k])
    ensures a.TreePushChild? ==> (r.Ok? <==> a.nodeId in tree && tree[a.nodeId].Node?)
    ensures a.TreePushChild? && r.Ok? && a.nodeId != a.nextId ==>
      && r.value.Keys == tree.Keys + {a.nextId}
      && r.value[a.nodeId].Node?
      && r.value[a.nodeId].data == tree[a.nodeId].data
      && r.value[a.nodeId].parent == tree[a.nodeId].parent
      && r.value[a.nodeId].children == tree[a.nodeId].children + [a.nextId]
      && r.value[a.nextId] == Node("", Some(a.nodeId), [])
      && (forall k :: k in tree && k != a.nodeId && k != a.nextId ==> r.value[k] == tree[k])
    ensures a.TreeOther? ==> r == Ok(tree)
  {
    match a
    case TreeUpdateText(id, value) =>
      var updated := if id in tree && tree[id].Node?
                     then Node(value, tree[id].parent, tree[id].children)
                     else DataOnly(value);
      Ok(tree[id := updated])
    case TreePushChild(nodeId, nextId) =>
      if nodeId in tree && tree[nodeId].Node? then
        var node := tree[nodeId];
        Ok(tree[nodeId := Node(node.data, node.parent, node.children + [nextId])][nextId := NewNode(Some(nodeId))])
      else
        // `node.children` of a missing entry, or spreading the absent `children` of a
        // data-only record, throws
        Err(TypeError)
    case TreeOther =>
      Ok(tree)
  }

  /** The application reducer. */
  function Reducer(s: State, a: Action): (r: Result<State, Error>)
    ensures a.UpdateText? ==>
      && r.Ok?
      && r.value.currentNode == s.currentNode
      && r.value.nextId == s.nextId
      && r.value.tree.Keys == s.tree.Keys + {a.id}
      && r.value.tree[a.id].data == a.value
      && (a.id in s.tree && s.tree[a.id].Node? ==>
            r.value.tree[a.id].Node?
            && r.value.tree[a.id].parent == s.tree[a.id].parent
            && r.value.tree[a.id].children == s.tree[a.id].children)
      && (forall k :: k in s.tree && k != a.id ==> r.value.tree[k] == s.tree[k])
      && r.value.tree == TreeReducer(s.tree, TreeUpdateText(a.id, a.value)).value
    ensures a.SetNode? ==>
      r.Ok? && r.value.currentNode == a.target && r.value.tree == s.tree && r.value.nextId == s.nextId
    ensures a.PushChild? ==> (r.Ok? <==> a.nodeId in s.tree && s.tree[a.nodeId].Node?)
    ensures a.PushChild? && r.Ok? ==>
      && r.value.nextId == s.nextId + 1
      && r.value.currentNode == s.currentNode
      && r.value.tree == TreeReducer(s.tree, TreePushChild(a.nodeId, s.nextId)).value
    ensures a.PushChild? && r.Ok? && a.nodeId != s.nextId ==>
      && r.value.tree.Keys == s.tree.Keys + {s.nextId}
      && r.value.tree[a.nodeId].data == s.tree[a.nodeId].data
      && r.value.tree[a.nodeId].parent == s.tree[a.nodeId].parent
      && r.value.tree[a.nodeId].children == s.tree[a.nodeId].children + [s.nextId]
      && r.value.tree[s.nextId] == Node("", Some(a.nodeId), [])
      && (forall k :: k in s.tree && k != a.nodeId && k != s.nextId ==> r.value.tree[k] == s.tree[k])
    ensures a.LoadState? ==> (r.Ok? <==> a.parsed.Some?)
    ensures a.LoadState? && r.Ok? ==> r.value == a.parsed.value
    ensures a.Unrecognised? ==> r == Ok(s)
  {
    match a
    case UpdateText(id, value) =>
      var t := TreeReducer(s.tree, TreeUpdateText(id, value));
      Ok(State(t.value, s.currentNode, s.nextId))
    case SetNode(target) =>
      Ok(State(s.tree, target, s.nextId))
    case PushChild(nodeId) =>
      (match TreeReducer(s.tree, TreePushChild(nodeId, s.nextId))
       case Ok(t) => Ok(State(t, s.currentNode, s.nextId + 1))
       case Err(e) => Err(e))
    case LoadState(parsed) =>
      if parsed.Some? then Ok(parsed.value) else Err(SyntaxError)
    case Unrecognised(_) =>
      Ok(s)
  }

  /** The guard `App` runs on every render: a focused node without children gets one
      through PUSH_CHILD. Destructuring a missing entry, or reading `length` of the
      absent `children` of a data-only record, throws. */
  function RenderGuard(s: State): (r: Result<State, Error>)
    ensures r.Ok? <==> s.currentNode in s.tree && s.tree[s.currentNode].Node?
    ensures r.Ok? && s.tree[s.currentNode].children != [] ==> r.value == s
  {
    if s.currentNode !in s.tree then Err(TypeError)
    else match s.tree[s.currentNode]
      case DataOnly(_) => Err(TypeError)
      case Node(_, _, children) =>
        if |children| == 0 then Reducer(s, PushChild(s.currentNode)) else Ok(s)
  }

  // ---------------------------------------------------------------------------
  // Invariant preservation

  /** UPDATE_TEXT keeps the tree consistent exactly when it names an existing node; on a
      missing id it leaves a data-only record behind. */
  lemma UpdateTextPreservesConsistent(s: State, id: Id, value: string)
    requires Consistent(s)
    ensures Reducer(s, UpdateText(id, value)).Ok?
    ensures Consistent(Reducer(s, UpdateText(id, value)).value) <==> id in s.tree
  {
    var t := Reducer(s, UpdateText(id, value)).value;
    if id in s.tree {
      assert forall k :: k in t.tree ==> k in s.tree && t.tree[k].Node? && t.tree[k].children == s.tree[k].children;
      assert forall k :: k in t.tree ==> t.tree[k].parent == s.tree[k].parent;
      forall p, c | Lists(t.tree, p, c) ensures HasParent(t.tree, c, p) {
        assert Lists(s.tree, p, c);
      }
      forall c, p | HasParent(t.tree, c, p) ensures Lists(t.tree, p, c) {
        assert HasParent(s.tree, c, p);
      }
    } else {
      assert t.tree[id].DataOnly?;
    }
  }

  /** SET_NODE keeps the tree consistent; the new focus is a key exactly when the target is. */
  lemma SetNodePreservesConsistent(s: State, target: Id)
    requires Consistent(s)
    ensures var r := Reducer(s, SetNode(target));
      r.Ok? && Consistent(r.value) && (Focused(r.value) <==> target in s.tree)
  {
  }

  /** PUSH_CHILD on an existing node allocates `nextId`, which was not a key; the node's
      children gain it at the end; the new entry is an empty childless node whose parent is
      that node; the tree stays consistent. */
  lemma PushChildPreservesConsistent(s: State, nodeId: Id)
    requires Consistent(s)
    requires nodeId in s.tree
    ensures Reducer(s, PushChild(nodeId)).Ok?
    ensures var t := Reducer(s, PushChild(nodeId)).value;
      && s.nextId !in s.tree
      && t.tree.Keys == s.tree.Keys + {s.nextId}
      && t.tree[nodeId].data == s.tree[nodeId].data
      && t.tree[nodeId].parent == s.tree[nodeId].parent
      && t.tree[nodeId].children == s.tree[nodeId].children + [s.nextId]
      && t.tree[s.nextId] == Node("", Some(nodeId), [])
      && (forall k :: k in s.tree && k != nodeId ==> t.tree[k] == s.tree[k])
      && t.currentNode == s.currentNode
      && t.nextId == s.nextId + 1
      && Consistent(t)
  {
    var n := s.nextId;
    assert nodeId != n;
    var t := Reducer(s, PushChild(nodeId)).value;
    forall k | k in t.tree
      ensures t.tree[k].Node? && k < t.nextId && Distinct(t.tree[k].children)
    {
      if k == nodeId {
        var cs := s.tree[nodeId].children;
        forall i | 0 <= i < |cs| ensures cs[i] != n {
          assert Lists(s.tree, nodeId, cs[i]);
        }
      }
    }
    forall p, c | Lists(t.tree, p, c) ensures HasParent(t.tree, c, p) {
      if p == nodeId && c == n {
      } else if p != n {
        assert Lists(s.tree, p, c);
      }
    }
    forall c, p | HasParent(t.tree, c, p) ensures Lists(t.tree, p, c) {
      if c != n {
        assert HasParent(s.tree, c, p);
      }
    }
  }

  // ---------------------------------------------------------------------------
  // The render guard

  /** When the focused node has no children, the guard gives it exactly one: the id that
      was `nextId`. */
  lemma GuardGivesOneChild(s: State)
    requires Consistent(s) && Focused(s)
    requires s.tree[s.currentNode].children == []
    ensures RenderGuard(s).Ok?
    ensures var t := RenderGuard(s).value;
      && t.tree[s.currentNode].children == [s.nextId]
      && t.currentNode == s.currentNode
      && Consistent(t)
  {
    PushChildPreservesConsistent(s, s.currentNode);
  }

  /** On a consistent state with a live focus, the guard succeeds, keeps the state
      consistent, leaves the focused node with at least one child, and a second render
      dispatches nothing. */
  lemma GuardSettles(s: State)
    requires Consistent(s) && Focused(s)
    ensures RenderGuard(s).Ok?
    ensures var t := RenderGuard(s).value;
      && Consistent(t)
      && Focused(t)
      && t.tree[t.currentNode].children != []
      && RenderGuard(t) == Ok(t)
  {
    if s.tree[s.currentNode].children == [] {
      GuardGivesOneChild(s);
    }
  }

  // ---------------------------------------------------------------------------
  // Runs of actions

  /** Dispatching a sequence of actions in order; the first exception stops the run. */
  function Run(s: State, acts: seq<Action>): Result<State, Error>
    decreases |acts|
  {
    if acts == [] then Ok(s)
    else match Reducer(s, acts[0])
      case Err(e) => Err(e)
      case Ok(next) => Run(next, acts[1..])
  }

  /** The number of PUSH_CHILD actions in a run. */
  function PushCount(acts: seq<Action>): nat
  {
    if acts == [] then 0
    else (if acts[0].PushChild? then 1 else 0) + PushCount(acts[1..])
  }

  /** The keys of `t` are those of `s` together with the ids from `s.nextId` up to, but
      not including, `t.nextId`. */
  ghost predicate KeysGrowBy(s: State, t: State)
  {
    forall k :: k in t.tree <==> k in s.tree || s.nextId <= k < t.nextId
  }

  /** The action names only ids that are keys of `s` (a SET_NODE target is unconstrained,
      and LOAD_STATE replaces the whole state). */
  ghost predicate AddressesLive(s: State, a: Action)
  {
    match a
    case UpdateText(id, _) => id in s.tree
    case SetNode(_) => true
    case PushChild(nodeId) => nodeId in s.tree
    case LoadState(_) => false
    case Unrecognised(_) => true
  }

  /** One consistent step: every action other than LOAD_STATE that is addressed to live
      ids succeeds, keeps the tree consistent, and keys only grow, by the allocated id on
      PUSH_CHILD. */
  lemma StepPreservesConsistent(s: State, a: Action)
    requires Consistent(s) && AddressesLive(s, a)
    ensures Reducer(s, a).Ok?
    ensures var t := Reducer(s, a).value;
      && Consistent(t)
      && t.nextId == s.nextId + (if a.PushChild? then 1 else 0)
      && KeysGrowBy(s, t)
  {
    match a
    case UpdateText(id, value) =>
      UpdateTextPreservesConsistent(s, id, value);
    case SetNode(_) =>
    case PushChild(nodeId) =>
      PushChildPreservesConsistent(s, nodeId);
    case Unrecognised(_) =>
  }

  /** PUSH_CHILD on the node whose id is the counter writes the new child over the node
      itself: the computed key `[nextId]` comes after `[nodeId]` in the object literal, so
      the node loses its data, parent and children and becomes its own empty child. A
      consistent state never has `nextId` as a key, so only a loaded state reaches this. */
  lemma PushChildOntoAllocatedId(s: State)
    requires s.nextId in s.tree && s.tree[s.nextId].Node?
    ensures Reducer(s, PushChild(s.nextId)).Ok?
    ensures var t := Reducer(s, PushChild(s.nextId)).value;
      && t.tree == s.tree[s.nextId := Node("", Some(s.nextId), [])]
      && t.tree.Keys == s.tree.Keys
      && t.nextId == s.nextId + 1
      && !Consistent(t)
    ensures !Consistent(s)
  {
    var t := Reducer(s, PushChild(s.nextId)).value;
    assert HasParent(t.tree, s.nextId, s.nextId);
  }

  /** LOAD_STATE installs whatever was parsed, so it can replace a consistent state with
      one that is not: here a tree holding a data-only entry at a key above `nextId`. */
  lemma LoadStateMayBreakConsistency()
    ensures var parsed := State(map[1 := DataOnly("")], 1, 0);
      && Consistent(InitialState())
      && Reducer(InitialState(), LoadState(Some(parsed))) == Ok(parsed)
      && !Consistent(parsed)
  {
    var parsed := State(map[1 := DataOnly("")], 1, 0);
    assert 1 in parsed.tree;
  }

  /** Every action of the run names only ids that are keys of the state it is applied
      to, which may be a node an earlier action of the same run created. */
  ghost predicate LiveRun(s: State, acts: seq<Action>)
    decreases |acts|
  {
    || acts == []
    || (&& AddressesLive(s, acts[0])
        && Reducer(s, acts[0]).Ok?
        && LiveRun(Reducer(s, acts[0]).value, acts[1..]))
  }

  /** A live run from a consistent state succeeds and ends consistent; it allocates
      exactly one id per PUSH_CHILD, and the ids it adds to the tree are exactly the
      consecutive ids from the old `nextId` on, so allocated ids increase strictly and
      never collide with a key that existed before. */
  lemma {:induction false} RunAllocatesFresh(s: State, acts: seq<Action>)
    requires Consistent(s)
    requires LiveRun(s, acts)
    ensures Run(s, acts).Ok?
    ensures var t := Run(s, acts).value;
      && Consistent(t)
      && t.nextId == s.nextId + PushCount(acts)
      && KeysGrowBy(s, t)
    decreases |acts|
  {
    if acts == [] {
    } else {
      StepPreservesConsistent(s, acts[0]);
      var next := Reducer(s, acts[0]).value;
      RunAllocatesFresh(next, acts[1..]);
    }
  }

  /** "add child" on node 2 of the starter tree, focusing the new node, and the render
      guard's PUSH_CHILD on it form a live run that allocates 6 and then 7. */
  lemma {:induction false} AddChildThenZoomIn()
    ensures var acts := [PushChild(2), SetNode(6), PushChild(6)];
      && LiveRun(InitialState(), acts)
      && Run(InitialState(), acts).Ok?
      && var t := Run(InitialState(), acts).value;
      && t.nextId == 8
      && t.currentNode == 6
      && t.tree[2].children == [3, 5, 6]
      && t.tree[6] == Node("", Some(2), [7])
      && t.tree[7] == Node("", Some(6), [])
  {
  }

  // ---------------------------------------------------------------------------
  // The module-level counter

  /** The module-level `currentId` counter behind `getNextId`. */
  class IdCounter {
    var currentId: Id

    constructor ()
      ensures currentId == 0
    {
      currentId := 0;
    }

    /** Increments the counter and returns its new value, so each call returns more than
        any earlier call. */
    method GetNextId() returns (id: Id)
      modifies this
      ensures currentId == old(currentId) + 1
      ensures id == currentId && id > old(currentId)
    {
      currentId := currentId + 1;
      id := currentId;
    }
  }
}
