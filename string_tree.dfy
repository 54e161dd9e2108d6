/** The string-id outline tree of `src/state.ts`: a map from generated string ids to nodes
    whose data is editor content, the focused node, the application reducer and the tree
    reducer that materialises a first child. Ids from the random generator are supplied
    as parameters, with the requirement that they are not already keys. */
module StringTree {
  import opened Results
  import opened Slate

  type Id = string

  /** A node's parent reference: `null` for the root, a node id, or a bare number (the
      starter child stores the literal `0`). */
  datatype Parent = Null | Ref(id: Id) | Number(n: int)

  datatype Node = Node(data: Option<SlateNode>, parent: Parent, children: seq<Id>)

  type Tree = map<Id, Node>

  datatype State = State(tree: Tree, currentNode: Id)

  /** Reading `children` of a missing entry throws. */
  datatype Error = TypeError

  /** The actions the reducer handles. `InitChildren` carries, besides the target node, the
      id the generator returns for the new child; `Unrecognised` stands for an action whose
      type is neither constant. */
  datatype Action =
    | SetNode(target: Id)
    | InitChildren(nodeId: Id, freshId: Id)
    | Unrecognised(tag: string)

  /** The precondition the generator's freshness gives every INIT_CHILDREN. */
  predicate FreshFor(t: Tree, a: Action)
  {
    a.InitChildren? ==> a.freshId !in t
  }

  // ---------------------------------------------------------------------------
  // The structural invariant

  ghost predicate Lists(t: Tree, p: Id, c: Id)
  {
    p in t && c in t[p].children
  }

  ghost predicate HasParent(t: Tree, c: Id, p: Id)
  {
    c in t && t[c].parent == Ref(p)
  }

  /** Every parent reference is `null` or a node id; a node lists a child exactly when
      that child names it as parent; no node lists a child twice. */
  ghost predicate Consistent(t: Tree)
  {
    && (forall k :: k in t ==> !t[k].parent.Number? && Distinct(t[k].children))
    && (forall p, c :: Lists(t, p, c) ==> HasParent(t, c, p))
    && (forall c, p :: HasParent(t, c, p) ==> Lists(t, p, c))
  }

  /** No node lists `c` as a child. */
  ghost predicate Unreferenced(t: Tree, c: Id)
  {
    forall p :: p in t ==> c !in t[p].children
  }

  // ---------------------------------------------------------------------------
  // Initial state

  /** The starter state as written: a root with no data and one paragraph child holding
      the starter text; the child's parent is the number 0. */
  function InitialState(rootId: Id, childId: Id): (s: State)
    requires rootId != childId
    ensures s.tree.Keys == {rootId, childId}
    ensures s.currentNode == rootId
    ensures s.tree[rootId].data == None && s.tree[rootId].parent == Null
    ensures s.tree[rootId].children == [childId]
    ensures s.tree[childId].data == Some(Element("paragraph", [Text("some starter text for ya")]))
    ensures s.tree[childId].children == []
    ensures s.tree[childId].parent == Number(0)
  {
    State(map[
      rootId := Node(None, Null, [childId]),
      childId := Node(Some(Element("paragraph", [Text("some starter text for ya")])), Number(0), [])
    ], rootId)
  }

  /** The starter state as written is not consistent: the root lists the child, but the
      child does not name the root as parent. */
  lemma {:induction false} InitialStateUnlinked(rootId: Id, childId: Id)
    requires rootId != childId
    ensures Lists(InitialState(rootId, childId).tree, rootId, childId)
    ensures !HasParent(InitialState(rootId, childId).tree, childId, rootId)
    ensures !Consistent(InitialState(rootId, childId).tree)
  {
    var t := InitialState(rootId, childId).tree;
    assert Lists(t, rootId, childId);
  }

  /** The starter state with the child's parent set to the root id. */
  function InitialStateLinked(rootId: Id, childId: Id): (s: State)
    requires rootId != childId
    ensures Consistent(s.tree)
    ensures s.tree.Keys == {rootId, childId} && s.currentNode == rootId
    ensures s.tree[rootId].parent == Null && s.tree[rootId].children == [childId]
    ensures HasParent(s.tree, childId, rootId) && s.tree[childId].children == []
  {
    var s := InitialState(rootId, childId);
    var t := s.tree[childId := s.tree[childId].(parent := Ref(rootId))];
    assert forall p, c :: Lists(t, p, c) ==> p == rootId && c == childId;
    State(t, rootId)
  }

  // ---------------------------------------------------------------------------
  // Reducers

  /** The tree reducer: INIT_CHILDREN replaces the node's children with the one fresh id
      and stores there a node holding an empty paragraph whose parent is that node; any
      other action leaves the tree alone. */
  function TreeReducer(tree: Tree, a: Action): (r: Result<Tree, Error>)
    requires FreshFor(tree, a)
    ensures a.InitChildren? ==> (r.Ok? <==> a.nodeId in tree)
    ensures a.InitChildren? && r.Ok? ==>
      && r.value.Keys == tree.Keys + {a.freshId}
      && |r.value| == |tree| + 1
      && r.value[a.nodeId].children == [a.freshId]
      && r.value[a.nodeId].data == tree[a.nodeId].data
      && r.value[a.nodeId].parent == tree[a.nodeId].parent
      && r.value[a.freshId] == Node(Some(EmptyParagraph()), Ref(a.nodeId), [])
      && (forall k :: k in tree && k != a.nodeId ==> r.value[k] == tree[k])
    ensures !a.InitChildren? ==> r == Ok(tree)
  {
    match a
    case InitChildren(nodeId, id) =>
      if nodeId in tree then
        var withChild := tree[nodeId := tree[nodeId].(children := [id])];
        Ok(withChild[id := Node(Some(EmptyParagraph()), Ref(nodeId), [])])
      else
        Err(TypeError)
    case _ =>
      Ok(tree)
  }

  /** The application reducer. */
  function Reducer(s: State, a: Action): (r: Result<State, Error>)
    requires FreshFor(s.tree, a)
    ensures a.SetNode? ==> r.Ok? && r.value.currentNode == a.target && r.value.tree == s.tree
    ensures a.InitChildren? ==> (r.Ok? <==> a.nodeId in s.tree)
    ensures a.InitChildren? && r.Ok? ==>
      && r.value.currentNode == s.currentNode
      && r.value.tree == TreeReducer(s.tree, a).value
      && r.value.tree.Keys == s.tree.Keys + {a.freshId}
      && r.value.tree[a.nodeId].children == [a.freshId]
      && r.value.tree[a.freshId] == Node(Some(EmptyParagraph()), Ref(a.nodeId), [])
      && (forall k :: k in s.tree && k != a.nodeId ==> r.value.tree[k] == s.tree[k])
    ensures a.Unrecognised? ==> r == Ok(s)
  {
    match a
    case SetNode(target) =>
      Ok(State(s.tree, target))
    case InitChildren(_, _) =>
      (match TreeReducer(s.tree, a)
       case Ok(t) => Ok(State(t, s.currentNode))
       case Err(e) => Err(e))
    case Unrecognised(_) =>
      Ok(s)
  }

  // ---------------------------------------------------------------------------
  // Properties of INIT_CHILDREN

  /** INIT_CHILDREN on a childless node keeps the tree consistent. */
  lemma InitChildrenPreservesConsistent(s: State, nodeId: Id, freshId: Id)
    requires Consistent(s.tree)
    requires nodeId in s.tree && s.tree[nodeId].children == []
    requires freshId !in s.tree
    ensures Reducer(s, InitChildren(nodeId, freshId)).Ok?
    ensures Consistent(Reducer(s, InitChildren(nodeId, freshId)).value.tree)
  {
    var t := Reducer(s, InitChildren(nodeId, freshId)).value.tree;
    forall p, c | Lists(t, p, c) ensures HasParent(t, c, p) {
      if p != nodeId {
        assert Lists(s.tree, p, c);
      }
    }
    forall c, p | HasParent(t, c, p) ensures Lists(t, p, c) {
      if c != freshId {
        assert HasParent(s.tree, c, p);
        assert Lists(s.tree, p, c);
      }
    }
  }

  /** INIT_CHILDREN is not guarded: on a node that already has children, each old child
      stays in the map and still names the node as parent, but the node no longer lists
      it, so the tree is no longer consistent. */
  lemma {:induction false} InitChildrenOrphans(s: State, nodeId: Id, freshId: Id, c: Id)
    requires nodeId in s.tree && c in s.tree[nodeId].children
    requires HasParent(s.tree, c, nodeId)
    requires freshId !in s.tree
    ensures Reducer(s, InitChildren(nodeId, freshId)).Ok?
    ensures var t := Reducer(s, InitChildren(nodeId, freshId)).value.tree;
      HasParent(t, c, nodeId) && !Lists(t, nodeId, c) && !Consistent(t)
  {
    var t := Reducer(s, InitChildren(nodeId, freshId)).value.tree;
    assert c != freshId;
    assert HasParent(t, c, nodeId);
  }

  /** Applying INIT_CHILDREN twice to the same node leaves it with exactly one child, the
      second fresh id; the first synthesised child stays in the map, referenced by no node,
      and the map has grown by two keys. The tree need not be consistent: it is enough
      that no node already lists the first fresh id. */
  lemma InitChildrenTwice(s: State, nodeId: Id, first: Id, second: Id)
    requires nodeId in s.tree
    requires first !in s.tree && second !in s.tree && first != second
    requires Unreferenced(s.tree, first)
    ensures Reducer(s, InitChildren(nodeId, first)).Ok?
    ensures var s1 := Reducer(s, InitChildren(nodeId, first)).value;
      && FreshFor(s1.tree, InitChildren(nodeId, second))
      && Reducer(s1, InitChildren(nodeId, second)).Ok?
      && var s2 := Reducer(s1, InitChildren(nodeId, second)).value;
      && s2.tree[nodeId].children == [second]
      && first in s2.tree
      && Unreferenced(s2.tree, first)
      && s2.tree.Keys == s.tree.Keys + {first, second}
  {
  }

  /** The starter state as written, with its numeric parent, reaches the same outcome:
      INIT_CHILDREN twice on the root leaves the second fresh id as its only child and the
      first one in the map with no node listing it. */
  lemma InitChildrenTwiceOnStarter(rootId: Id, childId: Id, first: Id, second: Id)
    requires rootId != childId
    requires first !in {rootId, childId} && second !in {rootId, childId} && first != second
    ensures var s := InitialState(rootId, childId);
      && Reducer(s, InitChildren(rootId, first)).Ok?
      && var s1 := Reducer(s, InitChildren(rootId, first)).value;
      && Reducer(s1, InitChildren(rootId, second)).Ok?
      && var s2 := Reducer(s1, InitChildren(rootId, second)).value;
      && s2.tree[rootId].children == [second]
      && first in s2.tree
      && Unreferenced(s2.tree, first)
  {
    InitChildrenTwice(InitialState(rootId, childId), rootId, first, second);
  }
}
