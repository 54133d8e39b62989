/**
 * The generic tree node: an ordered tree in which every node owns its
 * list of children, keeps a back-reference to its parent, carries an open
 * string-keyed data map and a session-unique identifier.
 *
 * Nodes are heap objects whose fields the operations update in place. The
 * facts that hold across all nodes of a session (every child's parent is
 * its owner, no parent chain is a cycle) are stated over a ghost `Forest`:
 * the set of nodes in play and a rank that strictly grows along parent
 * pointers.
 */
module Tree {
  import opened Wrappers
  import opened Values
  import opened Positions
  import Ids

  type NodeId = Ids.Id

  /** A search callback `cb(n)`; it sees the node's identifier and its data. */
  type Filter = (NodeId, map<string, Value>) -> bool

  /** The callback that matches every node (the default of `iterate_nodes`). */
  const MatchAll: Filter := (i: NodeId, d: map<string, Value>) => true

  /** The exceptions the node's operations raise. */
  datatype Error = TypeError | RuntimeError | AttributeError | ValueError

  /** Names that `__setattr__` sends to the object itself rather than to the data map. */
  predicate Reserved(name: string) {
    (|name| > 0 && name[0] == '_') || name == "id"
  }

  /** The callback `lambda n: n.id == node_id` of `get_node`. */
  function HasId(nodeId: NodeId): Filter {
    (i: NodeId, d: map<string, Value>) => i == nodeId
  }

  /** The nullable reference as a (possibly empty) set, for frames. */
  function Opt(n: Node?): set<Node> {
    if n == null then {} else {n}
  }

  /**
   * The nodes of a session and a rank on them. `Valid` says that every
   * child lists its owner as parent, that no child is listed twice, and
   * that a parent always has a strictly larger rank than its child, so
   * that following parents always ends at a root.
   */
  datatype Forest = Forest(nodes: set<Node>, rank: map<Node, nat>) {

    ghost predicate Valid()
      reads nodes`parent, nodes`children
    {
      && nodes <= rank.Keys
      && forall p {:trigger Linked(p)} :: p in nodes ==> Linked(p)
    }

    ghost predicate Linked(p: Node)
      reads p`parent, p`children, nodes`parent
    {
      && p in rank
      && (p.parent != null ==> p.parent in nodes && p.parent in rank && rank[p] < rank[p.parent])
      && (forall i :: 0 <= i < |p.children| ==> p.children[i] in nodes && p.children[i].parent == p)
      && Distinct(p.children)
    }

    /** The forest with one more node, ranked lowest. */
    function Admit(n: Node): (g: Forest)
      ensures g.nodes == nodes + {n}
    {
      Forest(nodes + {n}, rank[n := 0])
    }
  }

  /** A node that is neither attached nor has children joins a forest as it is. */
  lemma AdmitStandalone(F: Forest, n: Node)
    requires F.Valid() && n !in F.nodes
    requires n.parent == null && n.children == []
    ensures F.Admit(n).Valid()
  {
    var G := F.Admit(n);
    forall p | p in G.nodes ensures G.Linked(p) {
      if p != n {
        assert F.Linked(p);
      }
    }
  }

  /** Two forests side by side, each node keeping its rank. */
  function Join(A: Forest, B: Forest): (U: Forest)
    requires A.nodes <= A.rank.Keys && B.nodes <= B.rank.Keys
    ensures U.nodes == A.nodes + B.nodes
    ensures forall x :: x in A.nodes ==> x in U.rank && U.rank[x] == A.rank[x]
    ensures forall x :: x in B.nodes && x !in A.nodes ==> x in U.rank && U.rank[x] == B.rank[x]
  {
    Forest(A.nodes + B.nodes, map x | x in A.nodes + B.nodes :: if x in A.nodes then A.rank[x] else B.rank[x])
  }

  /** Two valid forests with no node in common are valid side by side. */
  lemma JoinValid(A: Forest, B: Forest)
    requires A.Valid() && B.Valid() && A.nodes !! B.nodes
    ensures Join(A, B).Valid()
  {
    var U := Join(A, B);
    forall p | p in U.nodes ensures U.Linked(p) {
      if p in A.nodes {
        assert A.Linked(p);
      } else {
        assert B.Linked(p);
      }
    }
  }

  /** The nodes ranked above p; a parent chain shrinks it at every step. */
  ghost function Above(F: Forest, p: Node): set<Node>
    requires F.nodes <= F.rank.Keys && p in F.rank
  {
    set x | x in F.nodes && F.rank[x] > F.rank[p]
  }

  /**
   * The parent chain of p: p itself, its parent, its parent's parent, ...
   * up to the root, the one node of the chain without a parent.
   */
  ghost function Ancestry(F: Forest, p: Node): (s: seq<Node>)
    requires F.Valid() && p in F.nodes
    reads F.nodes
    decreases Above(F, p)
    ensures |s| > 0 && s[0] == p
    ensures forall i :: 0 <= i < |s| ==> s[i] in F.nodes
    ensures forall i :: 0 <= i < |s| - 1 ==> s[i].parent == s[i + 1]
    ensures s[|s| - 1].parent == null
  {
    assert F.Linked(p);
    if p.parent == null then [p]
    else
      assert p.parent in Above(F, p) && p.parent !in Above(F, p.parent);
      [p] + Ancestry(F, p.parent)
  }

  /** The root reached by walking parents up from p. */
  ghost function RootOf(F: Forest, p: Node): (r: Node)
    requires F.Valid() && p in F.nodes
    reads F.nodes
  {
    var s := Ancestry(F, p);
    s[|s| - 1]
  }

  /** The members of p's parent chain. */
  ghost function ChainSet(F: Forest, p: Node): set<Node>
    requires F.Valid() && p in F.nodes
    reads F.nodes
  {
    set a | a in Ancestry(F, p)
  }

  /** A parentless node is its own root and its whole parent chain. */
  lemma RootAlone(F: Forest, p: Node)
    requires F.Valid() && p in F.nodes && p.parent == null
    ensures Ancestry(F, p) == [p] && RootOf(F, p) == p && ChainSet(F, p) == {p}
  {
  }

  /** The only node of a parent chain that has no parent is its root. */
  lemma {:induction false} ParentlessAncestorIsRoot(F: Forest, p: Node, a: Node)
    requires F.Valid() && p in F.nodes
    requires a in Ancestry(F, p) && a.parent == null
    ensures a == RootOf(F, p)
  {
    var s := Ancestry(F, p);
    var i :| 0 <= i < |s| && s[i] == a;
    forall j | 0 <= j < |s| - 1 ensures s[j].parent != null {
      assert s[j].parent == s[j + 1];
    }
    assert i == |s| - 1;
  }

  /** A parent chain contains the parent of each of its members. */
  lemma {:induction false} AncestryClosed(F: Forest, p: Node, a: Node)
    requires F.Valid() && p in F.nodes
    requires a in Ancestry(F, p) && a.parent != null
    ensures a.parent in Ancestry(F, p)
  {
    var s := Ancestry(F, p);
    var i :| 0 <= i < |s| && s[i] == a;
    assert i < |s| - 1 && s[i + 1] == a.parent;
  }

  /** The forest with the ranks of `raised` increased by `lift`. */
  function Lift(F: Forest, raised: set<Node>, lift: nat): (G: Forest)
    ensures G.nodes == F.nodes && G.rank.Keys == F.rank.Keys
    ensures forall x :: x in F.rank ==> G.rank[x] == if x in raised then F.rank[x] + lift else F.rank[x]
  {
    Forest(F.nodes, map x | x in F.rank :: if x in raised then F.rank[x] + lift else F.rank[x])
  }

  class Node {
    const id: NodeId
    var data: map<string, Value>
    var parent: Node?
    var children: seq<Node>

    /**
     * `GenericTreeNode(**kwargs)`: a fresh identifier, no parent, no
     * children, and every keyword argument stored as data.
     */
    constructor (src: Ids.IdSource, kwargs: map<string, Value>)
      modifies src
      ensures id == old(src.next) && src.next == old(src.next) + 1
      ensures parent == null && children == []
      ensures forall k :: k in data <==> k in kwargs && !Reserved(k)
      ensures forall k :: k in data ==> data[k] == kwargs[k]
    {
      var issued := src.Fresh();
      var stored: map<string, Value> := map[];
      var pending := kwargs.Keys;
      while pending != {}
        invariant pending <= kwargs.Keys
        invariant forall k :: k in stored <==> k in kwargs && k !in pending && !Reserved(k)
        invariant forall k :: k in stored ==> stored[k] == kwargs[k]
        decreases pending
      {
        var k :| k in pending;
        if !Reserved(k) {
          stored := stored[k := kwargs[k]];
        }
        pending := pending - {k};
      }
      id := issued;
      data := stored;
      parent := null;
      children := [];
    }

    // ----- the data map -----

    /** `has_data(name)`: exactly when `__getattr__(name)` does not raise. */
    function HasData(name: string): (r: bool)
      reads this
      ensures r <==> GetAttr(name).Success?
    {
      name in data
    }

    /** `__getattr__(name)`: the value stored under name, or AttributeError when none is. */
    function GetAttr(name: string): (r: Result<Value, Error>)
      reads this
      ensures r.Success? ==> name in data && r.value == data[name]
      ensures r.Failure? ==> name !in data && r.error == AttributeError
    {
      if name in data then Success(data[name]) else Failure(AttributeError)
    }

    /**
     * `get_data()`: the whole data map; it holds exactly the names that
     * `__getattr__` answers for, with the values it gives.
     */
    function GetData(): (r: map<string, Value>)
      reads this
      ensures forall name :: name in r <==> HasData(name)
      ensures forall name :: name in r ==> GetAttr(name) == Success(r[name])
    {
      data
    }

    /**
     * `node.name = value`. A name that is not reserved is stored in the
     * data map and reads back. `id` is a read-only property, so assigning
     * it raises AttributeError. Assigning `_data` a dict makes that dict
     * the data map. Any other reserved name becomes an attribute of the
     * object itself, which leaves the data map alone.
     */
    method SetAttr(name: string, value: Value) returns (err: Option<Error>)
      modifies this`data
      ensures name == "id" ==> err == Some(AttributeError) && data == old(data)
      ensures name == "_data" && value.Dict? ==> err == None && data == value.entries
      ensures !Reserved(name) ==> err == None && data == old(data)[name := value]
      ensures !Reserved(name) ==> GetAttr(name) == Success(value)
      ensures Reserved(name) && name != "id" && !(name == "_data" && value.Dict?) ==> err == None && data == old(data)
    {
      if name == "id" {
        return Some(AttributeError);
      }
      if !Reserved(name) {
        data := data[name := value];
      } else if name == "_data" && value.Dict? {
        data := value.entries;
      }
      return None;
    }

    /**
     * `set_data(value)`: a truthy dict becomes the whole map, any falsy
     * value empties it, any other value raises TypeError and changes nothing.
     */
    method SetData(value: Value) returns (err: Option<Error>)
      modifies this`data
      ensures !Truthy(value) ==> err == None && data == map[]
      ensures Truthy(value) && value.Dict? ==> err == None && data == value.entries
      ensures Truthy(value) && !value.Dict? ==> err == Some(TypeError) && data == old(data)
    {
      if Truthy(value) {
        if value.Dict? {
          data := value.entries;
          err := None;
        } else {
          err := Some(TypeError);
        }
      } else {
        ClearData();
        err := None;
      }
    }

    /** `clear_data()`: the map becomes empty; nothing structural changes. */
    method ClearData()
      modifies this`data
      ensures data == map[]
    {
      data := map[];
    }

    // ----- adding -----

    /**
     * The exception `add_node(node)` raises, as `_validate_node_add`
     * decides it, or None when the node may be added.
     */
    ghost function AddRejection(F: Forest, node: Node?): (r: Option<Error>)
      requires F.Valid() && this in F.nodes && (node != null ==> node in F.nodes)
      reads F.nodes
      ensures r == Some(TypeError) <==> node == null
      ensures r.Some? ==> r == Some(TypeError) || r == Some(RuntimeError)
      ensures r.None? ==> node != null && node != this && node.parent == null && node !in children
    {
      if node == null then Some(TypeError)
      else if node == this then Some(RuntimeError)
      else if node.parent != null || node in children then Some(RuntimeError)
      else if node == RootOf(F, this) then Some(RuntimeError)
      else None
    }

    /** `_validate_node_add(node)`: walks up to the root of this node's tree. */
    method ValidateAdd(ghost F: Forest, node: Node?) returns (err: Option<Error>)
      requires F.Valid() && this in F.nodes && (node != null ==> node in F.nodes)
      ensures err == AddRejection(F, node)
    {
      if node == null {
        return Some(TypeError);
      }
      if node == this {
        return Some(RuntimeError);
      }
      if node.parent != null || node in children {
        return Some(RuntimeError);
      }
      var top := this;
      while top.parent != null
        invariant top in F.nodes
        invariant RootOf(F, top) == RootOf(F, this)
        decreases |Ancestry(F, top)|
      {
        top := top.parent;
      }
      if top == node {
        return Some(RuntimeError);
      }
      return None;
    }

    /** A node that may be added is a root off this node's parent chain, so adding it closes no cycle. */
    lemma AcceptedIsOffChain(F: Forest, node: Node?)
      requires F.Valid() && this in F.nodes && (node != null ==> node in F.nodes)
      requires AddRejection(F, node) == None
      ensures node != null && node.parent == null && node !in children
      ensures node !in Ancestry(F, this)
    {
      if node in Ancestry(F, this) {
        ParentlessAncestorIsRoot(F, this, node);
      }
    }

    /** Adding any node of this node's parent chain, this node included, raises RuntimeError. */
    lemma AncestorRejected(F: Forest, node: Node)
      requires F.Valid() && this in F.nodes && node in F.nodes
      requires node in Ancestry(F, this)
      ensures AddRejection(F, node) == Some(RuntimeError)
    {
      if node != this && node.parent == null {
        ParentlessAncestorIsRoot(F, this, node);
      }
    }

    /**
     * A node that still names a parent, such as the one `remove_at` pops,
     * is refused by every `add_node` with RuntimeError.
     */
    lemma ParentedRejected(F: Forest, node: Node)
      requires F.Valid() && this in F.nodes && node in F.nodes
      requires node.parent != null
      ensures AddRejection(F, node) == Some(RuntimeError)
    {
    }

    /**
     * The two assignments that end `add_node`: `node` goes into the
     * children at index `at` and this node becomes its parent. The forest
     * stays valid once every node of a parent-closed `chain` holding this
     * node is ranked above `node`.
     */
    method Attach(ghost F: Forest, node: Node, at: nat, ghost chain: set<Node>) returns (ghost G: Forest)
      requires F.Valid() && this in F.nodes && node in F.nodes
      requires this in chain && node !in chain
      requires forall a :: a in chain ==> a in F.nodes && (a.parent != null ==> a.parent in chain)
      requires node.parent == null && at <= |children| && node !in children
      modifies this`children, node`parent
      ensures G == Lift(F, chain, F.rank[node] + 1) && G.Valid()
      ensures children == Insert(old(children), at, node) && node.parent == this
    {
      assert F.Linked(this);
      G := Lift(F, chain, F.rank[node] + 1);
      ghost var before := children;
      InsertDistinct(before, at, node);
      children := Insert(children, at, node);
      node.parent := this;
      forall q | q in G.nodes ensures G.Linked(q) {
        assert old(F.Linked(q));
        if q == this {
          forall k | 0 <= k < |children| ensures children[k] in G.nodes && children[k].parent == this {
            if k != at {
              var c := if k < at then before[k] else before[k - 1];
              assert c in before && children[k] == c;
            }
          }
        } else {
          forall k | 0 <= k < |q.children| ensures q.children[k].parent == q {
            assert q.children[k] != node;
          }
        }
      }
    }

    /**
     * `add_node(node, position)`: validates, then inserts at the resolved
     * index and makes this node the parent. Returns this node, or the
     * exception with nothing changed. The ranks of this node's parent
     * chain are raised above the added node's, and no other rank changes.
     */
    method AddNode(ghost F: Forest, node: Node?, position: int := -1) returns (r: Result<Node, Error>, ghost G: Forest)
      requires F.Valid() && this in F.nodes && (node != null ==> node in F.nodes)
      modifies this`children, Opt(node)`parent
      ensures G.Valid() && G.nodes == F.nodes
      ensures r.Failure? <==> old(AddRejection(F, node)).Some?
      ensures r.Failure? ==> Some(r.error) == old(AddRejection(F, node)) && G == F
      ensures r.Failure? ==> children == old(children) && (node != null ==> node.parent == old(node.parent))
      ensures r.Success? ==> r.value == this && node != null && node.parent == this
      ensures r.Success? ==> children == Insert(old(children), InsertionIndex(|old(children)|, position), node)
      ensures r.Success? && -(|old(children)| + 1) <= position <= |old(children)| ==> NodeAt(position) == node
      ensures forall x :: x in F.nodes && x !in old(ChainSet(F, this)) ==> G.rank[x] == F.rank[x]
    {
      var err := ValidateAdd(F, node);
      if err.Some? {
        return Failure(err.value), F;
      }
      AcceptedIsOffChain(F, node);
      ghost var raised := ChainSet(F, this);
      forall a | a in raised && a.parent != null ensures a.parent in raised {
        AncestryClosed(F, this, a);
      }
      var len := |children|;
      var p := position;
      if p < 0 {
        p := len + 1 + p;
      }
      if p < 0 {
        p := 0;
      }
      // list.insert appends when the index is past the end
      var at := if p > len then len else p;
      G := Attach(F, node, at, raised);
      if -(len + 1) <= position <= len {
        InsertThenResolve(len, position);
      }
      r := Success(this);
    }

    /**
     * `node_at(position)`: the child at that index, negative positions
     * counting from the back; None, not an exception, outside the list.
     */
    function NodeAt(position: int := 0): (r: Node?)
      reads this
      ensures 0 <= position < |children| ==> r == children[position]
      ensures -|children| <= position < 0 ==> r == children[|children| + position]
      ensures position >= |children| || position < -|children| ==> r == null
    {
      match ResolveIndex(|children|, position)
      case None => null
      case Some(i) => children[i]
    }

    /** `node_index(node)`: the node's index among the children, or ValueError. */
    function NodeIndex(node: Node?): (r: Result<nat, Error>)
      reads this
      ensures r.Success? <==> node != null && node in children
      ensures r.Success? ==> r.value < |children| && NodeAt(r.value) == node
      ensures r.Success? ==> node !in children[..r.value]
      ensures r.Failure? ==> r.error == ValueError
    {
      match FirstIndex(children, node)
      case None => Failure(ValueError)
      case Some(i) => Success(i)
    }

    // ----- traversal and search -----

    /** The node itself when `cb` accepts it, or nothing. */
    function Match(cb: Filter): (r: seq<Node>)
      reads this
      ensures r == [this] || r == []
      ensures this in r <==> cb(id, data)
    {
      if cb(id, data) then [this] else []
    }

    /**
     * `find_nodes(cb, descend)`, the list of what `iterate_nodes` yields:
     * every child in order, preceded by nothing and followed, when
     * `descend` is set and it has children of its own, by what the same
     * search yields below it. The node itself is never yielded: everything
     * found is ranked strictly below it.
     */
    function FindNodes(ghost F: Forest, cb: Filter, descend: bool := false): (r: seq<Node>)
      requires F.Valid() && this in F.nodes
      reads F.nodes
      decreases F.rank[this], 1
      ensures forall x :: x in r ==> x in F.nodes && F.rank[x] < F.rank[this]
    {
      Sweep(F, 0, cb, descend)
    }

    /** The part of `iterate_nodes` that handles the children from index `from` on. */
    function Sweep(ghost F: Forest, from: nat, cb: Filter, descend: bool): (r: seq<Node>)
      requires F.Valid() && this in F.nodes && from <= |children|
      reads F.nodes
      decreases F.rank[this], 0, |children| - from
      ensures forall x :: x in r ==> x in F.nodes && F.rank[x] < F.rank[this]
    {
      if from == |children| then []
      else
        assert F.Linked(this) && F.Linked(children[from]);
        var n := children[from];
        n.Match(cb) + (if descend && |n.children| > 0 then n.FindNodes(F, cb, descend) else [])
          + Sweep(F, from + 1, cb, descend)
    }

    /**
     * `has_node(cb, descend)`: whether the search yields anything, that
     * is, whether some node in scope is accepted by the callback.
     */
    function HasNode(ghost F: Forest, cb: Filter, descend: bool := false): (r: bool)
      requires F.Valid() && this in F.nodes
      reads F.nodes
      ensures r <==> exists x :: x in F.nodes && InScope(F, this, descend, x) && cb(x.id, x.data)
    {
      var found := FindNodes(F, cb, descend);
      if found == [] then
        assert forall x :: x in F.nodes && InScope(F, this, descend, x) ==> !cb(x.id, x.data) by {
          forall x | x in F.nodes && InScope(F, this, descend, x) ensures !cb(x.id, x.data) {
            FindNodesMembers(F, this, cb, descend, x);
          }
        }
        false
      else
        FindNodesMembers(F, this, cb, descend, found[0]);
        true
    }

    /**
     * `get_node(node_id, descend)`: the first node of the walk's order
     * with that identifier, or None when no node in scope has it.
     */
    function GetNode(ghost F: Forest, nodeId: NodeId, descend: bool := false): (r: Node?)
      requires F.Valid() && this in F.nodes
      reads F.nodes
      ensures r == null <==> forall x :: x in F.nodes && InScope(F, this, descend, x) ==> x.id != nodeId
      ensures r != null ==> InScope(F, this, descend, r) && r.id == nodeId
      ensures r != null ==> exists k :: (0 <= k < |FindNodes(F, MatchAll, descend)|
        && FindNodes(F, MatchAll, descend)[k] == r
        && forall j :: 0 <= j < k ==> FindNodes(F, MatchAll, descend)[j].id != nodeId)
    {
      var found := FindNodes(F, HasId(nodeId), descend);
      if found == [] then
        assert forall x :: x in F.nodes && InScope(F, this, descend, x) ==> x.id != nodeId by {
          forall x | x in F.nodes && InScope(F, this, descend, x) ensures x.id != nodeId {
            FindNodesMembers(F, this, HasId(nodeId), descend, x);
          }
        }
        null
      else
        FindNodesMembers(F, this, HasId(nodeId), descend, found[0]);
        FindIsSelect(F, this, HasId(nodeId), descend);
        SelectFirst(FindNodes(F, MatchAll, descend), HasId(nodeId));
        found[0]
    }

    // ----- removing -----

    /**
     * `remove_at(position)`: pops and returns the child `node_at` would
     * give; out of range returns None and changes nothing. The popped
     * child keeps this node as its parent.
     */
    method RemoveAt(ghost F: Forest, position: int := -1) returns (r: Node?)
      requires F.Valid() && this in F.nodes
      modifies this`children
      ensures F.Valid()
      ensures r == old(NodeAt(position))
      ensures r == null ==> children == old(children)
      ensures r != null ==> children == Delete(old(children), ResolveIndex(|old(children)|, position).value)
      ensures r != null ==> r !in children && r.parent == this
    {
      var p := position;
      if p < 0 {
        p := |children| + p;
      }
      if p < 0 || p >= |children| {
        return null;
      }
      assert F.Linked(this);
      r := children[p];
      DeleteDistinct(children, p);
      children := Delete(children, p);
      forall q | q in F.nodes ensures F.Linked(q) {
        assert old(F.Linked(q));
      }
    }

    /**
     * `remove_node(node)`: when node is one of the children it leaves the
     * list and loses its parent; otherwise nothing happens. Returns this node.
     */
    method RemoveNode(ghost F: Forest, node: Node?) returns (r: Node)
      requires F.Valid() && this in F.nodes
      modifies this`children, Opt(node)`parent
      ensures r == this && F.Valid()
      ensures node != null && node in old(children) ==>
        && node.parent == null && node !in children
        && children == Delete(old(children), FirstIndex(old(children), node).value)
      ensures node == null || node !in old(children) ==>
        children == old(children) && (node != null ==> node.parent == old(node.parent))
    {
      r := this;
      if node != null && node in children {
        assert F.Linked(this);
        var i := FirstIndex(children, node).value;
        DeleteDistinct(children, i);
        children := Delete(children, i);
        node.parent := null;
        forall q | q in F.nodes ensures F.Linked(q) {
          assert old(F.Linked(q));
          forall k | 0 <= k < |q.children| ensures q.children[k].parent == q {
          }
        }
      }
    }

    /**
     * `detach()`: asks the parent to remove this node. Does nothing when
     * there is no parent, or when the parent no longer lists this node
     * (after `remove_at`). Returns this node.
     */
    method Detach(ghost F: Forest) returns (r: Node)
      requires F.Valid() && this in F.nodes
      modifies this`parent, Opt(parent)`children
      ensures r == this && F.Valid()
      ensures old(parent) != null && this in old(parent.children) ==>
        && parent == null && this !in old(parent).children
        && old(parent).children == Delete(old(parent.children), FirstIndex(old(parent.children), this).value)
      ensures old(parent) == null || this !in old(parent.children) ==>
        parent == old(parent) && (old(parent) != null ==> old(parent).children == old(parent.children))
    {
      r := this;
      if parent != null {
        assert F.Linked(this);
        var _ := parent.RemoveNode(F, this);
      }
    }

    /**
     * `remove_node_by_id(node_id, descend)`: detaches and returns the node
     * `get_node` finds, which leaves the list of the parent that held it;
     * returns None and changes nothing when no node in scope has the id.
     */
    method RemoveNodeById(ghost F: Forest, nodeId: NodeId, descend: bool := false) returns (r: Node?)
      requires F.Valid() && this in F.nodes
      modifies F.nodes`parent, F.nodes`children
      ensures F.Valid()
      ensures r == old(GetNode(F, nodeId, descend))
      ensures r == null ==> forall x :: x in F.nodes ==> x.parent == old(x.parent) && x.children == old(x.children)
      ensures r != null ==> old(r.parent) != null && r in old(r.parent.children)
      ensures r != null ==> r.parent == null && r !in old(r.parent).children
      ensures r != null ==> old(r.parent).children == Delete(old(r.parent.children), FirstIndex(old(r.parent.children), r).value)
      ensures r != null ==> forall x :: x in F.nodes && x != r ==> x.parent == old(x.parent)
      ensures r != null ==> forall x :: x in F.nodes && x != old(r.parent) ==> x.children == old(x.children)
    {
      r := GetNode(F, nodeId, descend);
      if r != null {
        ScopeIsListed(F, this, descend, r);
        var _ := r.Detach(F);
      }
    }

    /**
     * `clone()`: a new parentless node with a fresh identifier and equal
     * data, whose children are clones of this node's children, added one
     * by one in order. The nodes that existed before are not changed. The
     * returned map sends every new node to the node it copies; the new
     * nodes make up a forest of their own.
     */
    method Clone(ghost F: Forest, src: Ids.IdSource) returns (r: Node, ghost G: Forest, ghost f: map<Node, Node>)
      requires F.Valid() && this in F.nodes
      requires forall x :: x in F.nodes ==> x.id < src.next
      modifies src
      decreases F.rank[this], 1
      ensures fresh(r) && r in f && f[r] == this && Mirror(f, r)
      ensures forall y :: y in f ==> f[y] in F.nodes && y !in F.nodes
      ensures G.Valid() && G.nodes == f.Keys
      ensures Issued(f, old(src.next), src.next)
    {
      r, G, f := CopyTop(src);
      var i := 0;
      while i < |children|
        invariant 0 <= i <= |children|
        invariant r != this && unchanged(F.nodes)
        invariant G.Valid() && G.nodes == f.Keys
        invariant r in f && f[r] == this && r.parent == null && r.data == data && r !in F.nodes
        invariant ListCopied(f, r.children, children[..i])
        invariant CopiesBelow(f, r)
        invariant forall y :: y in f ==> f[y] in F.nodes
        invariant old(src.next) <= src.next && Issued(f, old(src.next), src.next)
      {
        G, f := CopyChild(F, r, G, f, i, old(src.next), src);
        i := i + 1;
      }
      assert children[..i] == children;
    }

    /**
     * The first steps of `clone`: a new node, with a fresh identifier, that
     * carries this node's data and has no parent and no children yet.
     */
    method CopyTop(src: Ids.IdSource) returns (r: Node, ghost G: Forest, ghost f: map<Node, Node>)
      modifies src
      ensures fresh(r) && r.parent == null && r.children == [] && r.data == data
      ensures G.Valid() && G.nodes == {r} && f == map[r := this]
      ensures old(src.next) <= src.next && Issued(f, old(src.next), src.next)
    {
      r := new Node(src, map[]);
      var _ := r.SetData(Dict(data));
      AdmitStandalone(Forest({}, map[]), r);
      G := Forest({}, map[]).Admit(r);
      f := map[r := this];
    }

    /**
     * One round of `clone`'s loop, run on the original: child i is cloned
     * and the clone appended to r, the copy of this node made so far; the
     * correspondence f grows by the new copies.
     */
    method CopyChild(ghost F: Forest, r: Node, ghost G: Forest, ghost f: map<Node, Node>, i: nat, ghost lo: int, src: Ids.IdSource)
      returns (ghost G': Forest, ghost f': map<Node, Node>)
      requires F.Valid() && this in F.nodes && i < |children|
      requires forall x :: x in F.nodes ==> x.id < src.next
      requires G.Valid() && G.nodes == f.Keys
      requires r in f && f[r] == this && r.parent == null && r !in F.nodes
      requires ListCopied(f, r.children, children[..i])
      requires CopiesBelow(f, r)
      requires forall y :: y in f ==> f[y] in F.nodes
      requires lo <= src.next && Issued(f, lo, src.next)
      modifies r`children, src
      decreases F.rank[this], 0
      ensures G'.Valid() && G'.nodes == f'.Keys
      ensures r in f' && f'[r] == this
      ensures ListCopied(f', r.children, children[..i + 1])
      ensures CopiesBelow(f', r)
      ensures forall y :: y in f' ==> f'[y] in F.nodes
      ensures lo <= src.next && Issued(f', lo, src.next)
    {
      assert F.Linked(this) && F.Linked(children[i]);
      ghost var before := r.children;
      ghost var mid := src.next;
      var c, Gc, fc := r.AdoptCopy(F, G, children[i], src);
      ListCopiedExtend(f, fc, before, children, i, c);
      IssuedJoin(f, fc, lo, mid, src.next);
      CopiesJoin(f, fc, r, c);
      G' := Gc;
      f' := f + fc;
    }

    /**
     * The clone of one child, added under this node, which heads the
     * forest G of copies made so far.
     */
    method AdoptCopy(ghost F: Forest, ghost G: Forest, orig: Node, src: Ids.IdSource)
      returns (c: Node, ghost Gc: Forest, ghost fc: map<Node, Node>)
      requires F.Valid() && orig in F.nodes && this !in F.nodes
      requires forall x :: x in F.nodes ==> x.id < src.next
      requires G.Valid() && this in G.nodes && parent == null
      requires forall x :: x in G.nodes ==> x.id < src.next
      modifies this`children, src
      decreases F.rank[orig], 2
      ensures c in fc && fc[c] == orig && c.parent == this
      ensures children == old(children) + [c]
      ensures Gc.Valid() && Gc.nodes == G.nodes + fc.Keys
      ensures forall y :: y in fc ==> fc[y] in F.nodes
      ensures CopyAt(fc, c) && CopiesBelow(fc, c)
      ensures old(src.next) <= src.next && Issued(fc, old(src.next), src.next)
    {
      ghost var H;
      c, H, fc := orig.Clone(F, src);
      Gc := AttachCopy(G, H, c);
    }

    /** The `add_node(child_node)` of `clone`'s loop: the fresh copy becomes the last child. */
    method AttachCopy(ghost G: Forest, ghost H: Forest, c: Node) returns (ghost Gc: Forest)
      requires G.Valid() && H.Valid() && G.nodes !! H.nodes
      requires this in G.nodes && parent == null && c in H.nodes && c.parent == null
      modifies this`children, c`parent
      ensures children == old(children) + [c] && c.parent == this
      ensures Gc.Valid() && Gc.nodes == G.nodes + H.nodes
    {
      JoinValid(G, H);
      ghost var U := Join(G, H);
      RootAlone(U, this);
      assert G.Linked(this);
      assert c != this && c !in children;
      assert AddRejection(U, c) == None;
      var _, G2 := AddNode(U, c);
      Gc := G2;
    }

    /** The children as a set, for frames. */
    function ChildSet(): set<Node>
      reads this
    {
      set c | c in children
    }

    /**
     * `clear_nodes()`: every child loses its parent and the list becomes
     * empty. Returns this node.
     */
    method ClearNodes(ghost F: Forest) returns (r: Node)
      requires F.Valid() && this in F.nodes
      modifies this`children, ChildSet()`parent
      ensures r == this && F.Valid() && children == []
      ensures forall c :: c in old(children) ==> c.parent == null
    {
      assert F.Linked(this);
      assert this !in children;
      var i := 0;
      while i < |children|
        invariant 0 <= i <= |children| && children == old(children)
        invariant forall k :: 0 <= k < i ==> children[k].parent == null
        invariant forall k :: i <= k < |children| ==> children[k].parent == this
        invariant parent == old(parent)
      {
        children[i].parent := null;
        i := i + 1;
      }
      children := [];
      forall q | q in F.nodes ensures F.Linked(q) {
        assert old(F.Linked(q));
        if q != this {
          forall k | 0 <= k < |q.children| ensures q.children[k].parent == q {
            var c := q.children[k];
            assert old(c.parent) == q;
          }
        }
      }
      r := this;
    }
  }
  // ----- copies -----

  /** List s holds, position by position, the copies (under f) of the nodes of list o. */
  ghost predicate ListCopied(f: map<Node, Node>, s: seq<Node>, o: seq<Node>) {
    |s| == |o| && forall k :: 0 <= k < |s| ==> s[k] in f && f[s[k]] == o[k]
  }

  /** Copying the next node of o extends a copied prefix of o, also under a larger map. */
  lemma ListCopiedExtend(f: map<Node, Node>, g: map<Node, Node>, s: seq<Node>, o: seq<Node>, i: nat, c: Node)
    requires f.Keys !! g.Keys && i < |o| && ListCopied(f, s, o[..i]) && c in g && g[c] == o[i]
    ensures ListCopied(f + g, s + [c], o[..i + 1])
  {
    assert o[..i + 1] == o[..i] + [o[i]];
  }

  /**
   * Copy y in f (which maps each copy to the node it copies) carries the
   * same data as its original, and its children are the copies of the
   * original's children, in the same order.
   */
  ghost predicate CopyAt(f: map<Node, Node>, y: Node)
    requires y in f
    reads y`data, y`children, (f[y] as Node)`data, (f[y] as Node)`children
  {
    y.data == f[y].data && ListCopied(f, y.children, f[y].children)
  }

  /** The parent of copy y is the copy of its original's parent. */
  ghost predicate ParentCopied(f: map<Node, Node>, y: Node)
    requires y in f
    reads y`parent, (f[y] as Node)`parent
  {
    y.parent != null && y.parent in f && f[y.parent] == f[y].parent
  }

  /** Every copy in f other than `top` looks like its original and hangs under the copy of its original's parent. */
  ghost predicate CopiesBelow(f: map<Node, Node>, top: Node)
    reads (f.Keys - {top})`data, (f.Keys - {top})`children, (f.Keys - {top})`parent
    reads f.Values`data, f.Values`children, f.Values`parent
  {
    forall y :: y in f && y != top ==> CopyAt(f, y) && ParentCopied(f, y)
  }

  /**
   * f is a copy of a whole tree: `top` is a parentless copy, every copy
   * looks like its original, and every copy but `top` hangs under the
   * copy of its original's parent.
   */
  ghost predicate Mirror(f: map<Node, Node>, top: Node)
    reads f.Keys, f.Values
  {
    top in f && top.parent == null && CopyAt(f, top) && CopiesBelow(f, top)
  }

  /**
   * Putting the copy of a further child (with everything copied below it)
   * next to the copies made so far: the joined map still has every copy
   * but the top one look like its original and hang under the right parent.
   */
  lemma CopiesJoin(f: map<Node, Node>, g: map<Node, Node>, top: Node, c: Node)
    requires f.Keys !! g.Keys && top in f && c in g
    requires CopiesBelow(f, top) && CopiesBelow(g, c) && CopyAt(g, c)
    requires c.parent == top && g[c].parent == f[top]
    ensures CopiesBelow(f + g, top)
  {
    var h := f + g;
    forall y | y in h && y != top ensures CopyAt(h, y) && ParentCopied(h, y) {
      if y in g {
        assert CopyAt(g, y);
        assert ListCopied(h, y.children, g[y].children);
      } else {
        assert CopyAt(f, y) && ParentCopied(f, y);
        assert ListCopied(h, y.children, f[y].children);
      }
    }
  }

  /** The copies carry identifiers issued in [lo, hi). */
  ghost predicate Issued(f: map<Node, Node>, lo: int, hi: int) {
    forall y :: y in f ==> lo <= y.id < hi
  }

  /** Copies from two consecutive ranges of identifiers are different nodes. */
  lemma IssuedJoin(f: map<Node, Node>, g: map<Node, Node>, lo: int, mid: int, hi: int)
    requires lo <= mid <= hi && Issued(f, lo, mid) && Issued(g, mid, hi)
    ensures Issued(f + g, lo, hi) && f.Keys !! g.Keys
  {
  }

  // ----- what the search yields -----

  /** The members of s that cb accepts, in their order in s. */
  function Select(s: seq<Node>, cb: Filter): (r: seq<Node>)
    reads set x | x in s
    ensures forall x :: x in r ==> x in s
    ensures forall x :: x in s ==> (x in r <==> cb(x.id, x.data))
    ensures |r| <= |s|
  {
    if s == [] then [] else s[0].Match(cb) + Select(s[1..], cb)
  }

  /** Selecting from a concatenation selects from each part. */
  lemma {:induction false} SelectAppend(a: seq<Node>, b: seq<Node>, cb: Filter)
    ensures Select(a + b, cb) == Select(a, cb) + Select(b, cb)
  {
    if a == [] {
      assert a + b == b;
    } else {
      assert (a + b)[0] == a[0] && (a + b)[1..] == a[1..] + b;
      SelectAppend(a[1..], b, cb);
    }
  }

  /**
   * Each parent step is strictly upward in rank, so along a parent chain
   * ranks grow and no node occurs twice.
   */
  lemma {:induction false} AncestryRanks(F: Forest, x: Node, i: nat, j: nat)
    requires F.Valid() && x in F.nodes
    requires i < j < |Ancestry(F, x)|
    ensures F.rank[Ancestry(F, x)[i]] < F.rank[Ancestry(F, x)[j]]
    decreases j - i
  {
    var A := Ancestry(F, x);
    assert F.Linked(A[i]);
    if i + 1 < j {
      AncestryRanks(F, x, i + 1, j);
    }
  }

  /** A node sits below at most one child of a given parent. */
  lemma {:induction false} OneChildAbove(F: Forest, p: Node, y: Node, a: Node, b: Node)
    requires F.Valid() && p in F.nodes && y in F.nodes
    requires a in p.children && b in p.children
    requires a in Ancestry(F, y) && b in Ancestry(F, y)
    ensures a == b
  {
    assert F.Linked(p);
    var A := Ancestry(F, y);
    var ia :| 0 <= ia < |A| && A[ia] == a;
    var ib :| 0 <= ib < |A| && A[ib] == b;
    assert ia < |A| - 1 && A[ia + 1] == p;
    assert ib < |A| - 1 && A[ib + 1] == p;
    if ia < ib {
      AncestryRanks(F, y, ia + 1, ib + 1);
    } else if ib < ia {
      AncestryRanks(F, y, ib + 1, ia + 1);
    }
  }

  /**
   * x is a proper descendant of p reached through live links: p lies on
   * x's parent chain and every node on the way up, from x to just below
   * p, is still listed among its parent's children. (A node popped by
   * `remove_at` keeps its parent but is no longer listed, so it and
   * everything under it are not reached.)
   */
  ghost predicate Reaches(F: Forest, p: Node, x: Node)
    requires F.Valid() && x in F.nodes
    reads F.nodes
  {
    var A := Ancestry(F, x);
    exists k :: 1 <= k < |A| && A[k] == p && forall i :: 0 <= i < k ==> A[i] in A[i + 1].children
  }

  /** Everything the search finds is reached from the node and accepted by the callback. */
  lemma {:induction false} FoundReaches(F: Forest, p: Node, cb: Filter, descend: bool, x: Node)
    requires F.Valid() && p in F.nodes
    requires x in p.FindNodes(F, cb, descend)
    ensures x in F.nodes && Reaches(F, p, x) && cb(x.id, x.data)
    ensures !descend ==> x in p.children
    decreases F.rank[p], 1
  {
    SweptReaches(F, p, 0, cb, descend, x);
  }

  /** A listed child is reached from its parent, one live link up. */
  lemma ChildReached(F: Forest, p: Node, c: Node)
    requires F.Valid() && p in F.nodes && c in p.children
    ensures c in F.nodes && Reaches(F, p, c)
  {
    assert F.Linked(p);
    var A := Ancestry(F, c);
    assert A[0] == c && A[1] == p;
    assert A[0] in A[1].children;
  }

  /** What is reached from a listed child is reached from its parent, through that child. */
  lemma GrandchildReached(F: Forest, p: Node, c: Node, x: Node)
    requires F.Valid() && p in F.nodes && c in p.children && x in F.nodes
    requires Reaches(F, c, x)
    ensures Reaches(F, p, x) && c in Ancestry(F, x)
  {
    assert F.Linked(p);
    assert c.parent == p;
    var A := Ancestry(F, x);
    var k :| 1 <= k < |A| && A[k] == c && forall i :: 0 <= i < k ==> A[i] in A[i + 1].children;
    assert k < |A| - 1;
    assert A[k + 1] == p;
    assert forall i :: 0 <= i < k + 1 ==> A[i] in A[i + 1].children;
  }

  /** What the sweep from index `from` yields lies below one of the children from there on. */
  lemma {:induction false} SweptReaches(F: Forest, p: Node, from: nat, cb: Filter, descend: bool, x: Node)
    requires F.Valid() && p in F.nodes && from <= |p.children|
    requires x in p.Sweep(F, from, cb, descend)
    ensures x in F.nodes && Reaches(F, p, x) && cb(x.id, x.data)
    ensures !descend ==> x in p.children
    ensures exists j :: from <= j < |p.children| && p.children[j] in Ancestry(F, x)
    decreases F.rank[p], 0, |p.children| - from
  {
    assert F.Linked(p);
    var c := p.children[from];
    var below := if descend && |c.children| > 0 then c.FindNodes(F, cb, descend) else [];
    assert p.Sweep(F, from, cb, descend) == c.Match(cb) + below + p.Sweep(F, from + 1, cb, descend);
    if x in c.Match(cb) {
      ChildReached(F, p, c);
      assert p.children[from] == Ancestry(F, x)[0];
    } else if x in below {
      assert F.Linked(c);
      FoundReaches(F, c, cb, descend, x);
      GrandchildReached(F, p, c, x);
    } else {
      SweptReaches(F, p, from + 1, cb, descend, x);
    }
  }

  /** What a later sweep yields, an earlier one over the same children yields too. */
  lemma {:induction false} SweepCovers(F: Forest, p: Node, from: nat, j: nat, cb: Filter, descend: bool, x: Node)
    requires F.Valid() && p in F.nodes && from <= j <= |p.children|
    requires x in p.Sweep(F, j, cb, descend)
    ensures x in p.Sweep(F, from, cb, descend)
    decreases j - from
  {
    if from < j {
      var next := from + 1;
      SweepCovers(F, p, next, j, cb, descend, x);
      SweepKeeps(F, p, from, next, cb, descend, x);
    }
  }

  /** What the sweep from `from + 1` yields, the sweep from `from` yields too. */
  lemma SweepKeeps(F: Forest, p: Node, from: nat, next: nat, cb: Filter, descend: bool, x: Node)
    requires F.Valid() && p in F.nodes && from < |p.children| && next == from + 1
    requires x in p.Sweep(F, next, cb, descend)
    ensures x in p.Sweep(F, from, cb, descend)
  {
    assert F.Linked(p);
  }

  /** The sweep from `from` yields what child `from` and the nodes below it contribute. */
  lemma SweepTakes(F: Forest, p: Node, from: nat, cb: Filter, descend: bool, x: Node)
    requires F.Valid() && p in F.nodes && from < |p.children| && p.children[from] in F.nodes
    requires x in p.children[from].Match(cb)
      || (descend && |p.children[from].children| > 0 && x in p.children[from].FindNodes(F, cb, descend))
    ensures x in p.Sweep(F, from, cb, descend)
  {
    assert F.Linked(p);
  }

  /** Every node reached from p that the callback accepts is found by the descending search. */
  lemma {:induction false} ReachedFound(F: Forest, p: Node, cb: Filter, x: Node, k: nat)
    requires F.Valid() && p in F.nodes && x in F.nodes && cb(x.id, x.data)
    requires 1 <= k < |Ancestry(F, x)| && Ancestry(F, x)[k] == p
    requires forall i :: 0 <= i < k ==> Ancestry(F, x)[i] in Ancestry(F, x)[i + 1].children
    ensures x in p.FindNodes(F, cb, true)
    decreases k
  {
    var A := Ancestry(F, x);
    var c := A[k - 1];
    assert c in p.children;
    assert F.Linked(p);
    var j :| 0 <= j < |p.children| && p.children[j] == c;
    if k > 1 {
      ReachedFound(F, c, cb, x, k - 1);
      assert A[k - 2] in c.children;
    }
    SweepTakes(F, p, j, cb, true, x);
    SweepCovers(F, p, 0, j, cb, true, x);
  }

  /**
   * The nodes a search from p looks at: with `descend`, those reached
   * from p; without it, p's children.
   */
  ghost predicate InScope(F: Forest, p: Node, descend: bool, x: Node)
    requires F.Valid() && p in F.nodes
    reads F.nodes
  {
    x in F.nodes && if descend then Reaches(F, p, x) else x in p.children
  }

  /** Whatever is in scope is listed by its parent, so `detach` takes it out. */
  lemma ScopeIsListed(F: Forest, p: Node, descend: bool, x: Node)
    requires F.Valid() && p in F.nodes && InScope(F, p, descend, x)
    ensures x.parent != null && x.parent in F.nodes && x in x.parent.children
  {
    assert F.Linked(p);
    var A := Ancestry(F, x);
    if descend {
      var k :| 1 <= k < |A| && A[k] == p && forall i :: 0 <= i < k ==> A[i] in A[i + 1].children;
      assert A[0] in A[1].children;
    }
  }

  /**
   * What `find_nodes` yields, as a set: exactly the nodes in scope that
   * the callback accepts.
   */
  lemma FindNodesMembers(F: Forest, p: Node, cb: Filter, descend: bool, x: Node)
    requires F.Valid() && p in F.nodes
    ensures x in p.FindNodes(F, cb, descend) <==> InScope(F, p, descend, x) && cb(x.id, x.data)
  {
    if x in p.FindNodes(F, cb, descend) {
      FoundReaches(F, p, cb, descend, x);
    }
    if InScope(F, p, descend, x) && cb(x.id, x.data) {
      if descend {
        var A := Ancestry(F, x);
        var k :| 1 <= k < |A| && A[k] == p && forall i :: 0 <= i < k ==> A[i] in A[i + 1].children;
        ReachedFound(F, p, cb, x, k);
      } else {
        assert F.Linked(p);
        var j :| 0 <= j < |p.children| && p.children[j] == x;
        SweepCovers(F, p, 0, j, cb, false, x);
      }
    }
  }

  /** The first element a selection keeps is preceded only by rejected ones. */
  lemma {:induction false} SelectFirst(s: seq<Node>, cb: Filter)
    requires Select(s, cb) != []
    ensures exists k :: (0 <= k < |s| && s[k] == Select(s, cb)[0] && cb(s[k].id, s[k].data)
      && forall j :: 0 <= j < k ==> !cb(s[j].id, s[j].data))
  {
    if !cb(s[0].id, s[0].data) {
      var t := s[1..];
      SelectFirst(t, cb);
      assert Select(s, cb) == Select(t, cb);
      var k :| 0 <= k < |t| && t[k] == Select(t, cb)[0] && cb(t[k].id, t[k].data)
        && forall j :: 0 <= j < k ==> !cb(t[j].id, t[j].data);
      var m := k + 1;
      assert s[m] == t[k];
      forall j | 0 <= j < m ensures !cb(s[j].id, s[j].data) {
        if j > 0 {
          assert s[j] == t[j - 1];
        }
      }
    }
  }

  /** Without `descend`, `find_nodes` yields exactly the accepted children, in their order. */
  lemma {:induction false} ShallowFind(F: Forest, p: Node, cb: Filter)
    requires F.Valid() && p in F.nodes
    ensures p.FindNodes(F, cb, false) == Select(p.children, cb)
  {
    ShallowSweep(F, p, 0, cb);
    assert p.children[0..] == p.children;
  }

  lemma {:induction false} ShallowSweep(F: Forest, p: Node, from: nat, cb: Filter)
    requires F.Valid() && p in F.nodes && from <= |p.children|
    ensures p.Sweep(F, from, cb, false) == Select(p.children[from..], cb)
    decreases |p.children| - from
  {
    if from < |p.children| {
      assert p.children[from..][1..] == p.children[from + 1..];
      ShallowSweep(F, p, from + 1, cb);
    }
  }

  /**
   * Filtering commutes with the walk: the search with a callback yields
   * the nodes of the unfiltered pre-order walk that the callback accepts,
   * in the walk's order.
   */
  lemma {:induction false} FindIsSelect(F: Forest, p: Node, cb: Filter, descend: bool)
    requires F.Valid() && p in F.nodes
    ensures p.FindNodes(F, cb, descend) == Select(p.FindNodes(F, MatchAll, descend), cb)
    decreases F.rank[p], 1
  {
    SweepIsSelect(F, p, 0, cb, descend);
  }

  lemma {:induction false} SweepIsSelect(F: Forest, p: Node, from: nat, cb: Filter, descend: bool)
    requires F.Valid() && p in F.nodes && from <= |p.children|
    ensures p.Sweep(F, from, cb, descend) == Select(p.Sweep(F, from, MatchAll, descend), cb)
    decreases F.rank[p], 0, |p.children| - from
  {
    if from < |p.children| {
      SweepStep(F, p, from, cb, descend);
      SweepStep(F, p, from, MatchAll, descend);
      var c := p.children[from];
      var belowAll := if descend && |c.children| > 0 then c.FindNodes(F, MatchAll, descend) else [];
      if descend && |c.children| > 0 {
        FindIsSelect(F, c, cb, descend);
      }
      SweepIsSelect(F, p, from + 1, cb, descend);
      SelectSplit(c, belowAll, p.Sweep(F, from + 1, MatchAll, descend), cb);
    }
  }

  /** Filtering a walk that starts with n filters n, then the rest piece by piece. */
  lemma SelectSplit(n: Node, b: seq<Node>, c: seq<Node>, cb: Filter)
    ensures Select([n] + b + c, cb) == n.Match(cb) + Select(b, cb) + Select(c, cb)
  {
    SelectAppend([n] + b, c, cb);
    SelectAppend([n], b, cb);
    assert [n][1..] == [];
  }

  /** One step of the sweep: child `from`, what lies below it, then the later children. */
  lemma SweepStep(F: Forest, p: Node, from: nat, cb: Filter, descend: bool)
    requires F.Valid() && p in F.nodes && from < |p.children|
    ensures F.Linked(p) && p.children[from] in F.nodes
    ensures p.Sweep(F, from, cb, descend)
      == p.children[from].Match(cb)
       + (if descend && |p.children[from].children| > 0 then p.children[from].FindNodes(F, cb, descend) else [])
       + p.Sweep(F, from + 1, cb, descend)
  {
    assert F.Linked(p);
  }

  /** `find_nodes` never yields a node twice: sibling subtrees share no node. */
  lemma {:induction false} FindNodesDistinct(F: Forest, p: Node, cb: Filter, descend: bool)
    requires F.Valid() && p in F.nodes
    ensures Distinct(p.FindNodes(F, cb, descend))
    decreases F.rank[p], 1
  {
    SweepDistinct(F, p, 0, cb, descend);
  }

  lemma {:induction false} SweepDistinct(F: Forest, p: Node, from: nat, cb: Filter, descend: bool)
    requires F.Valid() && p in F.nodes && from <= |p.children|
    ensures Distinct(p.Sweep(F, from, cb, descend))
    decreases F.rank[p], 0, |p.children| - from
  {
    if from < |p.children| {
      assert F.Linked(p);
      var c := p.children[from];
      var head := c.Match(cb);
      var below := if descend && |c.children| > 0 then c.FindNodes(F, cb, descend) else [];
      var rest := p.Sweep(F, from + 1, cb, descend);
      assert p.Sweep(F, from, cb, descend) == head + below + rest;
      if descend && |c.children| > 0 {
        assert F.Linked(c);
        FindNodesDistinct(F, c, cb, descend);
      }
      SweepDistinct(F, p, from + 1, cb, descend);
      DistinctConcat(head, below);
      forall y | y in head + below ensures y !in rest {
        SiblingApart(F, p, from, cb, descend, y);
      }
      DistinctConcat(head + below, rest);
    }
  }

  /** A node found at child `from` or below it is not found again among the later children. */
  lemma SiblingApart(F: Forest, p: Node, from: nat, cb: Filter, descend: bool, y: Node)
    requires F.Valid() && p in F.nodes && F.Linked(p) && from < |p.children|
    requires y in p.children[from].Match(cb)
      || (descend && |p.children[from].children| > 0 && y in p.children[from].FindNodes(F, cb, descend))
    ensures y !in p.Sweep(F, from + 1, cb, descend)
  {
    assert F.Linked(p);
    var c := p.children[from];
    if y in p.Sweep(F, from + 1, cb, descend) {
      SweptReaches(F, p, from + 1, cb, descend, y);
      var j :| from + 1 <= j < |p.children| && p.children[j] in Ancestry(F, y);
      if y in c.Match(cb) {
        assert c == Ancestry(F, y)[0];
      } else {
        FoundReaches(F, c, cb, descend, y);
        GrandchildReached(F, p, c, y);
      }
      OneChildAbove(F, p, y, c, p.children[j]);
      assert false;
    }
  }
}
