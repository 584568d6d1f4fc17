/**
 * The n-ary tree of gpr_tree.c: nodes with a bounded label and value, a
 * link to their first child and a link to their next sibling. The links
 * between the nodes the program has allocated form an acyclic graph; a
 * ghost rank per node, larger than the ranks of the nodes it links to,
 * witnesses that the links have no cycle, which is what lets the
 * recursive walks of the source end. The C code does not stop two links
 * from leading to the same node; the corrected add_child and add_sibling
 * keep a `linked` mark so that the links form trees (Forest.Unshared).
 */
module Tree {
  import opened GprErr
  import opened Builtin
  import opened Sequences

  /** Characters a label can hold (GPR_TREE_NODE_LABEL_LEN); the buffer has one more byte for the NUL. */
  const LABEL_LEN: nat := 128
  /** Characters a value can hold (GPR_TREE_NODE_VALUE_LEN). */
  const VALUE_LEN: nat := 256

  class TNode {
    var labelText: string
    var value: string
    var child: TNode?
    var sibling: TNode?
    /** Not in the C node: set by the corrected add_child and add_sibling once a link leads here. */
    var linked: bool

    /**
     * gpr_tree_new_node after a successful allocation: gpr_tree_init_node
     * clears the node, then the label is printed into its LABEL_LEN + 1
     * byte buffer, which keeps at most LABEL_LEN characters.
     */
    constructor (text: string)
      ensures this.labelText == Stored(text, LABEL_LEN + 1) && value == []
      ensures child == null && sibling == null && !linked
    {
      this.labelText := Stored(text, LABEL_LEN + 1);
      value := [];
      child := null;
      sibling := null;
      linked := false;
    }
  }

  /** The allocated nodes, with the ranks that order their links. */
  class Forest {
    ghost var nodes: set<TNode>
    ghost var rank: map<TNode, nat>
    /** For the corrected links: the node whose link leads to each linked node. */
    ghost var parent: map<TNode, TNode>

    /** Every link stays inside the forest and leads to a node of smaller rank. */
    ghost predicate Valid()
      reads this, nodes
    {
      (forall n :: n in nodes ==> n in rank) &&
      (forall n :: n in nodes && n.child != null ==> n.child in nodes && rank[n.child] < rank[n]) &&
      (forall n :: n in nodes && n.sibling != null ==> n.sibling in nodes && rank[n.sibling] < rank[n])
    }

    /**
     * The links form trees: every node a link leads to carries the
     * `linked` mark and has that link's node as its one parent, and no
     * node's child is also its sibling.
     */
    ghost predicate Unshared()
      reads this, nodes
    {
      Valid() &&
      (forall m :: m in nodes && m.child != null ==> m.child.linked && m.child in parent && parent[m.child] == m) &&
      (forall m :: m in nodes && m.sibling != null ==> m.sibling.linked && m.sibling in parent && parent[m.sibling] == m) &&
      (forall m :: m in nodes && m.child != null ==> m.child != m.sibling)
    }

    constructor ()
      ensures Valid() && Unshared() && nodes == {}
    {
      nodes := {};
      rank := map[];
      parent := map[];
    }
  }

  /** is_contained: `n2` is `n1` itself, or is contained from n1's first child, or from its next sibling. */
  predicate IsContained(f: Forest, n1: TNode, n2: TNode)
    requires f.Valid() && n1 in f.nodes
    reads f, f.nodes
    decreases f.rank[n1]
  {
    n1 == n2 ||
    (n1.child != null && IsContained(f, n1.child, n2)) ||
    (n1.sibling != null && IsContained(f, n1.sibling, n2))
  }

  /** `n2` is reached from `n1` in exactly k child or sibling steps through the forest. */
  ghost predicate Steps(f: Forest, n1: TNode, n2: TNode, k: nat)
    reads f, f.nodes
    decreases k
  {
    n1 in f.nodes &&
    if k == 0 then n1 == n2
    else (n1.child != null && Steps(f, n1.child, n2, k - 1)) ||
         (n1.sibling != null && Steps(f, n1.sibling, n2, k - 1))
  }

  /** `n2` can be reached from `n1` by zero or more child or sibling steps. */
  ghost predicate Reaches(f: Forest, n1: TNode, n2: TNode)
    reads f, f.nodes
  {
    exists k: nat :: Steps(f, n1, n2, k)
  }

  /** is_contained decides reachability: it holds exactly when some number of steps leads from the first node to the second. */
  lemma IsContainedIffReaches(f: Forest, n1: TNode, n2: TNode)
    requires f.Valid() && n1 in f.nodes
    ensures IsContained(f, n1, n2) <==> Reaches(f, n1, n2)
  {
    if IsContained(f, n1, n2) {
      var k := ContainedSteps(f, n1, n2);
    }
    if Reaches(f, n1, n2) {
      var k: nat :| Steps(f, n1, n2, k);
      StepsContained(f, n1, n2, k);
    }
  }

  /** The number of steps behind an is_contained answer. */
  lemma {:induction false} ContainedSteps(f: Forest, n1: TNode, n2: TNode) returns (k: nat)
    requires f.Valid() && n1 in f.nodes && IsContained(f, n1, n2)
    ensures Steps(f, n1, n2, k)
    decreases f.rank[n1]
  {
    if n1 == n2 {
      k := 0;
    } else if n1.child != null && IsContained(f, n1.child, n2) {
      var j := ContainedSteps(f, n1.child, n2);
      k := j + 1;
    } else {
      var j := ContainedSteps(f, n1.sibling, n2);
      k := j + 1;
    }
  }

  /** Every walk of k steps is seen by is_contained. */
  lemma {:induction false} StepsContained(f: Forest, n1: TNode, n2: TNode, k: nat)
    requires f.Valid() && Steps(f, n1, n2, k)
    ensures IsContained(f, n1, n2)
    decreases k
  {
    if k > 0 {
      if n1.child != null && Steps(f, n1.child, n2, k - 1) {
        StepsContained(f, n1.child, n2, k - 1);
      } else {
        StepsContained(f, n1.sibling, n2, k - 1);
      }
    }
  }

  /** The node at the end of the sibling chain that starts at `n`. */
  function LastSibling(f: Forest, n: TNode): (last: TNode)
    requires f.Valid() && n in f.nodes
    reads f, f.nodes
    ensures last in f.nodes && last.sibling == null
    ensures IsContained(f, n, last)
    decreases f.rank[n]
  {
    if n.sibling == null then n else LastSibling(f, n.sibling)
  }

  /** The two components a search can compare. */
  datatype Component = Label | Value

  /** The stored component of a node. */
  function ComponentOf(n: TNode, k: Component): string
    reads n
  {
    match k
    case Label => n.labelText
    case Value => n.value
  }

  /**
   * strncmp(a, b, n) == 0 for strings without NUL characters: the first
   * n characters agree, the terminating NUL included when a string is
   * shorter than n.
   */
  predicate StrnEqual(a: string, b: string, n: nat)
  {
    a[..if |a| < n then |a| else n] == b[..if |b| < n then |b| else n]
  }

  /** When the buffer holds fewer than `n` characters, strncmp over `n` bytes is plain equality. */
  lemma StrnEqualShort(a: string, b: string, n: nat)
    requires |a| < n
    ensures StrnEqual(a, b, n) <==> a == b
  {
  }

  /** The search comparison: strncmp on the label buffer (LABEL_LEN + 1 bytes) or on the value buffer (VALUE_LEN + 1). */
  predicate Matches(n: TNode, m: string, k: Component)
    reads n
  {
    StrnEqual(ComponentOf(n, k), m, if k == Label then LABEL_LEN + 1 else VALUE_LEN + 1)
  }

  /**
   * search_by_node_component: the origin when it matches, else the first
   * match in the child's subtree, else the first match from the sibling,
   * else NULL.
   */
  function SearchBy(f: Forest, origin: TNode, m: string, k: Component): (r: TNode?)
    requires f.Valid() && origin in f.nodes
    reads f, f.nodes
    ensures r != null ==> r in f.nodes && Matches(r, m, k) && IsContained(f, origin, r)
    decreases f.rank[origin]
  {
    if Matches(origin, m, k) then origin
    else if origin.child != null && SearchBy(f, origin.child, m, k) != null then SearchBy(f, origin.child, m, k)
    else if origin.sibling != null then SearchBy(f, origin.sibling, m, k)
    else null
  }

  /** gpr_tree_search_node_by_label. */
  function SearchNodeByLabel(f: Forest, origin: TNode, text: string): TNode?
    requires f.Valid() && origin in f.nodes
    reads f, f.nodes
  {
    SearchBy(f, origin, text, Label)
  }

  /** gpr_tree_search_node_by_value. */
  function SearchNodeByValue(f: Forest, origin: TNode, value: string): TNode?
    requires f.Valid() && origin in f.nodes
    reads f, f.nodes
  {
    SearchBy(f, origin, value, Value)
  }

  /** The nodes in the order the searches visit them: the node, its child's subtree, then its sibling's. */
  function Preorder(f: Forest, n: TNode): (s: seq<TNode>)
    requires f.Valid() && n in f.nodes
    reads f, f.nodes
    ensures |s| >= 1 && s[0] == n
    ensures forall x :: x in s ==> x in f.nodes
    decreases f.rank[n]
  {
    [n] + (if n.child != null then Preorder(f, n.child) else [])
        + (if n.sibling != null then Preorder(f, n.sibling) else [])
  }

  /** The first node of `s` that matches, or NULL when none does. */
  ghost function FirstOrNull(s: seq<TNode>, m: string, k: Component): (r: TNode?)
    reads s
    ensures r == null <==> forall j :: 0 <= j < |s| ==> !Matches(s[j], m, k)
    ensures r != null ==> exists i :: 0 <= i < |s| && s[i] == r && Matches(r, m, k) && forall j :: 0 <= j < i ==> !Matches(s[j], m, k)
  {
    if s == [] then null
    else if Matches(s[0], m, k) then s[0]
    else
      var r := FirstOrNull(s[1..], m, k);
      assert r != null ==> exists i :: 0 <= i < |s| - 1 && s[1..][i] == r && forall j :: 0 <= j < i ==> !Matches(s[1..][j], m, k);
      assert forall j :: 0 < j < |s| ==> s[j] == s[1..][j - 1];
      r
  }

  /** The first match in a concatenation is the first match of its first part, or else the first of its second part. */
  lemma {:induction false} FirstOrNullAppend(a: seq<TNode>, b: seq<TNode>, m: string, k: Component)
    ensures FirstOrNull(a + b, m, k) == if FirstOrNull(a, m, k) != null then FirstOrNull(a, m, k) else FirstOrNull(b, m, k)
  {
    if a != [] {
      var ab := a + b;
      assert ab[0] == a[0] && ab[1..] == a[1..] + b;
      FirstOrNullAppend(a[1..], b, m, k);
    } else {
      assert a + b == b;
    }
  }

  /** The searches return the first matching node of the preorder walk, and NULL exactly when no node matches. */
  lemma {:induction false} SearchIsFirstInPreorder(f: Forest, origin: TNode, m: string, k: Component)
    requires f.Valid() && origin in f.nodes
    ensures SearchBy(f, origin, m, k) == FirstOrNull(Preorder(f, origin), m, k)
    decreases f.rank[origin]
  {
    var a := if origin.child != null then Preorder(f, origin.child) else [];
    var b := if origin.sibling != null then Preorder(f, origin.sibling) else [];
    assert Preorder(f, origin) == [origin] + (a + b);
    FirstOrNullCons(origin, a + b, m, k);
    if !Matches(origin, m, k) {
      FirstOrNullAppend(a, b, m, k);
      if origin.child != null {
        SearchIsFirstInPreorder(f, origin.child, m, k);
      }
      if origin.sibling != null {
        SearchIsFirstInPreorder(f, origin.sibling, m, k);
      }
      SearchAfterOrigin(f, origin, m, k);
    }
  }

  /** A first match of a sequence is its head when that matches, else the first match of the rest. */
  lemma FirstOrNullCons(x: TNode, rest: seq<TNode>, m: string, k: Component)
    ensures FirstOrNull([x] + rest, m, k) == if Matches(x, m, k) then x else FirstOrNull(rest, m, k)
  {
    assert ([x] + rest)[0] == x && ([x] + rest)[1..] == rest;
  }

  /** Past a non-matching origin, the search goes on in the child's subtree, then from the sibling. */
  lemma SearchAfterOrigin(f: Forest, origin: TNode, m: string, k: Component)
    requires f.Valid() && origin in f.nodes && !Matches(origin, m, k)
    ensures SearchBy(f, origin, m, k) ==
              var c := if origin.child != null then SearchBy(f, origin.child, m, k) else null;
              if c != null then c else if origin.sibling != null then SearchBy(f, origin.sibling, m, k) else null
  {
  }

  /** A step from a node is contained from it. */
  lemma StepContained(f: Forest, n: TNode, t: TNode)
    requires f.Valid() && n in f.nodes
    ensures n.child != null && IsContained(f, n.child, t) ==> IsContained(f, n, t)
    ensures n.sibling != null && IsContained(f, n.sibling, t) ==> IsContained(f, n, t)
  {
  }

  /** A node without links contains only itself. */
  lemma LoneContainsOnlyItself(f: Forest, n: TNode, t: TNode)
    requires f.Valid() && n in f.nodes && n.child == null && n.sibling == null
    ensures IsContained(f, n, t) <==> n == t
  {
  }

  /**
   * gpr_tree_new_node: NULL when the allocation fails; otherwise a new
   * node with no child, no sibling, an empty value and the label kept to
   * LABEL_LEN characters.
   */
  method NewNode(f: Forest, text: string, allocOk: bool) returns (node: TNode?)
    requires f.Valid()
    modifies f
    ensures f.Valid()
    ensures node != null <==> allocOk
    ensures node == null ==> f.nodes == old(f.nodes) && f.rank == old(f.rank)
    ensures node != null ==> fresh(node) && f.nodes == old(f.nodes) + {node}
    ensures node != null ==> node.labelText == Stored(text, LABEL_LEN + 1) && node.value == []
    ensures node != null ==> node.child == null && node.sibling == null && !node.linked
    ensures forall n :: n in old(f.nodes) ==> n in f.rank && f.rank[n] == old(f.rank[n])
    ensures old(f.Unshared()) ==> f.Unshared()
  {
    if !allocOk {
      return null;
    }
    node := new TNode(text);
    f.nodes := f.nodes + {node};
    f.rank := f.rank[node := 0];
  }

  /** gpr_tree_init_node: empty label and value, no child, no sibling. Dropping links keeps the forest acyclic. */
  method InitNode(ghost f: Forest, node: TNode)
    requires f.Valid()
    modifies node
    ensures f.Valid()
    ensures old(f.Unshared()) ==> f.Unshared()
    ensures node.labelText == [] && node.value == [] && node.child == null && node.sibling == null && node.linked == old(node.linked)
  {
    node.labelText := [];
    node.value := [];
    node.child := null;
    node.sibling := null;
  }

  /** gpr_tree_set_node_value: the value kept to VALUE_LEN characters, nothing else changed; always OK. */
  method SetNodeValue(ghost f: Forest, node: TNode, text: string) returns (err: Err)
    requires f.Valid()
    modifies node
    ensures f.Valid()
    ensures old(f.Unshared()) ==> f.Unshared()
    ensures err == Ok
    ensures node.value == Stored(text, VALUE_LEN + 1) && |node.value| <= VALUE_LEN
    ensures node.labelText == old(node.labelText) && node.child == old(node.child) && node.sibling == old(node.sibling) && node.linked == old(node.linked)
  {
    node.value := Stored(text, VALUE_LEN + 1);
    return Ok;
  }

  /** The rank map after adding the link target -> node: every node that reaches the target is lifted above node's rank. */
  ghost function Reranked(f: Forest, target: TNode, node: TNode): map<TNode, nat>
    requires f.Valid() && node in f.nodes
    reads f, f.nodes
  {
    map n | n in f.nodes :: f.rank[n] + (if IsContained(f, n, target) then f.rank[node] + 1 else 0)
  }

  /** Ranks lifted this way still descend along every existing link. */
  lemma RerankedDescends(f: Forest, target: TNode, node: TNode)
    requires f.Valid() && node in f.nodes
    ensures var r := Reranked(f, target, node);
      (forall n :: n in f.nodes && n.child != null ==> r[n.child] < r[n]) &&
      (forall n :: n in f.nodes && n.sibling != null ==> r[n.sibling] < r[n])
  {
    forall n | n in f.nodes
      ensures n.child != null && IsContained(f, n.child, target) ==> IsContained(f, n, target)
      ensures n.sibling != null && IsContained(f, n.sibling, target) ==> IsContained(f, n, target)
    {
      StepContained(f, n, target);
    }
  }

  /** The sibling link of `target` (which has none) set to `node`, which does not lead back to it; the forest stays acyclic. */
  method LinkSibling(f: Forest, target: TNode, node: TNode)
    requires f.Valid() && target in f.nodes && node in f.nodes
    requires target.sibling == null && !IsContained(f, node, target)
    modifies f, target, node
    ensures f.Valid() && f.nodes == old(f.nodes)
    ensures target.sibling == node
    ensures target.child == old(target.child) && target.labelText == old(target.labelText) && target.value == old(target.value)
    ensures node.linked && target.linked == old(target.linked)
    ensures node.child == old(node.child) && node.sibling == old(node.sibling) && node.labelText == old(node.labelText) && node.value == old(node.value)
    ensures old(f.Unshared()) && !old(node.linked) ==> f.Unshared()
  {
    ghost var r := Reranked(f, target, node);
    RerankedDescends(f, target, node);
    assert r[target] > f.rank[node] == r[node];
    ghost var tree := f.Unshared() && !node.linked;
    target.sibling := node;
    node.linked := true;
    f.rank := r;
    f.parent := f.parent[node := target];
    if tree {
      forall m | m in f.nodes
        ensures m.child != null ==> m.child.linked && m.child in f.parent && f.parent[m.child] == m
        ensures m.sibling != null ==> m.sibling.linked && m.sibling in f.parent && f.parent[m.sibling] == m
        ensures m.child != null ==> m.child != m.sibling
      {
        assert m != target ==> m.child == old(m.child) && m.sibling == old(m.sibling);
      }
    }
  }

  /** The child link of `target` (which has none) set to `node`, which does not lead back to it; the forest stays acyclic. */
  method LinkChild(f: Forest, target: TNode, node: TNode)
    requires f.Valid() && target in f.nodes && node in f.nodes
    requires target.child == null && !IsContained(f, node, target)
    modifies f, target, node
    ensures f.Valid() && f.nodes == old(f.nodes)
    ensures target.child == node
    ensures target.sibling == old(target.sibling) && target.labelText == old(target.labelText) && target.value == old(target.value)
    ensures node.linked && target.linked == old(target.linked)
    ensures node.child == old(node.child) && node.sibling == old(node.sibling) && node.labelText == old(node.labelText) && node.value == old(node.value)
    ensures old(f.Unshared()) && !old(node.linked) ==> f.Unshared()
  {
    ghost var r := Reranked(f, target, node);
    RerankedDescends(f, target, node);
    assert r[target] > f.rank[node] == r[node];
    ghost var tree := f.Unshared() && !node.linked;
    target.child := node;
    node.linked := true;
    f.rank := r;
    f.parent := f.parent[node := target];
    if tree {
      forall m | m in f.nodes
        ensures m.child != null ==> m.child.linked && m.child in f.parent && f.parent[m.child] == m
        ensures m.sibling != null ==> m.sibling.linked && m.sibling in f.parent && f.parent[m.sibling] == m
        ensures m.child != null ==> m.child != m.sibling
      {
        assert m != target ==> m.child == old(m.child) && m.sibling == old(m.sibling);
      }
    }
  }

  /** The node whose link a new child of `origin` goes on: origin itself when it has no child, else its last child. */
  function ChildOwner(f: Forest, origin: TNode): (owner: TNode)
    requires f.Valid() && origin in f.nodes
    reads f, f.nodes
    ensures owner in f.nodes
    ensures origin.child == null ==> owner == origin && owner.child == null
    ensures origin.child != null ==> owner.sibling == null && IsContained(f, origin.child, owner)
  {
    if origin.child == null then origin else LastSibling(f, origin.child)
  }

  /**
   * gpr_tree_add_sibling, corrected: LOOP_DETECTED when the new sibling
   * already hangs from a link, or leads back to origin or to the last node
   * of origin's sibling chain (the node whose link changes); otherwise
   * that node's sibling link is set, the sibling is marked, and the links
   * stay acyclic and, if they were, trees.
   */
  method AddSibling(f: Forest, origin: TNode, sibling: TNode) returns (err: Err)
    requires f.Valid() && origin in f.nodes && sibling in f.nodes
    modifies f, f.nodes
    ensures f.Valid() && f.nodes == old(f.nodes)
    ensures err == Ok || err == LoopDetected
    ensures err == LoopDetected <==> old(sibling.linked || IsContained(f, sibling, origin) || IsContained(f, sibling, LastSibling(f, origin)))
    ensures err == Ok ==> old(LastSibling(f, origin)).sibling == sibling && sibling.linked
    ensures forall n :: n in old(f.nodes) ==> n.labelText == old(n.labelText) && n.value == old(n.value) && n.child == old(n.child)
    ensures forall n :: n in old(f.nodes) && (err != Ok || n != old(LastSibling(f, origin))) ==> n.sibling == old(n.sibling)
    ensures forall n :: n in old(f.nodes) && (err != Ok || n != sibling) ==> n.linked == old(n.linked)
    ensures old(f.Unshared()) ==> f.Unshared()
  {
    if sibling.linked {
      return LoopDetected;
    }
    if IsContained(f, sibling, origin) {
      return LoopDetected;
    }
    if origin.sibling != null {
      var scout := origin.sibling;
      while scout.sibling != null
        invariant scout in f.nodes && LastSibling(f, scout) == LastSibling(f, origin)
        decreases f.rank[scout]
      {
        scout := scout.sibling;
      }
      if IsContained(f, sibling, scout) {
        return LoopDetected;
      }
      LinkSibling(f, scout, sibling);
    } else {
      LinkSibling(f, origin, sibling);
    }
    return Ok;
  }

  /**
   * gpr_tree_add_child, corrected: LOOP_DETECTED when the new child
   * already hangs from a link, or leads back to origin or to the node
   * whose link changes (origin when it has no child, else its last child);
   * otherwise that link is set, the child is marked, and the links stay
   * acyclic and, if they were, trees.
   */
  method AddChild(f: Forest, origin: TNode, child: TNode) returns (err: Err)
    requires f.Valid() && origin in f.nodes && child in f.nodes
    modifies f, f.nodes
    ensures f.Valid() && f.nodes == old(f.nodes)
    ensures err == Ok || err == LoopDetected
    ensures err == LoopDetected <==> old(child.linked || IsContained(f, child, origin) || IsContained(f, child, ChildOwner(f, origin)))
    ensures err == Ok ==> child.linked
    ensures err == Ok && old(origin.child) == null ==> origin.child == child && origin.sibling == old(origin.sibling)
    ensures err == Ok && old(origin.child) != null ==> old(ChildOwner(f, origin)).sibling == child
    ensures forall n :: n in old(f.nodes) ==> n.labelText == old(n.labelText) && n.value == old(n.value)
    ensures forall n :: n in old(f.nodes) && (err != Ok || n != old(ChildOwner(f, origin))) ==> n.child == old(n.child) && n.sibling == old(n.sibling)
    ensures forall n :: n in old(f.nodes) && n != origin ==> n.child == old(n.child)
    ensures forall n :: n in old(f.nodes) && (err != Ok || n != child) ==> n.linked == old(n.linked)
    ensures old(f.Unshared()) ==> f.Unshared()
  {
    if child.linked {
      return LoopDetected;
    }
    if IsContained(f, child, origin) {
      return LoopDetected;
    }
    if origin.child != null {
      var scout := origin.child;
      while scout.sibling != null
        invariant scout in f.nodes && LastSibling(f, scout) == ChildOwner(f, origin)
        decreases f.rank[scout]
      {
        scout := scout.sibling;
      }
      if IsContained(f, child, scout) {
        return LoopDetected;
      }
      LinkSibling(f, scout, child);
    } else {
      LinkChild(f, origin, child);
    }
    return Ok;
  }

  /**
   * gpr_tree_add_sibling as written: the loop check looks only at whether
   * the new sibling leads back to origin, although the link is set on the
   * last node of origin's sibling chain. The forest's ranks are not
   * updated, since the result need not be acyclic.
   */
  method AddSiblingAsWritten(f: Forest, origin: TNode, sibling: TNode) returns (err: Err)
    requires f.Valid() && origin in f.nodes && sibling in f.nodes
    modifies f.nodes
    ensures err == (if old(IsContained(f, sibling, origin)) then LoopDetected else Ok)
    ensures err == Ok ==> old(LastSibling(f, origin)).sibling == sibling
    ensures forall n :: n in old(f.nodes) ==> n.labelText == old(n.labelText) && n.value == old(n.value) && n.child == old(n.child)
    ensures forall n :: n in old(f.nodes) && (err != Ok || n != old(LastSibling(f, origin))) ==> n.sibling == old(n.sibling)
  {
    if IsContained(f, sibling, origin) {
      return LoopDetected;
    }
    if origin.sibling != null {
      var scout := origin.sibling;
      while scout.sibling != null
        invariant scout in f.nodes && LastSibling(f, scout) == LastSibling(f, origin)
        decreases f.rank[scout]
      {
        scout := scout.sibling;
      }
      scout.sibling := sibling;
    } else {
      origin.sibling := sibling;
    }
    return Ok;
  }

  /** gpr_tree_add_child as written: the loop check looks only at whether the new child leads back to origin. */
  method AddChildAsWritten(f: Forest, origin: TNode, child: TNode) returns (err: Err)
    requires f.Valid() && origin in f.nodes && child in f.nodes
    modifies f.nodes
    ensures err == (if old(IsContained(f, child, origin)) then LoopDetected else Ok)
    ensures err == Ok && old(origin.child) == null ==> origin.child == child && origin.sibling == old(origin.sibling)
    ensures err == Ok && old(origin.child) != null ==> old(ChildOwner(f, origin)).sibling == child
    ensures forall n :: n in old(f.nodes) ==> n.labelText == old(n.labelText) && n.value == old(n.value)
    ensures forall n :: n in old(f.nodes) && (err != Ok || n != old(ChildOwner(f, origin))) ==> n.child == old(n.child) && n.sibling == old(n.sibling)
  {
    if IsContained(f, child, origin) {
      return LoopDetected;
    }
    if origin.child != null {
      var scout := origin.child;
      while scout.sibling != null
        invariant scout in f.nodes && LastSibling(f, scout) == ChildOwner(f, origin)
        decreases f.rank[scout]
      {
        scout := scout.sibling;
      }
      scout.sibling := child;
    } else {
      origin.child := child;
    }
    return Ok;
  }

  /** Two fresh unlinked nodes in a new forest. */
  method TwoNodes() returns (f: Forest, a: TNode, b: TNode)
    ensures fresh(f) && fresh(a) && fresh(b) && f.Valid() && f.nodes == {a, b} && a != b
    ensures a.child == null && a.sibling == null && b.child == null && b.sibling == null && !a.linked && !b.linked
  {
    f := new Forest();
    var na := NewNode(f, "a", true);
    var nb := NewNode(f, "b", true);
    a, b := na, nb;
  }

  /**
   * Adding the same child twice: the second call as written passes its
   * check (the child does not lead back to origin) and links the child's
   * sibling to itself.
   */
  method AddChildTwiceAsWritten() returns (second: Err, selfLoop: bool)
    ensures second == Ok && selfLoop
  {
    var f, origin, child := TwoNodes();
    var first := AddChild(f, origin, child);
    LoneContainsOnlyItself(f, child, origin);
    assert first == Ok && origin.child == child && child.sibling == null;
    assert ChildOwner(f, origin) == child;
    second := AddChildAsWritten(f, origin, child);
    selfLoop := child.sibling == child;
  }

  /** Adding the same child twice with the corrected check: the second call reports LOOP_DETECTED and the forest stays acyclic. */
  method AddChildTwice() returns (second: Err, acyclic: bool)
    ensures second == LoopDetected && acyclic
  {
    var f, origin, child := TwoNodes();
    var first := AddChild(f, origin, child);
    LoneContainsOnlyItself(f, child, origin);
    assert first == Ok && origin.child == child && child.sibling == null;
    assert ChildOwner(f, origin) == child;
    second := AddChild(f, origin, child);
    acyclic := child.sibling != child;
  }

  /** Adding the same sibling twice as written: the sibling's own link ends up pointing at itself. */
  method AddSiblingTwiceAsWritten() returns (second: Err, selfLoop: bool)
    ensures second == Ok && selfLoop
  {
    var f, origin, sibling := TwoNodes();
    var first := AddSibling(f, origin, sibling);
    LoneContainsOnlyItself(f, sibling, origin);
    assert first == Ok && origin.sibling == sibling && sibling.sibling == null;
    assert LastSibling(f, origin) == sibling;
    StepContained(f, sibling, origin);
    second := AddSiblingAsWritten(f, origin, sibling);
    selfLoop := sibling.sibling == sibling;
  }

  /** Adding the same sibling twice with the corrected check: LOOP_DETECTED. */
  method AddSiblingTwice() returns (second: Err, acyclic: bool)
    ensures second == LoopDetected && acyclic
  {
    var f, origin, sibling := TwoNodes();
    var first := AddSibling(f, origin, sibling);
    LoneContainsOnlyItself(f, sibling, origin);
    assert first == Ok && origin.sibling == sibling && sibling.sibling == null;
    assert LastSibling(f, origin) == sibling;
    second := AddSibling(f, origin, sibling);
    acyclic := sibling.sibling != sibling;
  }

  /** Three nodes: r holds a and then b. */
  method ParentOfTwo() returns (f: Forest, r: TNode, a: TNode, b: TNode)
    ensures fresh(f) && fresh(r) && fresh(a) && fresh(b)
    ensures f.Unshared() && f.nodes == {r, a, b} && r != a && r != b && a != b
    ensures r.child == a && r.sibling == null && a.child == null && a.sibling == b
    ensures b.child == null && b.sibling == null
  {
    f := new Forest();
    var n := NewNode(f, "r", true);
    r := n;
    n := NewChild(f, r, "a", true);
    a := n;
    assert ChildOwner(f, r) == a;
    n := NewChild(f, r, "b", true);
    b := n;
  }

  /** Four nodes: r holds a and then b, and a holds c, all linked by the corrected add_child. */
  method ParentsOfC() returns (f: Forest, r: TNode, a: TNode, b: TNode, c: TNode)
    ensures fresh(f) && fresh(r) && fresh(a) && fresh(b) && fresh(c)
    ensures f.Unshared() && f.nodes == {r, a, b, c} && r != a && r != b && a != b && c != r && c != a && c != b
    ensures r.child == a && r.sibling == null && a.child == c && a.sibling == b
    ensures b.child == null && b.sibling == null && c.child == null && c.sibling == null
    ensures c.linked
  {
    f, r, a, b := ParentOfTwo();
    var n := NewChild(f, a, "c", true);
    c := n;
  }

  /**
   * A node put under two parents: after ParentsOfC,
   * gpr_tree_add_child(b, c) as written passes its check, since c does
   * not lead back to b, and gpr_tree_free(r) then releases c twice. The
   * links stay acyclic; the ranks are reset to witness it.
   */
  method SharedChildAsWritten() returns (second: Err, freed: nat)
    ensures second == Ok && freed == 2
  {
    var f, r, a, b, c := ParentsOfC();
    LoneContainsOnlyItself(f, c, b);
    assert ChildOwner(f, b) == b;
    second := AddChildAsWritten(f, b, c);
    assert r.child == a && r.sibling == null && a.child == c && a.sibling == b;
    assert b.child == c && b.sibling == null && c.child == null && c.sibling == null;
    f.rank := map[r := 3, a := 2, b := 1, c := 0];
    FreedTwice(f, r, a, b, c);
    TwiceInFive(c, b, a, r);
    var released: multiset<TNode> := multiset(FreeOrder(f, r));
    freed := released[c];
  }

  /** gpr_tree_free over r -> a, a -> b (sibling), a -> c and b -> c: c is released before b and again before a. */
  lemma FreedTwice(f: Forest, r: TNode, a: TNode, b: TNode, c: TNode)
    requires r != a && r != b && a != b && c != r && c != a && c != b
    requires f.nodes == {r, a, b, c} && f.rank == map[r := 3, a := 2, b := 1, c := 0]
    requires r.child == a && r.sibling == null && a.child == c && a.sibling == b
    requires b.child == c && b.sibling == null && c.child == null && c.sibling == null
    ensures f.Valid() && FreeOrder(f, r) == [c, b, c, a, r]
  {
    forall n | n in f.nodes
      ensures n in f.rank
      ensures n.child != null ==> n.child in f.nodes && f.rank[n.child] < f.rank[n]
      ensures n.sibling != null ==> n.sibling in f.nodes && f.rank[n.sibling] < f.rank[n]
    {
      assert n == r || n == a || n == b || n == c;
    }
    assert FreeOrder(f, b) == [c, b];
    assert FreeOrder(f, a) == [c, b] + [c] + [a];
  }

  /** The release order above lists c twice. */
  lemma TwiceInFive<T>(c: T, b: T, a: T, r: T)
    requires c != b && c != a && c != r
    ensures multiset([c, b, c, a, r])[c] == 2
  {
    assert [c, b, c, a, r] == [c] + [b] + [c] + [a] + [r];
  }

  /** The same call with the corrected add_child: the second parent is refused, and gpr_tree_free(r) releases c once. */
  method SharedChildRefused() returns (second: Err, freed: nat)
    ensures second == LoopDetected && freed == 1
  {
    var f, r, a, b, c := ParentsOfC();
    second := AddChild(f, b, c);
    FreedOnce(f, r);
    assert IsContained(f, a, c);
    var released: multiset<TNode> := multiset(FreeOrder(f, r));
    freed := released[c];
  }

  /** gpr_tree_new_vnode: a new node whose value is also set, kept to VALUE_LEN characters. */
  method NewVNode(f: Forest, text: string, value: string, allocOk: bool) returns (node: TNode?)
    requires f.Valid()
    modifies f
    ensures f.Valid() && (old(f.Unshared()) ==> f.Unshared())
    ensures node != null <==> allocOk
    ensures node == null ==> f.nodes == old(f.nodes)
    ensures node != null ==> fresh(node) && f.nodes == old(f.nodes) + {node}
    ensures node != null ==> node.labelText == Stored(text, LABEL_LEN + 1) && node.value == Stored(value, VALUE_LEN + 1)
    ensures node != null ==> node.child == null && node.sibling == null && !node.linked
  {
    node := NewNode(f, text, allocOk);
    if node == null {
      return null;
    }
    var _ := SetNodeValue(f, node, value);
  }

  /**
   * gpr_tree_new_child: NULL when the allocation fails; otherwise a new
   * node linked as the last child of origin. Linking a fresh node never
   * reports a loop, so the release path of the source is never taken.
   */
  method NewChild(f: Forest, origin: TNode, text: string, allocOk: bool) returns (node: TNode?)
    requires f.Valid() && origin in f.nodes
    modifies f, f.nodes
    ensures f.Valid() && (old(f.Unshared()) ==> f.Unshared())
    ensures node != null <==> allocOk
    ensures node == null ==> f.nodes == old(f.nodes)
    ensures node != null ==> fresh(node) && f.nodes == old(f.nodes) + {node}
    ensures node != null ==> node.labelText == Stored(text, LABEL_LEN + 1) && node.value == []
    ensures node != null ==> node.child == null && node.sibling == null && node.linked
    ensures node != null && old(origin.child) == null ==> origin.child == node && origin.sibling == old(origin.sibling)
    ensures node != null && old(origin.child) != null ==> old(ChildOwner(f, origin)).sibling == node
    ensures forall n :: n in old(f.nodes) ==> n.labelText == old(n.labelText) && n.value == old(n.value)
    ensures forall n :: n in old(f.nodes) && (node == null || n != old(ChildOwner(f, origin))) ==> n.child == old(n.child) && n.sibling == old(n.sibling)
    ensures forall n :: n in old(f.nodes) && n != origin ==> n.child == old(n.child)
  {
    ghost var owner := ChildOwner(f, origin);
    node := NewNode(f, text, allocOk);
    if node == null {
      return null;
    }
    if origin.child != null {
      // the sibling chain below origin is untouched by the allocation
      ghost var c := origin.child;
      while c.sibling != null
        invariant c in old(f.nodes) && LastSibling(f, c) == LastSibling(f, origin.child) && old(LastSibling(f, c)) == owner
        decreases f.rank[c]
      {
        c := c.sibling;
      }
    }
    assert ChildOwner(f, origin) == owner;
    LoneContainsOnlyItself(f, node, origin);
    LoneContainsOnlyItself(f, node, owner);
    var err := AddChild(f, origin, node);
    assert err == Ok;
  }

  /** gpr_tree_new_vchild: gpr_tree_new_child, then the new node's value. */
  method NewVChild(f: Forest, origin: TNode, text: string, value: string, allocOk: bool) returns (node: TNode?)
    requires f.Valid() && origin in f.nodes
    modifies f, f.nodes
    ensures f.Valid() && (old(f.Unshared()) ==> f.Unshared())
    ensures node != null <==> allocOk
    ensures node == null ==> f.nodes == old(f.nodes)
    ensures node != null ==> fresh(node) && f.nodes == old(f.nodes) + {node}
    ensures node != null ==> node.labelText == Stored(text, LABEL_LEN + 1) && node.value == Stored(value, VALUE_LEN + 1)
    ensures node != null ==> node.child == null && node.sibling == null && node.linked
    ensures node != null && old(origin.child) == null ==> origin.child == node && origin.sibling == old(origin.sibling)
    ensures node != null && old(origin.child) != null ==> old(ChildOwner(f, origin)).sibling == node
    ensures forall n :: n in old(f.nodes) ==> n.labelText == old(n.labelText) && n.value == old(n.value)
    ensures forall n :: n in old(f.nodes) && (node == null || n != old(ChildOwner(f, origin))) ==> n.child == old(n.child) && n.sibling == old(n.sibling)
    ensures forall n :: n in old(f.nodes) && n != origin ==> n.child == old(n.child)
  {
    node := NewChild(f, origin, text, allocOk);
    if node == null {
      return null;
    }
    var _ := SetNodeValue(f, node, value);
  }

  /**
   * gpr_tree_new_sibling: NULL when the allocation fails; otherwise a new
   * node linked at the end of origin's sibling chain.
   */
  method NewSibling(f: Forest, origin: TNode, text: string, allocOk: bool) returns (node: TNode?)
    requires f.Valid() && origin in f.nodes
    modifies f, f.nodes
    ensures f.Valid() && (old(f.Unshared()) ==> f.Unshared())
    ensures node != null <==> allocOk
    ensures node == null ==> f.nodes == old(f.nodes)
    ensures node != null ==> fresh(node) && f.nodes == old(f.nodes) + {node}
    ensures node != null ==> node.labelText == Stored(text, LABEL_LEN + 1) && node.value == []
    ensures node != null ==> node.child == null && node.sibling == null && node.linked
    ensures node != null ==> old(LastSibling(f, origin)).sibling == node
    ensures forall n :: n in old(f.nodes) ==> n.labelText == old(n.labelText) && n.value == old(n.value) && n.child == old(n.child)
    ensures forall n :: n in old(f.nodes) && (node == null || n != old(LastSibling(f, origin))) ==> n.sibling == old(n.sibling)
  {
    ghost var last := LastSibling(f, origin);
    node := NewNode(f, text, allocOk);
    if node == null {
      return null;
    }
    ghost var c := origin;
    while c.sibling != null
      invariant c in old(f.nodes) && LastSibling(f, c) == LastSibling(f, origin) && old(LastSibling(f, c)) == last
      decreases f.rank[c]
    {
      c := c.sibling;
    }
    assert LastSibling(f, origin) == last;
    LoneContainsOnlyItself(f, node, origin);
    LoneContainsOnlyItself(f, node, last);
    var err := AddSibling(f, origin, node);
    assert err == Ok;
  }

  /** gpr_tree_new_vsibling: gpr_tree_new_sibling, then the new node's value. */
  method NewVSibling(f: Forest, origin: TNode, text: string, value: string, allocOk: bool) returns (node: TNode?)
    requires f.Valid() && origin in f.nodes
    modifies f, f.nodes
    ensures f.Valid() && (old(f.Unshared()) ==> f.Unshared())
    ensures node != null <==> allocOk
    ensures node == null ==> f.nodes == old(f.nodes)
    ensures node != null ==> fresh(node) && f.nodes == old(f.nodes) + {node}
    ensures node != null ==> node.labelText == Stored(text, LABEL_LEN + 1) && node.value == Stored(value, VALUE_LEN + 1)
    ensures node != null ==> node.child == null && node.sibling == null && node.linked
    ensures node != null ==> old(LastSibling(f, origin)).sibling == node
    ensures forall n :: n in old(f.nodes) ==> n.labelText == old(n.labelText) && n.value == old(n.value) && n.child == old(n.child)
    ensures forall n :: n in old(f.nodes) && (node == null || n != old(LastSibling(f, origin))) ==> n.sibling == old(n.sibling)
  {
    node := NewSibling(f, origin, text, allocOk);
    if node == null {
      return null;
    }
    var _ := SetNodeValue(f, node, value);
  }

  /**
   * gpr_tree_convert_to_xml as the header declares it; the body the
   * library defines is named gpt_tree_convert_to_xml. It is not
   * implemented and always answers NOT_IMPLEMENTED.
   */
  function ConvertToXml(f: Forest, origin: TNode, size: nat): (err: Err)
    ensures err == NotImplemented
  {
    NotImplemented
  }

  /**
   * gpr_tree_free: the order in which nodes are released, siblings first,
   * then children, then the origin itself.
   */
  function FreeOrder(f: Forest, n: TNode): (s: seq<TNode>)
    requires f.Valid() && n in f.nodes
    reads f, f.nodes
    ensures |s| >= 1 && s[|s| - 1] == n
    decreases f.rank[n]
  {
    (if n.sibling != null then FreeOrder(f, n.sibling) else []) +
    (if n.child != null then FreeOrder(f, n.child) else []) +
    [n]
  }

  /** gpr_tree_free releases exactly the nodes a preorder walk visits, each as often. */
  lemma {:induction false} FreeOrderPermutesPreorder(f: Forest, n: TNode)
    requires f.Valid() && n in f.nodes
    ensures multiset(FreeOrder(f, n)) == multiset(Preorder(f, n))
    decreases f.rank[n]
  {
    var fs := if n.sibling != null then FreeOrder(f, n.sibling) else [];
    var fc := if n.child != null then FreeOrder(f, n.child) else [];
    var pc := if n.child != null then Preorder(f, n.child) else [];
    var ps := if n.sibling != null then Preorder(f, n.sibling) else [];
    if n.sibling != null {
      FreeOrderPermutesPreorder(f, n.sibling);
    }
    if n.child != null {
      FreeOrderPermutesPreorder(f, n.child);
    }
    assert FreeOrder(f, n) == fs + fc + [n];
    assert Preorder(f, n) == [n] + pc + ps;
    SwappedHalves(fs, fc, n, pc, ps);
  }

  /** Concatenations of pairwise permutations, in mirrored order, are permutations of each other. */
  lemma SwappedHalves<T>(a: seq<T>, b: seq<T>, x: T, c: seq<T>, d: seq<T>)
    requires multiset(a) == multiset(d) && multiset(b) == multiset(c)
    ensures multiset(a + b + [x]) == multiset([x] + c + d)
  {
  }

  /** A node contained from another has a rank no larger. */
  lemma {:induction false} ContainedRank(f: Forest, a: TNode, b: TNode)
    requires f.Valid() && a in f.nodes
    ensures IsContained(f, a, b) ==> b in f.nodes && f.rank[b] <= f.rank[a]
    decreases f.rank[a]
  {
    if a.child != null {
      ContainedRank(f, a.child, b);
    }
    if a.sibling != null {
      ContainedRank(f, a.sibling, b);
    }
  }

  /** The preorder walk from a node lists exactly the nodes contained from it. */
  lemma {:induction false} InPreorderIffContained(f: Forest, n: TNode, x: TNode)
    requires f.Valid() && n in f.nodes
    ensures x in Preorder(f, n) <==> IsContained(f, n, x)
    decreases f.rank[n]
  {
    if n.child != null {
      InPreorderIffContained(f, n.child, x);
    }
    if n.sibling != null {
      InPreorderIffContained(f, n.sibling, x);
    }
  }

  /** The last step of a walk: some node on it links to the end. */
  lemma {:induction false} StepBack(f: Forest, a: TNode, x: TNode, k: nat) returns (p: TNode)
    requires Steps(f, a, x, k + 1)
    ensures p in f.nodes && Steps(f, a, p, k) && (p.child == x || p.sibling == x)
    decreases k
  {
    if k == 0 {
      p := a;
    } else if a.child != null && Steps(f, a.child, x, k) {
      p := StepBack(f, a.child, x, k - 1);
    } else {
      p := StepBack(f, a.sibling, x, k - 1);
    }
  }

  /** A walk of k steps ends in the forest, at a rank no larger, and strictly smaller when k > 0. */
  lemma {:induction false} StepsRank(f: Forest, a: TNode, b: TNode, k: nat)
    requires f.Valid() && Steps(f, a, b, k)
    ensures b in f.nodes && f.rank[b] <= f.rank[a]
    ensures k > 0 ==> f.rank[b] < f.rank[a]
    decreases k
  {
    if k > 0 {
      if a.child != null && Steps(f, a.child, b, k - 1) {
        StepsRank(f, a.child, b, k - 1);
      } else {
        StepsRank(f, a.sibling, b, k - 1);
      }
    }
  }

  /** Two walks that meet: one of their starting nodes reaches the other, since every node has one parent. */
  lemma {:induction false} Converge(f: Forest, a: TNode, b: TNode, x: TNode, i: nat, j: nat)
    requires f.Unshared() && Steps(f, a, x, i) && Steps(f, b, x, j)
    ensures Reaches(f, a, b) || Reaches(f, b, a)
    decreases i + j
  {
    if i == 0 {
      assert Steps(f, b, a, j);
    } else if j == 0 {
      assert Steps(f, a, b, i);
    } else {
      var p := StepBack(f, a, x, i - 1);
      var q := StepBack(f, b, x, j - 1);
      assert p == q by {
        assert x == p.child || x == p.sibling;
        assert f.parent[x] == p && f.parent[x] == q;
      }
      Converge(f, a, b, p, i - 1, j - 1);
    }
  }

  /** Neither of a node's two links leads, through the other one, back to it. */
  lemma {:induction false} NoWalkBetweenLinks(f: Forest, n: TNode, from: TNode, to: TNode, k: nat)
    requires f.Unshared() && n in f.nodes
    requires (n.child == from && n.sibling == to) || (n.sibling == from && n.child == to)
    ensures !Steps(f, from, to, k)
  {
    if k > 0 && Steps(f, from, to, k) {
      var p := StepBack(f, from, to, k - 1);
      assert p == n by {
        assert to == p.child || to == p.sibling;
        assert f.parent[to] == p && f.parent[to] == n;
      }
      StepsRank(f, from, n, k - 1);
      assert false;
    }
  }

  /** In trees, nothing is contained both from a node's child and from its sibling. */
  lemma ChildAndSiblingDisjoint(f: Forest, n: TNode, x: TNode)
    requires f.Unshared() && n in f.nodes && n.child != null && n.sibling != null
    ensures !(IsContained(f, n.child, x) && IsContained(f, n.sibling, x))
  {
    if IsContained(f, n.child, x) && IsContained(f, n.sibling, x) {
      var i := ContainedSteps(f, n.child, x);
      var j := ContainedSteps(f, n.sibling, x);
      Converge(f, n.child, n.sibling, x, i, j);
      if Reaches(f, n.child, n.sibling) {
        var k: nat :| Steps(f, n.child, n.sibling, k);
        NoWalkBetweenLinks(f, n, n.child, n.sibling, k);
      } else {
        var k: nat :| Steps(f, n.sibling, n.child, k);
        NoWalkBetweenLinks(f, n, n.sibling, n.child, k);
      }
      assert false;
    }
  }

  /** In trees, the preorder walk from a node lists any node at most once. */
  lemma {:induction false} PreorderOnce(f: Forest, n: TNode, x: TNode)
    requires f.Unshared() && n in f.nodes
    ensures multiset(Preorder(f, n))[x] <= 1
    decreases f.rank[n]
  {
    var pc := if n.child != null then Preorder(f, n.child) else [];
    var ps := if n.sibling != null then Preorder(f, n.sibling) else [];
    assert Preorder(f, n) == [n] + pc + ps;
    if n.child != null {
      PreorderOnce(f, n.child, x);
    }
    if n.sibling != null {
      PreorderOnce(f, n.sibling, x);
    }
    NotBelowItself(f, n);
    if n.child != null && n.sibling != null {
      InPreorderIffContained(f, n.child, x);
      InPreorderIffContained(f, n.sibling, x);
      ChildAndSiblingDisjoint(f, n, x);
    }
    OnceInThree(n, pc, ps, x);
  }

  /** A node is not in the preorder walk of its child or of its sibling. */
  lemma NotBelowItself(f: Forest, n: TNode)
    requires f.Valid() && n in f.nodes
    ensures n.child != null ==> n !in Preorder(f, n.child)
    ensures n.sibling != null ==> n !in Preorder(f, n.sibling)
  {
    if n.child != null {
      InPreorderIffContained(f, n.child, n);
      ContainedRank(f, n.child, n);
    }
    if n.sibling != null {
      InPreorderIffContained(f, n.sibling, n);
      ContainedRank(f, n.sibling, n);
    }
  }

  /** A head followed by two parts, each listing x at most once and not both, lists x at most once. */
  lemma OnceInThree<T>(n: T, a: seq<T>, b: seq<T>, x: T)
    requires n !in a && n !in b && !(x in a && x in b)
    requires multiset(a)[x] <= 1 && multiset(b)[x] <= 1
    ensures multiset([n] + a + b)[x] <= 1
  {
    assert multiset([n] + a + b) == multiset([n]) + multiset(a) + multiset(b);
  }

  /**
   * gpr_tree_free on trees the corrected add_child and add_sibling built:
   * every node contained from the origin is released exactly once, and
   * no other node is released.
   */
  lemma FreedOnce(f: Forest, n: TNode)
    requires f.Unshared() && n in f.nodes
    ensures forall x :: multiset(FreeOrder(f, n))[x] == if IsContained(f, n, x) then 1 else 0
  {
    FreeOrderPermutesPreorder(f, n);
    forall x
      ensures multiset(FreeOrder(f, n))[x] == if IsContained(f, n, x) then 1 else 0
    {
      PreorderOnce(f, n, x);
      InPreorderIffContained(f, n, x);
    }
  }

  /** The first stage of the unit test's tree: the Big Bang holds the Universe, which holds the answer "42". */
  method BuildAnswer() returns (f: Forest, bigBang: TNode, universe: TNode, fact: TNode)
    ensures fresh(f) && fresh(bigBang) && fresh(universe) && fresh(fact)
    ensures f.Valid() && f.nodes == {bigBang, universe, fact}
    ensures bigBang.child == universe && bigBang.sibling == null
    ensures universe.child == fact && universe.sibling == null
    ensures fact.child == null && fact.sibling == null
    ensures bigBang.labelText == "Big Bang" && universe.labelText == "The Universe" && universe.value == []
    ensures fact.labelText == "Answer to the Ultimate Question of Life, the Universe, and Everything?" && fact.value == "42"
  {
    f := new Forest();
    var n := NewVNode(f, "Big Bang", "The origin of everything", true);
    bigBang := n;
    n := NewChild(f, bigBang, "The Universe", true);
    universe := n;
    n := NewVChild(f, universe, "Answer to the Ultimate Question of Life, the Universe, and Everything?", "42", true);
    fact := n;
  }

  /** The second stage: the asteroids added after the answer, as the Universe's last child. */
  method BuildAsteroids() returns (f: Forest, bigBang: TNode, universe: TNode, fact: TNode, asteroids: TNode)
    ensures fresh(f) && fresh(bigBang) && fresh(universe) && fresh(fact) && fresh(asteroids)
    ensures f.Valid() && f.nodes == {bigBang, universe, fact, asteroids}
    ensures bigBang.child == universe && bigBang.sibling == null
    ensures universe.child == fact && universe.sibling == null
    ensures fact.child == null && fact.sibling == asteroids
    ensures asteroids.child == null && asteroids.sibling == null
    ensures bigBang.labelText == "Big Bang" && universe.labelText == "The Universe" && asteroids.labelText == "Asteroids"
    ensures fact.labelText == "Answer to the Ultimate Question of Life, the Universe, and Everything?" && fact.value == "42"
    ensures universe.value == []
  {
    f, bigBang, universe, fact := BuildAnswer();
    assert ChildOwner(f, universe) == fact;
    var n := NewChild(f, universe, "Asteroids", true);
    asteroids := n;
  }

  /**
   * The tree of the unit test, trimmed to the path that matters: after
   * the answer, the Universe also holds the asteroids, which hold Pluto.
   */
  method BuildUniverse() returns (f: Forest, bigBang: TNode, universe: TNode, fact: TNode, asteroids: TNode, pluto: TNode)
    ensures fresh(f) && fresh(bigBang) && fresh(universe) && fresh(fact) && fresh(asteroids) && fresh(pluto)
    ensures f.Valid() && f.nodes == {bigBang, universe, fact, asteroids, pluto}
    ensures bigBang.child == universe && bigBang.sibling == null
    ensures universe.child == fact && universe.sibling == null
    ensures fact.child == null && fact.sibling == asteroids
    ensures asteroids.child == pluto && asteroids.sibling == null
    ensures pluto.child == null && pluto.sibling == null
    ensures bigBang.labelText == "Big Bang" && universe.labelText == "The Universe" && asteroids.labelText == "Asteroids"
    ensures fact.labelText == "Answer to the Ultimate Question of Life, the Universe, and Everything?" && fact.value == "42"
    ensures universe.value == [] && pluto.labelText == "Pluto" && pluto.value == "Planet or asteroid?"
  {
    f, bigBang, universe, fact, asteroids := BuildAsteroids();
    var n := NewVChild(f, asteroids, "Pluto", "Planet or asteroid?", true);
    pluto := n;
  }

  /**
   * The unit test's checks: searching the Universe by value finds the
   * answer, searching the Big Bang by label finds Pluto, and making the
   * Big Bang a child of Pluto is refused as a loop.
   */
  method UniverseScenario() returns (answer: string, plutoValue: string, err: Err)
    ensures answer == "Answer to the Ultimate Question of Life, the Universe, and Everything?"
    ensures plutoValue == "Planet or asteroid?"
    ensures err == LoopDetected
  {
    var f, bigBang, universe, fact, asteroids, pluto := BuildUniverse();
    assert !Matches(universe, "42", Value);
    assert SearchBy(f, fact, "42", Value) == fact;
    var hit := SearchNodeByValue(f, universe, "42");
    assert hit == fact;
    answer := hit.labelText;
    assert SearchBy(f, pluto, "Pluto", Label) == pluto;
    assert !Matches(asteroids, "Pluto", Label);
    assert SearchBy(f, asteroids, "Pluto", Label) == pluto;
    assert !Matches(fact, "Pluto", Label);
    assert SearchBy(f, fact, "Pluto", Label) == pluto;
    assert !Matches(universe, "Pluto", Label);
    assert SearchBy(f, universe, "Pluto", Label) == pluto;
    assert !Matches(bigBang, "Pluto", Label);
    var found := SearchNodeByLabel(f, bigBang, "Pluto");
    assert found == pluto;
    plutoValue := found.value;
    assert IsContained(f, asteroids, pluto);
    assert IsContained(f, fact, pluto);
    assert IsContained(f, universe, pluto);
    assert IsContained(f, bigBang, pluto);
    err := AddChild(f, pluto, bigBang);
  }
}
