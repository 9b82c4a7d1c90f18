/** The diagnosis walk over a trained decision tree. The tree is the frozen
    artifact a scikit-learn classifier leaves behind: parallel arrays indexed by
    node number, with node 0 the root and `TreeUndefined` as the feature of
    every leaf. One walk asks one yes/no question per internal node from the
    root down, takes the left child when the coded answer is at most the node's
    threshold and the right child otherwise, and records the feature as present
    when it goes right. */
module DecisionTree {
  import opened Text

  /** scikit-learn's `_tree.TREE_UNDEFINED`, the feature index of a leaf. */
  const TreeUndefined: int := -2

  /** The display name given to the feature slot of a leaf. */
  const UndefinedName: string := "undefined!"

  /** The arrays of a fitted tree: `value[i]` holds, per output, the per-class
      weights of the training samples that reach node `i`. */
  datatype SkTree = SkTree(
    feature: seq<int>,
    threshold: seq<real>,
    childrenLeft: seq<int>,
    childrenRight: seq<int>,
    value: seq<seq<seq<real>>>)

  /** One entry per node in every array, and at least the root. */
  predicate Shaped(t: SkTree) {
    && |t.feature| > 0
    && |t.threshold| == |t.feature|
    && |t.childrenLeft| == |t.feature|
    && |t.childrenRight| == |t.feature|
    && |t.value| == |t.feature|
  }

  /** The shape every fitted tree has: one entry per node in every array, a
      valid feature index at each internal node, and children numbered after
      their parent (the depth-first order in which the tree is built), so that
      every walk goes down and ends. */
  predicate WellFormed(t: SkTree, featureCount: nat) {
    && Shaped(t)
    && forall i :: 0 <= i < |t.feature| ==>
         t.feature[i] == TreeUndefined ||
         (&& 0 <= t.feature[i] < featureCount
          && i < t.childrenLeft[i] < |t.feature|
          && i < t.childrenRight[i] < |t.feature|)
  }

  /** A node is a leaf exactly when its feature is `TreeUndefined`. */
  predicate IsLeaf(t: SkTree, node: nat)
    requires node < |t.feature|
  {
    t.feature[node] == TreeUndefined
  }

  /** The question text of each node: the name of its feature, or
      `UndefinedName` at a leaf. */
  function FeatureNames(t: SkTree, names: seq<string>): (r: seq<string>)
    requires WellFormed(t, |names|)
    ensures |r| == |t.feature|
    ensures forall i :: 0 <= i < |r| && !IsLeaf(t, i) ==> r[i] == names[t.feature[i]]
    ensures forall i :: 0 <= i < |r| && IsLeaf(t, i) ==> r[i] == UndefinedName
  {
    seq(|t.feature|, i requires 0 <= i < |t.feature| && WellFormed(t, |names|) =>
      if t.feature[i] != TreeUndefined then names[t.feature[i]] else UndefinedName)
  }

  /** The name asked about at node `node`. */
  function FeatureName(t: SkTree, names: seq<string>, node: nat): string
    requires WellFormed(t, |names|) && node < |t.feature|
  {
    FeatureNames(t, names)[node]
  }

  /** A radio answer coded as a number: 1 for "yes" in any case, 0 otherwise. */
  function Code(answer: string): (r: int)
    ensures r == 1 <==> Lower(answer) == "yes"
    ensures r == 0 <==> Lower(answer) != "yes"
  {
    if Lower(answer) == "yes" then 1 else 0
  }

  /** Whether the answer given for node `node` sends the walk to the right child. */
  predicate GoesRight(t: SkTree, names: seq<string>, answer: string -> string, node: nat)
    requires WellFormed(t, |names|) && node < |t.feature|
  {
    Code(answer(FeatureName(t, names, node))) as real > t.threshold[node]
  }

  /** The outcome of one walk: the internal nodes asked about, in order, the
      names recorded as present, and the leaf reached. */
  datatype Walk = Walk(path: seq<nat>, present: seq<string>, leaf: nat)

  /** `child` is one of the two children of `node`. */
  predicate IsChild(t: SkTree, node: nat, child: nat)
    requires Shaped(t) && node < |t.feature|
  {
    child == t.childrenLeft[node] || child == t.childrenRight[node]
  }

  /** The child of internal node `node` that its answer selects: the left one
      when the coded answer is at most the threshold, else the right one. */
  function Chosen(t: SkTree, names: seq<string>, answer: string -> string, node: nat): int
    requires WellFormed(t, |names|) && node < |t.feature|
  {
    var val := Code(answer(FeatureName(t, names, node)));
    if val as real <= t.threshold[node] then t.childrenLeft[node] else t.childrenRight[node]
  }

  /** `nodes` goes down the tree from `start` one child at a time, through
      internal nodes only, and stops at a leaf. */
  ghost predicate IsDescent(t: SkTree, start: nat, nodes: seq<nat>)
    requires Shaped(t)
  {
    && |nodes| > 0 && nodes[0] == start
    && (forall k :: 0 <= k < |nodes| ==> nodes[k] < |t.feature|)
    && (forall k :: 0 <= k < |nodes| ==> (IsLeaf(t, nodes[k]) <==> k == |nodes| - 1))
    // Consecutive pairs are named by two indices, not by `k` and `k + 1`: a
    // single-index form lets the solver instantiate it without end.
    && (forall i, j :: 0 <= i < j < |nodes| && j == i + 1 ==> IsChild(t, nodes[i], nodes[j]))
  }

  /** The descent `nodes` from `start` is the one the answers dictate: after
      each internal node comes the child its answer selects. */
  ghost predicate FollowsAnswers(t: SkTree, names: seq<string>, answer: string -> string,
                           start: nat, nodes: seq<nat>)
    requires WellFormed(t, |names|)
  {
    && IsDescent(t, start, nodes)
    // Two indices for consecutive nodes, as in IsDescent.
    && forall i, j :: 0 <= i < j < |nodes| && j == i + 1 ==> nodes[j] == Chosen(t, names, answer, nodes[i])
  }

  /** The names of the nodes of `path` whose answers send the walk right, in
      path order. */
  function RightTurnNames(t: SkTree, names: seq<string>, answer: string -> string, path: seq<nat>): (r: seq<string>)
    requires WellFormed(t, |names|)
    requires forall k :: 0 <= k < |path| ==> path[k] < |t.feature|
    ensures |r| <= |path|
  {
    if |path| == 0 then []
    else
      var rest := RightTurnNames(t, names, answer, path[1..]);
      if GoesRight(t, names, answer, path[0]) then [FeatureName(t, names, path[0])] + rest else rest
  }

  /** The questions asked along `path`: the name of each of its nodes. */
  function Questions(t: SkTree, names: seq<string>, path: seq<nat>): (r: seq<string>)
    requires WellFormed(t, |names|)
    requires forall k :: 0 <= k < |path| ==> path[k] < |t.feature|
    ensures |r| == |path|
    ensures forall k :: 0 <= k < |path| ==> r[k] == FeatureName(t, names, path[k])
  {
    seq(|path|, k requires 0 <= k < |path| && WellFormed(t, |names|)
                          && (forall j :: 0 <= j < |path| ==> path[j] < |t.feature|) =>
      FeatureName(t, names, path[k]))
  }

  /** The `recurse` walk from `node`: at an internal node ask its question,
      code the answer, and go left when the code is at most the threshold,
      otherwise record the name and go right; at a leaf stop. The walk follows
      the answers down to a leaf, records exactly the right turns in order,
      and visits strictly increasing node numbers, so it asks fewer questions
      than there are nodes below `node`. */
  function Recurse(t: SkTree, names: seq<string>, answer: string -> string, node: nat): (w: Walk)
    requires WellFormed(t, |names|) && node < |t.feature|
    ensures FollowsAnswers(t, names, answer, node, w.path + [w.leaf])
    ensures w.leaf < |t.feature| && IsLeaf(t, w.leaf)
    ensures forall k :: 0 <= k < |w.path| ==> w.path[k] < |t.feature|
    ensures w.present == RightTurnNames(t, names, answer, w.path)
    ensures node <= w.leaf && |w.path| <= w.leaf - node
    ensures forall k :: 0 <= k < |w.path| ==> node <= w.path[k] < w.leaf
    ensures forall i, j :: 0 <= i < j < |w.path| ==> w.path[i] < w.path[j]
    decreases |t.feature| - node
  {
    if t.feature[node] != TreeUndefined then
      var name := FeatureName(t, names, node);
      var w := Recurse(t, names, answer, Chosen(t, names, answer, node));
      var present := if GoesRight(t, names, answer, node) then [name] + w.present else w.present;
      RecurseStep(t, names, answer, node, w, Walk([node] + w.path, present, w.leaf));
      IncreasingCons(node, Chosen(t, names, answer, node), w.path, w.leaf);
      Walk([node] + w.path, present, w.leaf)
    else
      Walk([], [], node)
  }

  /** One step of `Recurse` at an internal node: the walk from the chosen
      child, with the node put in front (and its name recorded on a right
      turn), follows the answers from the node and records its right turns. */
  lemma RecurseStep(t: SkTree, names: seq<string>, answer: string -> string, node: nat, w: Walk, r: Walk)
    requires WellFormed(t, |names|) && node < |t.feature| && !IsLeaf(t, node)
    requires FollowsAnswers(t, names, answer, Chosen(t, names, answer, node), w.path + [w.leaf])
    requires w.leaf < |t.feature| && IsLeaf(t, w.leaf)
    requires forall k :: 0 <= k < |w.path| ==> w.path[k] < |t.feature|
    requires w.present == RightTurnNames(t, names, answer, w.path)
    requires r.path == [node] + w.path && r.leaf == w.leaf
    requires r.present == if GoesRight(t, names, answer, node) then [FeatureName(t, names, node)] + w.present else w.present
    ensures FollowsAnswers(t, names, answer, node, r.path + [r.leaf])
    ensures forall k :: 0 <= k < |r.path| ==> r.path[k] < |t.feature|
    ensures r.present == RightTurnNames(t, names, answer, r.path)
  {
    StepDown(t, names, answer, node, w.path + [w.leaf]);
    RightTurnStep(t, names, answer, node, w.path);
    assert [node] + (w.path + [w.leaf]) == r.path + [r.leaf];
  }

  /** A node below the first node of a walk's increasing path, all of whose
      nodes lie below the leaf, starts a longer such path. */
  lemma IncreasingCons(node: nat, child: nat, path: seq<nat>, leaf: nat)
    requires node < child
    requires forall k :: 0 <= k < |path| ==> child <= path[k] < leaf
    requires forall i, j :: 0 <= i < j < |path| ==> path[i] < path[j]
    requires child <= leaf && |path| <= leaf - child
    ensures forall k :: 0 <= k < |[node] + path| ==> node <= ([node] + path)[k] < leaf
    ensures forall i, j :: 0 <= i < j < |[node] + path| ==> ([node] + path)[i] < ([node] + path)[j]
    ensures node <= leaf && |[node] + path| <= leaf - node
  {
  }

  /** Prefixing an internal node to a descent from the child its answer
      chooses gives a descent from that node that follows the answers. */
  lemma StepDown(t: SkTree, names: seq<string>, answer: string -> string, node: nat, nodes: seq<nat>)
    requires WellFormed(t, |names|) && node < |t.feature| && !IsLeaf(t, node)
    requires FollowsAnswers(t, names, answer, Chosen(t, names, answer, node), nodes)
    ensures FollowsAnswers(t, names, answer, node, [node] + nodes)
  {
  }

  /** One step adds the node's name to the recorded names exactly when the
      walk turns right there. */
  lemma RightTurnStep(t: SkTree, names: seq<string>, answer: string -> string, node: nat, path: seq<nat>)
    requires WellFormed(t, |names|) && node < |t.feature|
    requires forall k :: 0 <= k < |path| ==> path[k] < |t.feature|
    ensures forall k :: 0 <= k < |[node] + path| ==> ([node] + path)[k] < |t.feature|
    ensures RightTurnNames(t, names, answer, [node] + path) ==
      (if GoesRight(t, names, answer, node) then [FeatureName(t, names, node)] else [])
        + RightTurnNames(t, names, answer, path)
  {
  }

  /** The walk from the root, as `recurse(0, 1)` starts it. */
  function WalkFromRoot(t: SkTree, names: seq<string>, answer: string -> string): (w: Walk)
    requires WellFormed(t, |names|)
    ensures FollowsAnswers(t, names, answer, 0, w.path + [w.leaf])
    ensures w.leaf < |t.feature| && IsLeaf(t, w.leaf)
    ensures |w.present| <= |w.path| < |t.feature|
  {
    Recurse(t, names, answer, 0)
  }

  /** The walk is the only descent that follows the answers: any descent from
      `node` that turns the way each answer dictates asks exactly the walk's
      questions and stops at the walk's leaf. */
  lemma {:induction false} WalkDetermined(t: SkTree, names: seq<string>, answer: string -> string,
                                          node: nat, nodes: seq<nat>)
    requires WellFormed(t, |names|) && node < |t.feature|
    requires FollowsAnswers(t, names, answer, node, nodes)
    ensures Recurse(t, names, answer, node).path + [Recurse(t, names, answer, node).leaf] == nodes
    decreases |nodes|
  {
    if |nodes| > 1 {
      var child := nodes[1];
      var tail := nodes[1..];
      assert child == Chosen(t, names, answer, nodes[0]);
      forall i, j | 0 <= i < j < |tail| && j == i + 1
        ensures IsChild(t, tail[i], tail[j]) && tail[j] == Chosen(t, names, answer, tail[i])
      {
        assert tail[i] == nodes[i + 1] && tail[j] == nodes[j + 1];
      }
      assert forall k :: 0 <= k < |tail| ==> tail[k] == nodes[k + 1];
      assert FollowsAnswers(t, names, answer, child, tail);
      WalkDetermined(t, names, answer, child, tail);
      assert nodes == [node] + tail;
    }
  }

  /** The tree as a nested value: a leaf keeps its class weights, an internal
      node its question, threshold and two subtrees. */
  datatype Tree =
    | Leaf(value: seq<seq<real>>)
    | Node(question: string, threshold: real, left: Tree, right: Tree)

  function Height(tree: Tree): nat {
    match tree
    case Leaf(_) => 0
    case Node(_, _, l, r) => 1 + (if Height(l) < Height(r) then Height(r) else Height(l))
  }

  /** The subtree of the arrays rooted at `node`. */
  function Build(t: SkTree, names: seq<string>, node: nat): (tree: Tree)
    requires WellFormed(t, |names|) && node < |t.feature|
    ensures tree.Leaf? <==> IsLeaf(t, node)
    decreases |t.feature| - node
  {
    if IsLeaf(t, node) then Leaf(t.value[node])
    else Node(FeatureName(t, names, node), t.threshold[node],
              Build(t, names, t.childrenLeft[node]), Build(t, names, t.childrenRight[node]))
  }

  /** What one walk down a nested tree yields: the questions asked, the names
      recorded as present, and the weights at the leaf reached. */
  datatype Visit = Visit(questions: seq<string>, present: seq<string>, value: seq<seq<real>>)

  /** The walk on the nested tree. It asks at most one question per level and
      records a subsequence of its questions. */
  function Descend(tree: Tree, answer: string -> string): (v: Visit)
    ensures |v.present| <= |v.questions| <= Height(tree)
  {
    match tree
    case Leaf(value) => Visit([], [], value)
    case Node(q, th, l, r) =>
      if Code(answer(q)) as real <= th then
        var v := Descend(l, answer);
        Visit([q] + v.questions, v.present, v.value)
      else
        var v := Descend(r, answer);
        Visit([q] + v.questions, [q] + v.present, v.value)
  }

  /** The walk over the arrays and the walk over the nested tree agree: same
      questions in the same order, same names recorded, same leaf weights. */
  lemma {:induction false} WalkMatchesNestedTree(t: SkTree, names: seq<string>, answer: string -> string, node: nat)
    requires WellFormed(t, |names|) && node < |t.feature|
    ensures var w := Recurse(t, names, answer, node);
      Descend(Build(t, names, node), answer)
        == Visit(Questions(t, names, w.path), w.present, t.value[w.leaf])
    decreases |t.feature| - node
  {
    if !IsLeaf(t, node) {
      var q := FeatureName(t, names, node);
      var w := Recurse(t, names, answer, node);
      var left, right := t.childrenLeft[node], t.childrenRight[node];
      assert Build(t, names, node) == Node(q, t.threshold[node], Build(t, names, left), Build(t, names, right));
      if GoesRight(t, names, answer, node) {
        var w' := Recurse(t, names, answer, right);
        assert w == Walk([node] + w'.path, [q] + w'.present, w'.leaf);
        WalkMatchesNestedTree(t, names, answer, right);
        QuestionsCons(t, names, node, w'.path);
      } else {
        var w' := Recurse(t, names, answer, left);
        assert w == Walk([node] + w'.path, w'.present, w'.leaf);
        WalkMatchesNestedTree(t, names, answer, left);
        QuestionsCons(t, names, node, w'.path);
      }
    }
  }

  lemma QuestionsCons(t: SkTree, names: seq<string>, node: nat, path: seq<nat>)
    requires WellFormed(t, |names|) && node < |t.feature|
    requires forall k :: 0 <= k < |path| ==> path[k] < |t.feature|
    ensures Questions(t, names, [node] + path) == [FeatureName(t, names, node)] + Questions(t, names, path)
  {
  }
}
