/**
 * The binary tree of `tools/leetcode-helpers.ts`: the `TreeNode` class,
 * `buildTree` and `treeToArray`, both working breadth first over LeetCode's
 * level-order array, where `null` marks a missing child.
 *
 * A slot of the array is a position in it. Slot 0 is the root; the node
 * created `k`-th (counting the root as the 0th) takes its children from slots
 * `2k + 1` and `2k + 2`, and the node made from slot `s` is the one created
 * `Before(values, s)`-th, where `Before` counts the values present before `s`.
 * `Shaped(root, made, values)` describes the nodes `made`, in creation order,
 * by these rules; `Canonical(values)` is the array that `treeToArray` writes
 * for a tree: every slot has a parent node, and the last value is present.
 */
module TreeHelpers {
  import opened Wrappers

  class TreeNode {
    var val: int
    var left: TreeNode?
    var right: TreeNode?

    /** `new TreeNode(val?, left?, right?)`: an absent value is 0, an absent child `null`. */
    constructor (val: Option<int>, left: TreeNode?, right: TreeNode?)
      ensures this.val == val.GetOr(0) && this.left == left && this.right == right
    {
      this.val := val.GetOr(0);
      this.left := left;
      this.right := right;
    }
  }

  /** How many values are present in the first `s` slots. */
  function Before(values: seq<Option<int>>, s: nat): (n: nat)
    requires s <= |values|
    ensures n <= s
  {
    if s == 0 then 0 else Before(values, s - 1) + (if values[s - 1].Some? then 1 else 0)
  }

  /** `Before` never decreases along the array. */
  lemma {:induction false} BeforeMonotone(values: seq<Option<int>>, s: nat, t: nat)
    requires s <= t <= |values|
    ensures Before(values, s) <= Before(values, t)
    decreases t - s
  {
    if s < t {
      BeforeMonotone(values, s, t - 1);
    }
  }

  function Min(a: nat, b: nat): nat {
    if a <= b then a else b
  }

  /** The node made from slot `s`, or `null` when the slot is past the array, holds `null`, or was never read. */
  function Child(values: seq<Option<int>>, made: seq<TreeNode>, s: nat): TreeNode? {
    if s < |values| && values[s].Some? && Before(values, s) < |made| then made[Before(values, s)] else null
  }

  /** Distinct nodes. */
  predicate Distinct(made: seq<TreeNode>) {
    forall i, j :: 0 <= i < j < |made| ==> made[i] != made[j]
  }

  /**
   * The nodes `made`, in creation order, form the tree that `values` spells
   * from `root`: the first `|made|` values present in the slots that were read
   * (all of the array, or the slots of the children of the `|made|` nodes)
   * are the nodes' values, and each node's children are the nodes of its two
   * slots.
   */
  ghost predicate Shaped(root: TreeNode, made: seq<TreeNode>, values: seq<Option<int>>)
    reads made
  {
    |made| >= 1 && root == made[0] && Distinct(made) &&
    |made| == Before(values, Min(|values|, 1 + 2 * |made|)) &&
    (forall s :: 0 <= s < Min(|values|, 1 + 2 * |made|) && values[s].Some? ==>
      Before(values, s) < |made| && made[Before(values, s)].val == values[s].value) &&
    (forall k :: 0 <= k < |made| ==>
      made[k].left == Child(values, made, 2 * k + 1) && made[k].right == Child(values, made, 2 * k + 2))
  }

  /** The array `treeToArray` writes: a root, a parent node for every slot, and no `null` at the end. */
  predicate Canonical(values: seq<Option<int>>) {
    |values| >= 1 && values[0].Some? && values[|values| - 1].Some? &&
    forall s :: 0 < s < |values| ==> s <= 2 * Before(values, s)
  }

  /**
   * `buildTree(values)`: `null` for a `null` or empty array or a missing root;
   * otherwise fresh nodes in the shape `values` spells. Reading stops once no
   * node waits for children, so values past that point are ignored.
   */
  method BuildTree(values: Option<seq<Option<int>>>) returns (root: TreeNode?, ghost made: seq<TreeNode>)
    ensures root == null <==> values.None? || |values.value| == 0 || values.value[0].None?
    ensures root != null ==> Shaped(root, made, values.value)
    ensures forall n :: n in made ==> fresh(n)
  {
    if values.None? || |values.value| == 0 {
      return null, [];
    }
    var xs := values.value;
    var rootValue := xs[0];
    if rootValue.None? {
      return null, [];
    }
    var top := new TreeNode(rootValue, null, null);
    root := top;
    made := Grow(top, xs);
  }

  /** The loop of `buildTree`, from a root holding the first value. */
  method Grow(top: TreeNode, xs: seq<Option<int>>) returns (ghost made: seq<TreeNode>)
    requires |xs| >= 1 && xs[0].Some?
    requires top.val == xs[0].value && top.left == null && top.right == null
    modifies top
    ensures Shaped(top, made, xs)
    ensures forall n :: n in made ==> n == top || fresh(n)
  {
    made := [top];
    var queue := [top];
    var index := 1;
    ghost var q := 0;
    ghost var layout := [Slot(xs[0].value, None, None)];
    FilledStep(xs, 0);
    while |queue| > 0 && index < |xs|
      invariant q <= |made| && queue == made[q..] && index == 2 * q + 1
      invariant |made| >= 1 && made[0] == top && Distinct(made)
      invariant forall n :: n in made ==> n == top || fresh(n)
      invariant Reading(xs, layout, q) && Mirrors(made, layout)
      decreases |xs| - index
    {
      var node := queue[0];
      assert node == made[q] && node in made;
      queue := queue[1..];
      var added := TakeChildren(node, xs, index, made, layout, q);
      index := index + 2;
      QueueAdvances(made, added, q);
      queue := queue + added;
      made := made + added;
      StepReads(xs, layout, q);
      layout := Step(xs, layout, q);
      q := q + 1;
    }
    ShapedFromLayout(top, made, layout, xs, q);
  }

  /** Taking the head off the queue of the nodes after the first `q` and appending new ones queues the nodes after the first `q + 1`. */
  lemma QueueAdvances(made: seq<TreeNode>, added: seq<TreeNode>, q: nat)
    requires q < |made|
    ensures made[q..][1..] + added == (made + added)[q + 1..]
  {
  }

  /**
   * One turn of `buildTree`'s loop for `node`: the values of slots `index` and
   * `index + 1`, when present, become its new left and right children, which
   * come back in that order to be queued.
   */
  method TakeChildren(node: TreeNode, xs: seq<Option<int>>, index: nat,
                      ghost made: seq<TreeNode>, ghost layout: seq<Slot>, ghost q: nat)
      returns (added: seq<TreeNode>)
    requires index == 2 * q + 1 < |xs| && q < |made| && node == made[q]
    requires Distinct(made) && Mirrors(made, layout) && |made| == Filled(xs, index)
    requires layout[q].left.None? && layout[q].right.None?
    requires forall k :: 0 <= k < |layout| ==> Below(layout[k].left, |layout|) && Below(layout[k].right, |layout|)
    modifies node
    ensures Distinct(made + added) && Mirrors(made + added, Step(xs, layout, q))
    ensures forall n :: n in added ==> fresh(n)
  {
    assert node.left == null && node.right == null;
    assert forall k :: 0 <= k < |made| && k != q ==> NodeMirrors(made, layout[k], k);
    added := [];
    var leftValue := xs[index];
    if leftValue.Some? {
      var child := new TreeNode(leftValue, null, null);
      node.left := child;
      added := added + [child];
    }
    var rightValue := if index + 1 < |xs| then xs[index + 1] else None;
    if rightValue.Some? {
      var child := new TreeNode(rightValue, null, null);
      node.right := child;
      added := added + [child];
    }
    TurnMirrors(xs, made, added, layout, q);
  }

  /**
   * A turn of the loop as the heap sees it afterwards: node `q` keeps its
   * value and has the new nodes as children, the new nodes are leaves
   * holding their slots' values, and every other node still holds its slot.
   */
  ghost predicate Turned(xs: seq<Option<int>>, made: seq<TreeNode>, added: seq<TreeNode>, layout: seq<Slot>, q: nat)
    reads made, added
  {
    q < |made| && 2 * q + 1 < |xs| && |made| == Filled(xs, 2 * q + 1) && |layout| == |made| &&
    Distinct(made) &&
    (forall k :: 0 <= k < |layout| ==> Below(layout[k].left, |layout|) && Below(layout[k].right, |layout|)) &&
    (forall k :: 0 <= k < |made| && k != q ==> NodeMirrors(made, layout[k], k)) &&
    made[q].val == layout[q].val &&
    |added| == |Made(xs, 2 * q + 1)| + |Made(xs, 2 * q + 2)| &&
    (forall j :: 0 <= j < |added| ==> added[j] !in made && added[j].left == null && added[j].right == null) &&
    (|added| == 2 ==> added[0] != added[1]) &&
    made[q].left == (if xs[2 * q + 1].Some? then added[0] else null) &&
    made[q].right == (if 2 * q + 2 < |xs| && xs[2 * q + 2].Some? then added[|added| - 1] else null) &&
    (xs[2 * q + 1].Some? ==> added[0].val == xs[2 * q + 1].value) &&
    (2 * q + 2 < |xs| && xs[2 * q + 2].Some? ==> added[|added| - 1].val == xs[2 * q + 2].value)
  }

  /** After a turn the nodes, old and new, follow the layout of the turn. */
  lemma TurnMirrors(xs: seq<Option<int>>, made: seq<TreeNode>, added: seq<TreeNode>, layout: seq<Slot>, q: nat)
    requires Turned(xs, made, added, layout, q)
    ensures Distinct(made + added) && Mirrors(made + added, Step(xs, layout, q))
  {
    StepAddsValues(xs, layout, q);
    forall k | 0 <= k < |made + added|
      ensures NodeMirrors(made + added, Step(xs, layout, q)[k], k)
    {
      TurnNodeAt(xs, made, added, layout, q, k);
    }
  }

  /** Node `k` after a turn holds the value and links of its slot in the layout of the turn. */
  lemma TurnNodeAt(xs: seq<Option<int>>, made: seq<TreeNode>, added: seq<TreeNode>, layout: seq<Slot>, q: nat, k: nat)
    requires Turned(xs, made, added, layout, q) && k < |made + added|
    ensures k < |Step(xs, layout, q)| && NodeMirrors(made + added, Step(xs, layout, q)[k], k)
  {
    var m, all := |made|, made + added;
    StepAddsValues(xs, layout, q);
    FilledStep(xs, 2 * q + 1);
    assert Before(xs, 2 * q + 1) == m;
    StepLinkAt(xs, layout, q, k);
    if k < m {
      assert all[k] == made[k];
      if k != q {
        assert NodeMirrors(made, layout[k], k);
      }
    }
  }

  // ---------------------------------------------------------------------------
  // The tree `buildTree` makes, as values: node `k` of the creation order is
  // `layout[k]`, with its children given by their places in that order.

  datatype Slot = Slot(val: int, left: Option<nat>, right: Option<nat>)

  /** The place in creation order of the node made from slot `s`, if it holds a value. */
  function ChildIndex(values: seq<Option<int>>, s: nat): Option<nat> {
    if s < |values| && values[s].Some? then Some(Before(values, s)) else None
  }

  /** The node at a place, `null` for none. */
  function Link(made: seq<TreeNode>, o: Option<nat>): TreeNode? {
    if o.Some? && o.value < |made| then made[o.value] else null
  }

  /** The nodes hold the values and links of the layout. */
  ghost predicate Mirrors(made: seq<TreeNode>, layout: seq<Slot>)
    reads made
  {
    |made| == |layout| && forall k :: 0 <= k < |made| ==> NodeMirrors(made, layout[k], k)
  }

  /** Node `k` holds the value and links of `slot`. */
  ghost predicate NodeMirrors(made: seq<TreeNode>, slot: Slot, k: nat)
    reads if k < |made| then {made[k]} else {}
  {
    k < |made| && made[k].val == slot.val && made[k].left == Link(made, slot.left) && made[k].right == Link(made, slot.right)
  }

  function Below(o: Option<nat>, n: nat): bool {
    o.None? || o.value < n
  }

  /**
   * The layout after `buildTree` has taken `q` nodes off its queue: one node
   * per value present in the slots read so far, holding it; the children of
   * the first `q` nodes set from their slots, the others' not yet.
   */
  predicate Reading(xs: seq<Option<int>>, layout: seq<Slot>, q: nat) {
    q <= |layout| && |layout| == Filled(xs, 2 * q + 1) &&
    (forall s :: 0 <= s < Min(|xs|, 2 * q + 1) && xs[s].Some? ==>
      Before(xs, s) < |layout| && layout[Before(xs, s)].val == xs[s].value) &&
    (forall k :: 0 <= k < q ==>
      layout[k].left == ChildIndex(xs, 2 * k + 1) && layout[k].right == ChildIndex(xs, 2 * k + 2)) &&
    (forall k :: q <= k < |layout| ==> layout[k].left.None? && layout[k].right.None?) &&
    (forall k :: 0 <= k < |layout| ==> Below(layout[k].left, |layout|) && Below(layout[k].right, |layout|))
  }

  /** The node made from slot `s`, when it holds a value. */
  function Made(xs: seq<Option<int>>, s: nat): seq<Slot> {
    if s < |xs| && xs[s].Some? then [Slot(xs[s].value, None, None)] else []
  }

  /** One turn of the loop: node `q` reads slots `2q + 1` and `2q + 2`, each value present becoming a new node. */
  function Step(xs: seq<Option<int>>, layout: seq<Slot>, q: nat): seq<Slot>
    requires q < |layout|
  {
    var grown := layout + Made(xs, 2 * q + 1) + Made(xs, 2 * q + 2);
    grown[q := Slot(layout[q].val, ChildIndex(xs, 2 * q + 1), ChildIndex(xs, 2 * q + 2))]
  }

  /** A turn of the loop keeps the layout a reading of the array. */
  lemma StepReads(xs: seq<Option<int>>, layout: seq<Slot>, q: nat)
    requires Reading(xs, layout, q) && q < |layout| && 2 * q + 1 < |xs|
    ensures Reading(xs, Step(xs, layout, q), q + 1)
  {
    FilledStep(xs, 2 * q + 1);
    FilledStep(xs, 2 * q + 2);
    StepValues(xs, layout, q);
    StepLinks(xs, layout, q);
  }

  /** After a turn, every value read so far is held by its node. */
  lemma StepValues(xs: seq<Option<int>>, layout: seq<Slot>, q: nat)
    requires q < |layout| && 2 * q + 1 < |xs| && |layout| == Filled(xs, 2 * q + 1)
    requires forall s :: 0 <= s < 2 * q + 1 && xs[s].Some? ==>
      Before(xs, s) < |layout| && layout[Before(xs, s)].val == xs[s].value
    ensures |Step(xs, layout, q)| == Filled(xs, 2 * (q + 1) + 1)
    ensures forall s :: 0 <= s < Min(|xs|, 2 * (q + 1) + 1) && xs[s].Some? ==>
      Before(xs, s) < |Step(xs, layout, q)| && Step(xs, layout, q)[Before(xs, s)].val == xs[s].value
  {
    FilledStep(xs, 2 * q + 1);
    FilledStep(xs, 2 * q + 2);
    StepAddsValues(xs, layout, q);
    forall s | 0 <= s < Min(|xs|, 2 * (q + 1) + 1) && xs[s].Some?
      ensures Before(xs, s) < |Step(xs, layout, q)| && Step(xs, layout, q)[Before(xs, s)].val == xs[s].value
    {
      StepValueAt(xs, layout, q, s);
    }
  }

  /** The value of slot `s` after a turn: an old node's, or one of the two new ones. */
  lemma StepValueAt(xs: seq<Option<int>>, layout: seq<Slot>, q: nat, s: nat)
    requires q < |layout| && 2 * q + 1 < |xs| && |layout| == Before(xs, 2 * q + 1)
    requires s < Min(|xs|, 2 * q + 3) && xs[s].Some?
    requires s < 2 * q + 1 ==> Before(xs, s) < |layout| && layout[Before(xs, s)].val == xs[s].value
    ensures Before(xs, s) < |Step(xs, layout, q)| && Step(xs, layout, q)[Before(xs, s)].val == xs[s].value
  {
    StepAddsValues(xs, layout, q);
    if s < 2 * q + 1 {
      StepKeepsValue(xs, layout, q, Before(xs, s));
    } else if s == 2 * q + 2 {
      assert Before(xs, s) == |layout| + |Made(xs, 2 * q + 1)|;
    }
  }

  /** A turn keeps the value of every node already in the layout. */
  lemma StepKeepsValue(xs: seq<Option<int>>, layout: seq<Slot>, q: nat, i: nat)
    requires q < |layout| && i < |layout|
    ensures i < |Step(xs, layout, q)| && Step(xs, layout, q)[i].val == layout[i].val
  {
  }

  /** A turn appends the node of slot `2q + 1` and then that of slot `2q + 2`, each when present. */
  lemma StepAddsValues(xs: seq<Option<int>>, layout: seq<Slot>, q: nat)
    requires q < |layout|
    ensures |Step(xs, layout, q)| == |layout| + |Made(xs, 2 * q + 1)| + |Made(xs, 2 * q + 2)|
    ensures 2 * q + 1 < |xs| && xs[2 * q + 1].Some? ==>
      Step(xs, layout, q)[|layout|].val == xs[2 * q + 1].value
    ensures 2 * q + 2 < |xs| && xs[2 * q + 2].Some? ==>
      Step(xs, layout, q)[|layout| + |Made(xs, 2 * q + 1)|].val == xs[2 * q + 2].value
  {
  }

  /** After a turn, node `q` has its children and every link stays within the layout. */
  lemma StepLinks(xs: seq<Option<int>>, layout: seq<Slot>, q: nat)
    requires q < |layout| && 2 * q + 1 < |xs| && |layout| == Filled(xs, 2 * q + 1)
    requires forall k :: 0 <= k < q ==>
      layout[k].left == ChildIndex(xs, 2 * k + 1) && layout[k].right == ChildIndex(xs, 2 * k + 2)
    requires forall k :: q <= k < |layout| ==> layout[k].left.None? && layout[k].right.None?
    requires forall k :: 0 <= k < |layout| ==> Below(layout[k].left, |layout|) && Below(layout[k].right, |layout|)
    ensures forall k :: 0 <= k < q + 1 ==>
      Step(xs, layout, q)[k].left == ChildIndex(xs, 2 * k + 1) && Step(xs, layout, q)[k].right == ChildIndex(xs, 2 * k + 2)
    ensures forall k :: q + 1 <= k < |Step(xs, layout, q)| ==>
      Step(xs, layout, q)[k].left.None? && Step(xs, layout, q)[k].right.None?
    ensures forall k :: 0 <= k < |Step(xs, layout, q)| ==>
      Below(Step(xs, layout, q)[k].left, |Step(xs, layout, q)|) && Below(Step(xs, layout, q)[k].right, |Step(xs, layout, q)|)
  {
    StepAddsValues(xs, layout, q);
    var n := |Step(xs, layout, q)|;
    forall k | 0 <= k < q + 1
      ensures Step(xs, layout, q)[k].left == ChildIndex(xs, 2 * k + 1) && Step(xs, layout, q)[k].right == ChildIndex(xs, 2 * k + 2)
    {
      StepLinkAt(xs, layout, q, k);
    }
    forall k | q + 1 <= k < n
      ensures Step(xs, layout, q)[k].left.None? && Step(xs, layout, q)[k].right.None?
    {
      StepLinkAt(xs, layout, q, k);
    }
    forall k | 0 <= k < n
      ensures Below(Step(xs, layout, q)[k].left, n) && Below(Step(xs, layout, q)[k].right, n)
    {
      StepLinkAt(xs, layout, q, k);
    }
  }

  /** The links of node `k` after a turn: node `q`'s new children, an old node's links, or none for a new node. */
  lemma StepLinkAt(xs: seq<Option<int>>, layout: seq<Slot>, q: nat, k: nat)
    requires q < |layout| && 2 * q + 1 < |xs| && |layout| == Filled(xs, 2 * q + 1)
    requires k < |Step(xs, layout, q)|
    ensures k == q ==>
      (Step(xs, layout, q)[k].left == ChildIndex(xs, 2 * q + 1) &&
       Step(xs, layout, q)[k].right == ChildIndex(xs, 2 * q + 2) &&
       Below(Step(xs, layout, q)[k].left, |Step(xs, layout, q)|) && Below(Step(xs, layout, q)[k].right, |Step(xs, layout, q)|))
    ensures k != q && k < |layout| ==> Step(xs, layout, q)[k] == layout[k]
    ensures k >= |layout| ==> Step(xs, layout, q)[k].left.None? && Step(xs, layout, q)[k].right.None?
  {
    StepAddsValues(xs, layout, q);
    FilledStep(xs, 2 * q + 1);
  }

  /** When the loop stops, the layout it followed is the shape the array spells. */
  lemma ShapedFromLayout(root: TreeNode, made: seq<TreeNode>, layout: seq<Slot>, xs: seq<Option<int>>, q: nat)
    requires Reading(xs, layout, q) && Mirrors(made, layout)
    requires |made| >= 1 && made[0] == root && Distinct(made)
    requires q == |layout| || 2 * q + 1 >= |xs|
    ensures Shaped(root, made, xs)
  {
    var n := Min(|xs|, 1 + 2 * |made|);
    assert n == Min(|xs|, 2 * q + 1);
    forall s | 0 <= s < n && xs[s].Some?
      ensures Before(xs, s) < |made| && made[Before(xs, s)].val == xs[s].value
    {
      var i := Before(xs, s);
      assert NodeMirrors(made, layout[i], i);
    }
    forall k | 0 <= k < |made|
      ensures made[k].left == Child(xs, made, 2 * k + 1) && made[k].right == Child(xs, made, 2 * k + 2)
    {
      NodeChildren(made, layout, xs, q, k);
    }
    assert |made| == Before(xs, n);
    assert |made| >= 1 && root == made[0] && Distinct(made);
  }

  /** Node `k`'s links are the nodes of its two slots: set by its turn, or `null` for slots past the array. */
  lemma NodeChildren(made: seq<TreeNode>, layout: seq<Slot>, xs: seq<Option<int>>, q: nat, k: nat)
    requires Reading(xs, layout, q) && Mirrors(made, layout)
    requires q == |layout| || 2 * q + 1 >= |xs|
    requires k < |made|
    ensures made[k].left == Child(xs, made, 2 * k + 1) && made[k].right == Child(xs, made, 2 * k + 2)
  {
    assert NodeMirrors(made, layout[k], k);
    if k < q {
      assert layout[k].left == ChildIndex(xs, 2 * k + 1) && layout[k].right == ChildIndex(xs, 2 * k + 2);
    } else {
      assert layout[k].left.None? && layout[k].right.None?;
    }
  }

  /** The array read slot by slot, `null` past its end. */
  function Padded(values: seq<Option<int>>, n: nat): (r: seq<Option<int>>)
    ensures |r| == n
  {
    seq(n, i requires 0 <= i < n => if i < |values| then values[i] else None)
  }

  /** Values present in the first `e` slots, counting none past the end. */
  function Filled(values: seq<Option<int>>, e: nat): nat {
    Before(values, Min(e, |values|))
  }

  /** A canonical array spells a tree with one node per value present. */
  lemma CanonicalCount(root: TreeNode, made: seq<TreeNode>, values: seq<Option<int>>)
    requires Shaped(root, made, values) && Canonical(values)
    ensures |made| == Before(values, |values|) && |values| <= 1 + 2 * |made|
  {
  }

  /** The queue runs empty only after every slot of a canonical array. */
  lemma QueueOutlastsValues(values: seq<Option<int>>, e: nat)
    requires Canonical(values) && e == 1 + 2 * Filled(values, e)
    ensures e >= |values|
  {
  }

  /** The queue of `treeToArray` while slot `e` is next and slot `end` is the first not yet queued: the slots' nodes or `null`s. */
  function Pending(values: seq<Option<int>>, made: seq<TreeNode>, e: nat, end: nat): (r: seq<TreeNode?>)
    ensures |r| == if e <= end then end - e else 0
    decreases end - e
  {
    if e < end then [Child(values, made, e)] + Pending(values, made, e + 1, end) else []
  }

  /** Taking the head off the queue moves on to the next slot. */
  lemma PendingShrinks(values: seq<Option<int>>, made: seq<TreeNode>, e: nat, end: nat)
    requires e < end
    ensures Pending(values, made, e, end)[0] == Child(values, made, e)
    ensures Pending(values, made, e, end)[1..] == Pending(values, made, e + 1, end)
  {
  }

  /** Queuing a node's two children queues the next two slots. */
  lemma {:induction false} PendingGrows(values: seq<Option<int>>, made: seq<TreeNode>, e: nat, end: nat)
    requires e <= end
    ensures Pending(values, made, e, end) + [Child(values, made, end), Child(values, made, end + 1)]
      == Pending(values, made, e, end + 2)
    decreases end - e
  {
    if e < end {
      PendingGrows(values, made, e + 1, end);
    } else {
      assert Pending(values, made, e + 1, end + 2) == [Child(values, made, end + 1)] + Pending(values, made, e + 2, end + 2);
    }
  }

  /** Reading one more slot adds that slot's value, or `null` past the end. */
  lemma PaddedStep(values: seq<Option<int>>, e: nat)
    ensures Padded(values, e + 1) == Padded(values, e) + [if e < |values| then values[e] else None]
  {
  }

  /** One more slot counts one more value exactly when it holds one. */
  lemma FilledStep(values: seq<Option<int>>, e: nat)
    ensures Filled(values, e + 1) == Filled(values, e) + (if e < |values| && values[e].Some? then 1 else 0)
  {
  }

  /**
   * In the tree a canonical array spells, the node of slot `e` is the
   * `Filled(values, e)`-th one met, it holds the slot's value, and its children
   * are the nodes of the two slots after the `Filled(values, e)` nodes' slots.
   */
  lemma NodeOfSlot(root: TreeNode, made: seq<TreeNode>, values: seq<Option<int>>, e: nat)
    requires Shaped(root, made, values) && |made| == Before(values, |values|) && |values| <= 1 + 2 * |made|
    requires Child(values, made, e) != null
    ensures e < |values| && values[e].Some?
    ensures Filled(values, e) < |made| && Child(values, made, e) == made[Filled(values, e)]
    ensures Child(values, made, e).val == values[e].value
    ensures Child(values, made, e).left == Child(values, made, 2 * Filled(values, e) + 1)
    ensures Child(values, made, e).right == Child(values, made, 2 * Filled(values, e) + 2)
  {
    assert e < |values| && values[e].Some?;
    var k := Before(values, e);
    assert Filled(values, e) == k && k < |made|;
    assert Min(|values|, 1 + 2 * |made|) == |values|;
    assert made[k].val == values[e].value;
    assert made[k].left == Child(values, made, 2 * k + 1);
  }

  /** A slot without a node holds `null` or lies past the end. */
  lemma NoNodeOfSlot(root: TreeNode, made: seq<TreeNode>, values: seq<Option<int>>, e: nat)
    requires Shaped(root, made, values) && |made| == Before(values, |values|)
    requires Child(values, made, e) == null
    ensures e < |values| ==> values[e].None?
  {
    if e < |values| && values[e].Some? {
      BeforeMonotone(values, e + 1, |values|);
    }
  }

  /**
   * `treeToArray(root)`: the level-order array of the tree, `null` for each
   * missing child, with the `null`s at the end dropped; `[]` for no tree.
   * On a tree spelled by a canonical array, that array is what comes back.
   */
  method TreeToArray(root: TreeNode?, ghost made: seq<TreeNode>, ghost values: seq<Option<int>>)
      returns (result: seq<Option<int>>)
    requires root != null ==> Shaped(root, made, values) && Canonical(values)
    ensures root == null ==> result == []
    ensures root != null ==> result == values
  {
    if root == null {
      return [];
    }
    result := LevelOrder(root, made, values);
    while |result| > 0 && result[|result| - 1].None?
      invariant |values| <= |result| && result[..|values|] == values
      invariant forall i :: |values| <= i < |result| ==> result[i].None?
    {
      result := result[..|result| - 1];
    }
  }

  /**
   * The breadth-first loop of `treeToArray`, before the trailing `null`s are
   * dropped: each node's value, or `null` for a missing child, slot by slot
   * until the queue runs empty, which is past the last slot of `values`.
   */
  method LevelOrder(root: TreeNode, ghost made: seq<TreeNode>, ghost values: seq<Option<int>>)
      returns (result: seq<Option<int>>)
    requires Shaped(root, made, values) && Canonical(values)
    ensures |values| <= |result| && result == Padded(values, |result|)
  {
    CanonicalCount(root, made, values);
    result := [];
    var queue: seq<TreeNode?> := [root];
    ghost var e, end := 0, 1;
    assert Filled(values, 0) == 0;
    assert Child(values, made, 0) == root;
    assert queue == Pending(values, made, 0, 1);
    while |queue| > 0
      invariant end == 1 + 2 * Filled(values, e)
      invariant e <= end <= 1 + 2 * |made|
      invariant queue == Pending(values, made, e, end)
      invariant result == Padded(values, e)
      decreases 1 + 2 * |made| - e
    {
      var node := queue[0];
      queue := queue[1..];
      PendingShrinks(values, made, e, end);
      PaddedStep(values, e);
      FilledStep(values, e);
      if node != null {
        NodeOfSlot(root, made, values, e);
        PendingGrows(values, made, e + 1, end);
        ghost var l, r := Child(values, made, end), Child(values, made, end + 1);
        assert node.left == l && node.right == r;
        result := result + [Some(node.val)];
        queue := queue + [node.left, node.right];
        assert queue == Pending(values, made, e + 1, end) + [l, r];
        end := end + 2;
      } else {
        NoNodeOfSlot(root, made, values, e);
        result := result + [None];
      }
      assert queue == Pending(values, made, e + 1, end);
      e := e + 1;
    }
    QueueOutlastsValues(values, e);
  }

  /** The tree helpers' round trip: `treeToArray(buildTree(values))` is `values` for a canonical array. */
  method TreeRoundTrip(values: seq<Option<int>>) returns (back: seq<Option<int>>)
    requires Canonical(values)
    ensures back == values
  {
    var root, made := BuildTree(Some(values));
    back := TreeToArray(root, made, values);
  }
}
