/**
 * The singly linked list of `tools/leetcode-helpers.ts`: the `ListNode` class,
 * `buildList`, `buildListWithCycle` and `listToArray`.
 *
 * A list in the heap is described by a ghost sequence of its nodes, in link
 * order: `Linked(head, nodes, pos)` says the nodes are distinct, each one's
 * `next` is the following one, and the last one's `next` is `nodes[pos]` when
 * `pos` is a position of the list and `null` otherwise (no cycle).
 */
module ListHelpers {
  import opened Wrappers

  class ListNode {
    var val: int
    var next: ListNode?

    /** `new ListNode(val?, next?)`: an absent value is 0, an absent link `null`. */
    constructor (val: Option<int>, next: ListNode?)
      ensures this.val == val.GetOr(0) && this.next == next
    {
      this.val := val.GetOr(0);
      this.next := next;
    }
  }

  /** Distinct nodes, each one's `next` the one after it. */
  ghost predicate Chain(nodes: seq<ListNode>)
    reads nodes
  {
    (forall i, j :: 0 <= i < j < |nodes| ==> nodes[i] != nodes[j]) &&
    (forall i :: 0 <= i < |nodes| - 1 ==> nodes[i].next == nodes[i + 1])
  }

  /** Where the last node links: `nodes[pos]` for a position of the list, `null` for any other `pos`. */
  function CycleTarget(nodes: seq<ListNode>, pos: int): ListNode? {
    if 0 <= pos < |nodes| then nodes[pos] else null
  }

  /** `head` starts the list `nodes`, whose last node links back to position `pos` (or ends). */
  ghost predicate Linked(head: ListNode?, nodes: seq<ListNode>, pos: int)
    reads nodes
  {
    Chain(nodes) &&
    (nodes == [] ==> head == null) &&
    (nodes != [] ==> head == nodes[0] && nodes[|nodes| - 1].next == CycleTarget(nodes, pos))
  }

  /** The values held by the nodes, in order. */
  ghost function Vals(nodes: seq<ListNode>): seq<int>
    reads nodes
  {
    seq(|nodes|, i requires 0 <= i < |nodes| reads nodes => nodes[i].val)
  }

  /** The values the input array holds; `null` holds none. */
  function Given(values: Option<seq<int>>): seq<int> {
    values.GetOr([])
  }

  /**
   * `buildList(values)`: fresh nodes holding the values in order, the last one
   * ending the list; `null` for a `null` or empty array.
   */
  method BuildList(values: Option<seq<int>>) returns (head: ListNode?, ghost nodes: seq<ListNode>)
    ensures Linked(head, nodes, -1)
    ensures Vals(nodes) == Given(values)
    ensures forall n :: n in nodes ==> fresh(n)
  {
    if values.None? || |values.value| == 0 {
      return null, [];
    }
    var xs := values.value;
    var dummy := new ListNode(Some(0), null);
    var current := dummy;
    nodes := [];
    for i := 0 to |xs|
      invariant |nodes| == i
      invariant current == (if i == 0 then dummy else nodes[i - 1]) && fresh(current)
      invariant forall n :: n in nodes ==> fresh(n) && n != dummy
      invariant Chain(nodes) && current.next == null
      invariant i > 0 ==> dummy.next == nodes[0]
      invariant forall k :: 0 <= k < i ==> nodes[k].val == xs[k]
    {
      var node := new ListNode(Some(xs[i]), null);
      current.next := node;
      current := node;
      nodes := nodes + [node];
    }
    head := dummy.next;
  }

  /**
   * `buildListWithCycle(values, pos)`: fresh nodes holding the values in order,
   * the last one linking back to node `pos` when `0 <= pos < values.length`
   * and ending the list otherwise; `null` for a `null` or empty array.
   */
  method BuildListWithCycle(values: Option<seq<int>>, pos: int) returns (head: ListNode?, ghost nodes: seq<ListNode>)
    ensures Linked(head, nodes, pos)
    ensures Vals(nodes) == Given(values)
    ensures forall n :: n in nodes ==> fresh(n)
  {
    if values.None? || |values.value| == 0 {
      return null, [];
    }
    var xs := values.value;
    var made: seq<ListNode> := [];
    for i := 0 to |xs|
      invariant |made| == i
      invariant forall n :: n in made ==> fresh(n) && n.next == null
      invariant forall a, b :: 0 <= a < b < i ==> made[a] != made[b]
      invariant forall k :: 0 <= k < i ==> made[k].val == xs[k]
    {
      var node := new ListNode(Some(xs[i]), null);
      made := made + [node];
    }
    var n := |made|;
    for i := 0 to n - 1
      invariant forall k :: 0 <= k < n ==> made[k].val == xs[k]
      invariant forall k :: 0 <= k < i ==> made[k].next == made[k + 1]
      invariant forall k :: i <= k < n ==> made[k].next == null
    {
      made[i].next := made[i + 1];
    }
    if 0 <= pos < n {
      made[n - 1].next := made[pos];
    }
    head, nodes := made[0], made;
  }

  /** `walk` is the path followed from `head`: distinct nodes, each one's `next` the one after it. */
  ghost predicate Walk(head: ListNode?, walk: seq<ListNode>)
    reads walk
  {
    Chain(walk) && (walk != [] ==> head == walk[0])
  }

  /** Why a walk of at most `limit` nodes ends: the limit, the end of the list, or a node met before. */
  ghost predicate Stops(head: ListNode?, walk: seq<ListNode>, limit: nat)
    reads walk
  {
    |walk| == limit ||
    (walk == [] && head == null) ||
    (walk != [] && (walk[|walk| - 1].next == null || walk[|walk| - 1].next in walk))
  }

  /**
   * `listToArray(head, limit)`: the values met walking from `head`, stopping at
   * the end of the list, at a node already visited, or after `limit` values.
   * On a list described by `nodes` and `pos` it gives back the values of the
   * nodes, cycle or not, cut off after the first `limit`.
   */
  method ListToArray(head: ListNode?, limit: nat, ghost nodes: seq<ListNode>, ghost pos: int)
      returns (result: seq<int>, ghost walk: seq<ListNode>)
    ensures |result| == |walk| <= limit
    ensures Walk(head, walk) && Stops(head, walk, limit)
    ensures forall k :: 0 <= k < |walk| ==> result[k] == walk[k].val
    ensures Linked(head, nodes, pos) ==> result == Vals(nodes)[..if |nodes| <= limit then |nodes| else limit]
  {
    result, walk := [], [];
    var seen: set<ListNode> := {};
    var current := head;
    while current != null && current !in seen && |result| < limit
      invariant |result| == |walk| <= limit
      invariant Walk(head, walk)
      invariant forall n :: n in seen <==> n in walk
      invariant current == (if walk == [] then head else walk[|walk| - 1].next)
      invariant forall k :: 0 <= k < |walk| ==> result[k] == walk[k].val
      invariant Linked(head, nodes, pos) ==>
        |walk| <= |nodes| && walk == nodes[..|walk|] && (|walk| < |nodes| ==> current == nodes[|walk|])
      decreases limit - |result|
    {
      result := result + [current.val];
      seen := seen + {current};
      walk := walk + [current];
      current := current.next;
    }
    if Linked(head, nodes, pos) {
      UnvisitedNode(nodes, walk, current);
      assert Vals(walk) == Vals(nodes)[..|walk|];
    }
  }

  /** While the walk is a proper prefix of a list, the next node is one it has not visited. */
  lemma UnvisitedNode(nodes: seq<ListNode>, walk: seq<ListNode>, current: ListNode?)
    requires Chain(nodes) && |walk| <= |nodes| && walk == nodes[..|walk|]
    requires |walk| < |nodes| ==> current == nodes[|walk|]
    ensures |walk| < |nodes| ==> current != null && current !in walk
  {
  }

  /** The list helpers' round trip without a cycle: `listToArray(buildList(xs))` is `xs`. */
  method ListRoundTrip(xs: seq<int>, limit: nat) returns (back: seq<int>)
    requires |xs| <= limit
    ensures back == xs
  {
    var head, nodes := BuildList(Some(xs));
    ghost var walk;
    back, walk := ListToArray(head, limit, nodes, -1);
  }

  /** The same with a cycle: `listToArray` stops at the node the cycle returns to, so every value comes back once. */
  method CycleRoundTrip(xs: seq<int>, pos: int, limit: nat) returns (back: seq<int>)
    requires |xs| <= limit
    ensures back == xs
  {
    var head, nodes := BuildListWithCycle(Some(xs), pos);
    ghost var walk;
    back, walk := ListToArray(head, limit, nodes, pos);
  }
}
