/** The overlap forest built inside `Timeline.render` (src/index.js:699-793).
    Nodes live in an arena: node x stands for the item at position x of the
    list the pairwise loop walks (the sorted items after `items.reverse()`),
    `parent[x]` is the index of its parent or -1 when the `parent` property was
    never set (`createNode` leaves it undefined), and `children[x]` is its
    `children` array. A ghost `depth` sequence ranks the nodes so that the walk
    up the parent links provably ends: it is the proof of acyclicity, and it
    is also the right margin. */
module OverlapForest {
  import opened Items

  const NoParent: int := -1

  /** Parent links stay inside the arena and every link goes one level up. */
  ghost predicate Ranked(parent: seq<int>, depth: seq<nat>)
  {
    |depth| == |parent| &&
    (forall x :: 0 <= x < |parent| ==> NoParent <= parent[x] < |parent|) &&
    (forall x :: 0 <= x < |parent| ==>
       depth[x] == if parent[x] == NoParent then 0 else depth[parent[x]] + 1)
  }

  /** A well-formed forest: ranked parent links, and children arrays that list
      exactly the nodes whose parent is their owner, each once. */
  ghost predicate Forest(parent: seq<int>, children: seq<seq<int>>, depth: seq<nat>)
  {
    Ranked(parent, depth) && |children| == |parent| &&
    (forall x, k :: 0 <= x < |parent| && 0 <= k < |children[x]| ==> 0 <= children[x][k] < |parent|) &&
    (forall x, y :: 0 <= x < |parent| && 0 <= y < |parent| ==> (y in children[x] <==> parent[y] == x)) &&
    (forall x, j, k :: 0 <= x < |parent| && 0 <= j < k < |children[x]| ==> children[x][j] != children[x][k])
  }

  /** The ancestors of x, nearest first, found by walking the parent links. */
  ghost function Ancestors(parent: seq<int>, depth: seq<nat>, x: int): (a: seq<int>)
    requires Ranked(parent, depth) && 0 <= x < |parent|
    ensures |a| == depth[x]
    ensures forall k :: 0 <= k < |a| ==> 0 <= a[k] < |parent| && depth[a[k]] == depth[x] - 1 - k
    ensures forall y :: y in a ==> 0 <= y < |parent| && depth[y] < depth[x]
    decreases depth[x]
  {
    if parent[x] == NoParent then [] else [parent[x]] + Ancestors(parent, depth, parent[x])
  }

  /** y lies in the subtree rooted at c. */
  ghost predicate InSubtree(parent: seq<int>, depth: seq<nat>, y: int, c: int)
    requires Ranked(parent, depth) && 0 <= y < |parent|
  {
    y == c || c in Ancestors(parent, depth, y)
  }

  /** No node is its own ancestor. */
  lemma NoSelfAncestor(parent: seq<int>, depth: seq<nat>, x: int)
    requires Ranked(parent, depth) && 0 <= x < |parent|
    ensures x !in Ancestors(parent, depth, x)
  {
  }

  /** A node and its ancestors are pairwise distinct: node k steps up has depth depth[x] - k. */
  lemma {:induction false} ChainDistinct(parent: seq<int>, depth: seq<nat>, x: int)
    requires Ranked(parent, depth) && 0 <= x < |parent|
    ensures var chain := [x] + Ancestors(parent, depth, x);
      forall j, k :: 0 <= j < k < |chain| ==> chain[j] != chain[k]
  {
    var chain := [x] + Ancestors(parent, depth, x);
    assert forall k :: 0 <= k < |chain| ==> depth[chain[k]] == depth[x] - k;
  }

  /** A sequence of distinct indices below n has at most n entries. */
  lemma {:induction false} DistinctBelow(s: seq<int>, n: nat)
    requires forall k :: 0 <= k < |s| ==> 0 <= s[k] < n
    requires forall j, k :: 0 <= j < k < |s| ==> s[j] != s[k]
    ensures |s| <= n
    decreases n
  {
    if s != [] {
      assert 0 <= s[0] < n;
      if i :| 0 <= i < |s| && s[i] == n - 1 {
        var t := s[..i] + s[i + 1..];
        assert forall k :: 0 <= k < |t| ==> t[k] == if k < i then s[k] else s[k + 1];
        DistinctBelow(t, n - 1);
      } else {
        DistinctBelow(s, n - 1);
      }
    }
  }

  /** Walks up the parent links take fewer steps than there are nodes. */
  lemma DepthBelowSize(parent: seq<int>, depth: seq<nat>, x: int)
    requires Ranked(parent, depth) && 0 <= x < |parent|
    ensures depth[x] < |parent|
  {
    ChainDistinct(parent, depth, x);
    DistinctBelow([x] + Ancestors(parent, depth, x), |parent|);
  }

  /** Ancestry is transitive. */
  lemma {:induction false} AncestorsTransitive(parent: seq<int>, depth: seq<nat>, y: int, c: int, x: int)
    requires Ranked(parent, depth) && 0 <= y < |parent|
    requires c in Ancestors(parent, depth, y) && x in Ancestors(parent, depth, c)
    ensures x in Ancestors(parent, depth, y)
    decreases depth[y]
  {
    if c != parent[y] {
      AncestorsTransitive(parent, depth, parent[y], c, x);
    }
  }

  /** On the chain above a node, at most one node has any given depth. */
  lemma ChainDepthUnique(parent: seq<int>, depth: seq<nat>, y: int, a: int, b: int)
    requires Ranked(parent, depth) && 0 <= y < |parent|
    requires InSubtree(parent, depth, y, a) && InSubtree(parent, depth, y, b)
    requires depth[a] == depth[b]
    ensures a == b
  {
    var chain := [y] + Ancestors(parent, depth, y);
    assert forall k :: 0 <= k < |chain| ==> depth[chain[k]] == depth[y] - k;
    assert a in chain && b in chain;
  }

  /** `isNodeAlreadyInChain(parent, node)`: walks up from `p`, and at each
      node stops with true when that node is `c`, has parent `c`, is `c`'s
      parent, or lists `c` among its children. */
  function InChain(parent: seq<int>, children: seq<seq<int>>, ghost depth: seq<nat>, p: int, c: int): bool
    requires Forest(parent, children, depth)
    requires 0 <= p < |parent| && 0 <= c < |parent|
    decreases depth[p]
  {
    if p == c || parent[p] == c || parent[c] == p then true
    else if c in children[p] then true
    else if parent[p] != NoParent then InChain(parent, children, depth, parent[p], c)
    else false
  }

  /** What the cycle guard refuses: an edge c -> p whose child is p itself or
      one of p's ancestors (a cycle), or whose child already hangs below p or
      below one of p's ancestors. */
  lemma {:induction false} InChainMeaning(parent: seq<int>, children: seq<seq<int>>, depth: seq<nat>, p: int, c: int)
    requires Forest(parent, children, depth)
    requires 0 <= p < |parent| && 0 <= c < |parent|
    ensures InChain(parent, children, depth, p, c) <==>
      InSubtree(parent, depth, p, c) ||
      (parent[c] != NoParent && InSubtree(parent, depth, p, parent[c]))
    decreases depth[p]
  {
    if parent[p] != NoParent {
      InChainMeaning(parent, children, depth, parent[p], c);
    }
  }

  /** `children.filter(c => c.id !== child.id)`: the children array without `c`.
      With distinct ids, filtering by id removes exactly node `c`. */
  function Remove(cs: seq<int>, c: int): (r: seq<int>)
    ensures forall y :: y in r <==> y in cs && y != c
    ensures (forall j, k :: 0 <= j < k < |cs| ==> cs[j] != cs[k]) ==>
      forall j, k :: 0 <= j < k < |r| ==> r[j] != r[k]
  {
    if cs == [] then []
    else if cs[0] == c then Remove(cs[1..], c)
    else
      assert forall y :: y in cs[1..] ==> y in cs;
      assert (forall j, k :: 0 <= j < k < |cs| ==> cs[j] != cs[k]) ==>
        cs[0] !in cs[1..] && forall j, k :: 0 <= j < k < |cs[1..]| ==> cs[1..][j] != cs[1..][k];
      [cs[0]] + Remove(cs[1..], c)
  }

  /** The children arrays after `c` is detached from its current parent (if it
      has one) and pushed onto the children of `p`. */
  function AttachChildren(parent: seq<int>, children: seq<seq<int>>, p: int, c: int): seq<seq<int>>
    requires |children| == |parent| && 0 <= p < |parent| && 0 <= c < |parent|
    requires NoParent <= parent[c] < |parent|
  {
    var detached := if parent[c] != NoParent then children[parent[c] := Remove(children[parent[c]], c)] else children;
    detached[p := detached[p] + [c]]
  }

  /** The depths after the subtree of `c` is moved below `p`. */
  ghost function Regraft(parent: seq<int>, depth: seq<nat>, p: int, c: int): (d: seq<nat>)
    requires Ranked(parent, depth) && 0 <= p < |parent| && 0 <= c < |parent|
    ensures |d| == |parent|
  {
    seq(|parent|, y requires 0 <= y < |parent| =>
      if InSubtree(parent, depth, y, c) then depth[y] - depth[c] + depth[p] + 1 else depth[y])
  }

  /** Moving `c` below `p` keeps the forest well formed whenever the cycle guard lets it. */
  lemma AttachKeepsForest(parent: seq<int>, children: seq<seq<int>>, depth: seq<nat>, p: int, c: int)
    requires Forest(parent, children, depth)
    requires 0 <= p < |parent| && 0 <= c < |parent|
    requires !InChain(parent, children, depth, p, c)
    ensures Forest(parent[c := p], AttachChildren(parent, children, p, c), Regraft(parent, depth, p, c))
  {
    InChainMeaning(parent, children, depth, p, c);
    var parent' := parent[c := p];
    var children' := AttachChildren(parent, children, p, c);
    var depth' := Regraft(parent, depth, p, c);
    var n := |parent|;
    assert depth'[p] == depth[p];
    forall y | 0 <= y < n
      ensures depth'[y] == if parent'[y] == NoParent then 0 else depth'[parent'[y]] + 1
    {
      if y != c && parent[y] != NoParent {
        assert InSubtree(parent, depth, y, c) <==> InSubtree(parent, depth, parent[y], c);
      }
    }
    assert Ranked(parent', depth');
    var former := parent[c];
    forall x, y | 0 <= x < n && 0 <= y < n
      ensures y in children'[x] <==> parent'[y] == x
    {
      if y == c {
        if x != p && former != NoParent && x == former {
          assert children'[x] == Remove(children[former], c);
        }
      }
    }
    forall x, j, k | 0 <= x < n && 0 <= j < k < |children'[x]|
      ensures children'[x][j] != children'[x][k]
    {
      if x == p {
        assert children'[p] == children[p] + [c];
        assert c !in children[p];
      } else if former != NoParent && x == former {
        assert children'[x] == Remove(children[former], c);
      }
    }
    forall x, k | 0 <= x < n && 0 <= k < |children'[x]|
      ensures 0 <= children'[x][k] < n
    {
      if x == p {
        assert children'[p] == children[p] + [c];
      } else if former != NoParent && x == former {
        assert children'[x][k] in Remove(children[former], c);
      }
    }
  }

  /** A child starts inside its parent's half-open span (`isBetween(…, "[)")`). */
  predicate Contains(outer: Item, inner: Item)
  {
    outer.start <= inner.start < outer.end
  }

  /** Every parent link joins two different items, the child starting inside the parent. */
  ghost predicate EdgesValid(items: seq<Item>, parent: seq<int>)
    requires |parent| == |items|
    requires forall x :: 0 <= x < |parent| ==> NoParent <= parent[x] < |parent|
  {
    forall x :: 0 <= x < |parent| && parent[x] != NoParent ==>
      items[parent[x]].id != items[x].id && Contains(items[parent[x]], items[x])
  }

  /** The minutes from a candidate parent's start to a child's start. */
  function Distance(items: seq<Item>, p: int, c: int): int
    requires 0 <= p < |items| && 0 <= c < |items|
  {
    items[c].start - items[p].start
  }

  /** The state of the arena between steps: parent links, children arrays and
      the ghost ranking that witnesses acyclicity. */
  type Arena = (seq<int>, seq<seq<int>>, seq<nat>)

  /** A well-formed arena for `items` whose every edge is valid. */
  ghost predicate Valid(items: seq<Item>, a: Arena)
  {
    Forest(a.0, a.1, a.2) && |a.0| == |items| && EdgesValid(items, a.0)
  }

  /** One step of the inner `forEach`, item `p` as candidate parent of item `c`:
      re-parent `c` below `p` when the ids differ, `c` starts inside `p`, `p`
      starts strictly closer to `c` than its current parent (or there is none)
      and the cycle guard lets it through; otherwise leave the arena as it is. */
  ghost function PairStep(items: seq<Item>, a: Arena, p: int, c: int): (r: Arena)
    requires DistinctIds(items) && Valid(items, a)
    requires 0 <= p < |items| && 0 <= c < |items|
    ensures Valid(items, r)
  {
    var (parent, children, depth) := a;
    if items[p].id != items[c].id && Contains(items[p], items[c]) &&
       (parent[c] == NoParent || Distance(items, p, c) < Distance(items, parent[c], c)) &&
       !InChain(parent, children, depth, p, c)
    then
      AttachKeepsForest(parent, children, depth, p, c);
      (parent[c := p], AttachChildren(parent, children, p, c), Regraft(parent, depth, p, c))
    else a
  }

  /** The first k steps of the inner `forEach` for candidate parent `p`. */
  ghost function OfferFold(items: seq<Item>, a: Arena, p: int, k: nat): (r: Arena)
    requires DistinctIds(items) && Valid(items, a)
    requires 0 <= p < |items| && k <= |items|
    ensures Valid(items, r)
  {
    if k == 0 then a else PairStep(items, OfferFold(items, a, p, k - 1), p, k - 1)
  }

  /** The arena as `createNode` leaves every node: no parent, no children. */
  function FreshNodes(n: nat): (r: (seq<int>, seq<seq<int>>))
    ensures |r.0| == n && |r.1| == n
    ensures forall x :: 0 <= x < n ==> r.0[x] == NoParent && r.1[x] == []
  {
    (seq(n, _ => NoParent), seq(n, _ => []))
  }

  lemma FreshForest(items: seq<Item>)
    ensures Valid(items, (FreshNodes(|items|).0, FreshNodes(|items|).1, seq(|items|, _ => 0)))
  {
  }

  /** The first k passes of the outer `forEach`, from the fresh arena. */
  ghost function BuildFold(items: seq<Item>, k: nat): (r: Arena)
    requires DistinctIds(items) && k <= |items|
    ensures Valid(items, r)
  {
    if k == 0 then
      FreshForest(items);
      (FreshNodes(|items|).0, FreshNodes(|items|).1, seq(|items|, _ => 0))
    else OfferFold(items, BuildFold(items, k - 1), k - 1, |items|)
  }

  // Which items the pairwise loop gives a parent.

  /** Item c starts strictly after item p and before p ends. */
  predicate Nested(items: seq<Item>, p: int, c: int)
    requires 0 <= p < |items| && 0 <= c < |items|
  {
    items[p].id != items[c].id && items[p].start < items[c].start < items[p].end
  }

  /** Along valid edges, an ancestor starts no later than its descendant. */
  lemma {:induction false} AncestorsStartEarlier(items: seq<Item>, parent: seq<int>, depth: seq<nat>, x: int, y: int)
    requires Ranked(parent, depth) && |parent| == |items| && EdgesValid(items, parent)
    requires 0 <= x < |parent| && y in Ancestors(parent, depth, x)
    ensures items[y].start <= items[x].start
    decreases depth[x]
  {
    if y != parent[x] {
      AncestorsStartEarlier(items, parent, depth, parent[x], y);
    }
  }

  /** Every node with a parent in `before` still has one in `after`. */
  predicate KeepsParents(before: seq<int>, after: seq<int>)
  {
    |after| == |before| && forall x :: 0 <= x < |before| && before[x] != NoParent ==> after[x] != NoParent
  }

  lemma KeepsParentsTrans(a: seq<int>, b: seq<int>, c: seq<int>)
    requires KeepsParents(a, b) && KeepsParents(b, c)
    ensures KeepsParents(a, c)
  {
  }

  lemma KeepsParentsAt(before: seq<int>, after: seq<int>, x: int)
    requires KeepsParents(before, after) && 0 <= x < |before| && before[x] != NoParent
    ensures after[x] != NoParent
  {
  }

  /** A step never takes a parent away, and gives a child nested in `p` a parent. */
  lemma PairStepParents(items: seq<Item>, a: Arena, p: int, c: int)
    requires DistinctIds(items) && Valid(items, a)
    requires 0 <= p < |items| && 0 <= c < |items|
    ensures KeepsParents(a.0, PairStep(items, a, p, c).0)
    ensures Nested(items, p, c) ==> PairStep(items, a, p, c).0[c] != NoParent
  {
    var (parent, children, depth) := a;
    if Nested(items, p, c) && parent[c] == NoParent {
      InChainMeaning(parent, children, depth, p, c);
      if c in Ancestors(parent, depth, p) {
        AncestorsStartEarlier(items, parent, depth, p, c);
      }
    }
  }

  lemma {:induction false} OfferFoldKeeps(items: seq<Item>, a: Arena, p: int, k: nat)
    requires DistinctIds(items) && Valid(items, a)
    requires 0 <= p < |items| && k <= |items|
    ensures KeepsParents(a.0, OfferFold(items, a, p, k).0)
  {
    if k > 0 {
      var prev := OfferFold(items, a, p, k - 1);
      var next := PairStep(items, prev, p, k - 1);
      assert OfferFold(items, a, p, k) == next;
      OfferFoldKeeps(items, a, p, k - 1);
      PairStepParents(items, prev, p, k - 1);
      KeepsParentsTrans(a.0, prev.0, next.0);
    }
  }

  lemma {:induction false} OfferFoldParents(items: seq<Item>, a: Arena, p: int, k: nat)
    requires DistinctIds(items) && Valid(items, a)
    requires 0 <= p < |items| && k <= |items|
    ensures forall c :: 0 <= c < k && Nested(items, p, c) ==> OfferFold(items, a, p, k).0[c] != NoParent
  {
    if k > 0 {
      var prev := OfferFold(items, a, p, k - 1);
      var next := PairStep(items, prev, p, k - 1);
      assert OfferFold(items, a, p, k) == next;
      OfferFoldParents(items, a, p, k - 1);
      PairStepParents(items, prev, p, k - 1);
      forall c | 0 <= c < k && Nested(items, p, c)
        ensures next.0[c] != NoParent
      {
        if c < k - 1 {
          KeepsParentsAt(prev.0, next.0, c);
        }
      }
    }
  }

  /** After k passes, every item nested in one of the first k candidate
      parents has a parent. */
  lemma {:induction false} BuildFoldParents(items: seq<Item>, k: nat)
    requires DistinctIds(items) && k <= |items|
    ensures forall p, c :: 0 <= p < k && 0 <= c < |items| && Nested(items, p, c) ==> BuildFold(items, k).0[c] != NoParent
  {
    if k > 0 {
      var prev := BuildFold(items, k - 1);
      var next := OfferFold(items, prev, k - 1, |items|);
      assert BuildFold(items, k) == next;
      BuildFoldParents(items, k - 1);
      OfferFoldKeeps(items, prev, k - 1, |items|);
      OfferFoldParents(items, prev, k - 1, |items|);
      forall p, c | 0 <= p < k && 0 <= c < |items| && Nested(items, p, c)
        ensures next.0[c] != NoParent
      {
        if p < k - 1 {
          KeepsParentsAt(prev.0, next.0, c);
        }
      }
    }
  }

  /** Every item that starts strictly inside another item's span ends up with
      a parent, and no node is its own ancestor. */
  lemma NestedHaveParents(items: seq<Item>)
    requires DistinctIds(items)
    ensures var (parent, _, depth) := BuildFold(items, |items|);
      (forall p, c :: 0 <= p < |items| && 0 <= c < |items| && Nested(items, p, c) ==> parent[c] != NoParent) &&
      (forall x :: 0 <= x < |items| ==> x !in Ancestors(parent, depth, x))
  {
    BuildFoldParents(items, |items|);
    var (parent, _, depth) := BuildFold(items, |items|);
    forall x | 0 <= x < |items|
      ensures x !in Ancestors(parent, depth, x)
    {
      NoSelfAncestor(parent, depth, x);
    }
  }

  /** The body of the inner `forEach`: item `p` as candidate parent of item `c`. */
  method ConsiderPair(items: seq<Item>, parent: seq<int>, children: seq<seq<int>>, ghost depth: seq<nat>, p: int, c: int)
    returns (parent': seq<int>, children': seq<seq<int>>, ghost depth': seq<nat>)
    requires DistinctIds(items) && Valid(items, (parent, children, depth))
    requires 0 <= p < |items| && 0 <= c < |items|
    ensures (parent', children', depth') == PairStep(items, (parent, children, depth), p, c)
    // only the child's link may change, and an existing link is only ever replaced
    ensures forall x :: 0 <= x < |items| && x != c ==> parent'[x] == parent[x]
    ensures parent[c] != NoParent ==> parent'[c] != NoParent
    // the link changes exactly when the pair qualifies, the new parent is
    // strictly closer (or there was none), and the cycle guard lets it through
    ensures parent'[c] != parent[c] <==>
      items[p].id != items[c].id && Contains(items[p], items[c]) &&
      (parent[c] == NoParent || Distance(items, p, c) < Distance(items, parent[c], c)) &&
      !InChain(parent, children, depth, p, c)
    ensures parent'[c] != parent[c] ==> parent'[c] == p
  {
    parent', children', depth' := parent, children, depth;
    if items[p].id != items[c].id && items[p].start <= items[c].start < items[p].end {
      if parent[c] != NoParent {
        var current := parent[c];
        var currentParentDiff := items[c].start - items[current].start;
        var newParentDiff := items[c].start - items[p].start;
        if newParentDiff < currentParentDiff {
          if !InChain(parent, children, depth, p, c) {
            InChainMeaning(parent, children, depth, p, c);
            children' := children'[current := Remove(children'[current], c)];
            parent' := parent'[c := p];
            children' := children'[p := children'[p] + [c]];
            depth' := Regraft(parent, depth, p, c);
            assert children' == AttachChildren(parent, children, p, c);
          }
        }
      } else {
        if !InChain(parent, children, depth, p, c) {
          InChainMeaning(parent, children, depth, p, c);
          parent' := parent'[c := p];
          children' := children'[p := children'[p] + [c]];
          depth' := Regraft(parent, depth, p, c);
          assert children' == AttachChildren(parent, children, p, c);
        }
      }
    }
  }

  /** The inner `forEach`: item `p` as candidate parent of every item in turn. */
  method OfferAsParent(items: seq<Item>, parent: seq<int>, children: seq<seq<int>>, ghost depth: seq<nat>, p: int)
    returns (parent': seq<int>, children': seq<seq<int>>, ghost depth': seq<nat>)
    requires DistinctIds(items) && Valid(items, (parent, children, depth))
    requires 0 <= p < |items|
    ensures (parent', children', depth') == OfferFold(items, (parent, children, depth), p, |items|)
    ensures parent' == OfferFold(items, (parent, children, depth), p, |items|).0
    ensures children' == OfferFold(items, (parent, children, depth), p, |items|).1
  {
    parent', children', depth' := parent, children, depth;
    var c := 0;
    while c < |items|
      invariant 0 <= c <= |items|
      invariant (parent', children', depth') == OfferFold(items, (parent, children, depth), p, c)
    {
      parent', children', depth' := ConsiderPair(items, parent', children', depth', p, c);
      c := c + 1;
    }
  }

  /** The pairwise loop: every item as candidate parent, in list order, against
      every item as candidate child. */
  method BuildForest(items: seq<Item>) returns (parent: seq<int>, children: seq<seq<int>>, ghost depth: seq<nat>)
    requires DistinctIds(items)
    ensures (parent, children, depth) == BuildFold(items, |items|)
    ensures parent == BuildFold(items, |items|).0 && children == BuildFold(items, |items|).1
  {
    var n := |items|;
    parent, children := FreshNodes(n).0, FreshNodes(n).1;
    depth := seq(n, _ => 0);
    FreshForest(items);
    var p := 0;
    while p < n
      invariant 0 <= p <= n
      invariant (parent, children, depth) == BuildFold(items, p)
    {
      parent, children, depth := OfferAsParent(items, parent, children, depth, p);
      p := p + 1;
    }
  }
}
