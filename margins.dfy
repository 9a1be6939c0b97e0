/** The margins read off the overlap forest (src/index.js:724-745, 795-803):
    the right margin counts a node's ancestors and the left margin, as
    `accumulatedLeftMargin` computes it, counts its descendants. */
module OverlapMargins {
  import opened OverlapForest

  /** The nodes below x: those that have x among their ancestors. */
  ghost function Descendants(parent: seq<int>, depth: seq<nat>, x: int): set<int>
    requires Ranked(parent, depth)
  {
    set y | 0 <= y < |parent| && x in Ancestors(parent, depth, y)
  }

  /** `accumulatedRightMargin`: one per parent link on the way up. */
  function RightMargin(parent: seq<int>, ghost depth: seq<nat>, x: int): (r: nat)
    requires Ranked(parent, depth) && 0 <= x < |parent|
    ensures r == |Ancestors(parent, depth, x)|
    decreases depth[x]
  {
    if parent[x] != NoParent then 1 + RightMargin(parent, depth, parent[x]) else 0
  }

  /** `accumulatedLeftMargin(node, max)`. */
  function LeftMargin(parent: seq<int>, children: seq<seq<int>>, ghost depth: seq<nat>, x: int, m: nat): nat
    requires Forest(parent, children, depth) && 0 <= x < |parent|
    decreases |parent| - depth[x], 1
  {
    DepthBelowSize(parent, depth, x);
    LeftMarginFold(parent, children, depth, x, children[x], m)
  }

  /** The `forEach` inside `accumulatedLeftMargin` over the children `cs` of x:
      `result = accumulatedLeftMargin(child, result + 1)` for each child in turn. */
  function LeftMarginFold(parent: seq<int>, children: seq<seq<int>>, ghost depth: seq<nat>, x: int, cs: seq<int>, m: nat): nat
    requires Forest(parent, children, depth) && 0 <= x < |parent| && depth[x] < |parent|
    requires forall k :: 0 <= k < |cs| ==> 0 <= cs[k] < |parent| && parent[cs[k]] == x
    decreases |parent| - depth[x], 0, |cs|
  {
    if cs == [] then m
    else LeftMarginFold(parent, children, depth, x, cs[1..], LeftMargin(parent, children, depth, cs[0], m + 1))
  }

  /** The subtree rooted at c: c and its descendants. */
  ghost function Subtree(parent: seq<int>, depth: seq<nat>, c: int): set<int>
    requires Ranked(parent, depth)
  {
    set y | 0 <= y < |parent| && InSubtree(parent, depth, y, c)
  }

  /** The union of the subtrees rooted at the nodes of cs. */
  ghost function Subtrees(parent: seq<int>, depth: seq<nat>, cs: seq<int>): set<int>
    requires Ranked(parent, depth)
  {
    if cs == [] then {} else Subtree(parent, depth, cs[0]) + Subtrees(parent, depth, cs[1..])
  }

  lemma {:induction false} SubtreesMembers(parent: seq<int>, depth: seq<nat>, cs: seq<int>, y: int)
    requires Ranked(parent, depth)
    ensures y in Subtrees(parent, depth, cs) <==>
      0 <= y < |parent| && exists k :: 0 <= k < |cs| && InSubtree(parent, depth, y, cs[k])
  {
    if cs != [] {
      SubtreesMembers(parent, depth, cs[1..], y);
      if 0 <= y < |parent| && exists k :: 0 <= k < |cs| && InSubtree(parent, depth, y, cs[k]) {
        var k :| 0 <= k < |cs| && InSubtree(parent, depth, y, cs[k]);
        if k > 0 {
          assert cs[k] == cs[1..][k - 1];
        }
      }
      if y in Subtrees(parent, depth, cs[1..]) {
        var k :| 0 <= k < |cs[1..]| && InSubtree(parent, depth, y, cs[1..][k]);
        assert cs[1..][k] == cs[k + 1];
      }
    }
  }

  /** A subtree is its root plus the root's descendants. */
  lemma SubtreeSize(parent: seq<int>, depth: seq<nat>, c: int)
    requires Ranked(parent, depth) && 0 <= c < |parent|
    ensures |Subtree(parent, depth, c)| == 1 + |Descendants(parent, depth, c)|
  {
    NoSelfAncestor(parent, depth, c);
    assert Subtree(parent, depth, c) == {c} + Descendants(parent, depth, c);
  }

  /** The descendants of x are the disjoint subtrees of its children. */
  lemma DescendantsAreChildSubtrees(parent: seq<int>, children: seq<seq<int>>, depth: seq<nat>, x: int)
    requires Forest(parent, children, depth) && 0 <= x < |parent|
    ensures Descendants(parent, depth, x) == Subtrees(parent, depth, children[x])
  {
    forall y
      ensures y in Descendants(parent, depth, x) <==> y in Subtrees(parent, depth, children[x])
    {
      SubtreesMembers(parent, depth, children[x], y);
      if 0 <= y < |parent| {
        if x in Ancestors(parent, depth, y) {
          var c := ChildOnPath(parent, depth, y, x);
          var k :| 0 <= k < |children[x]| && children[x][k] == c;
          assert InSubtree(parent, depth, y, children[x][k]);
        }
        if exists k :: 0 <= k < |children[x]| && InSubtree(parent, depth, y, children[x][k]) {
          var k :| 0 <= k < |children[x]| && InSubtree(parent, depth, y, children[x][k]);
          var c := children[x][k];
          assert parent[c] == x;
          if c != y {
            AncestorsTransitive(parent, depth, y, c, x);
          }
        }
      }
    }
  }

  /** Below an ancestor x of y, the path to y passes through a child of x. */
  lemma {:induction false} ChildOnPath(parent: seq<int>, depth: seq<nat>, y: int, x: int) returns (c: int)
    requires Ranked(parent, depth) && 0 <= y < |parent|
    requires x in Ancestors(parent, depth, y)
    ensures 0 <= c < |parent| && parent[c] == x && InSubtree(parent, depth, y, c)
    decreases depth[y]
  {
    if parent[y] == x {
      c := y;
    } else {
      c := ChildOnPath(parent, depth, parent[y], x);
    }
  }

  /** Subtrees of different children of x do not meet. */
  lemma SiblingSubtreesDisjoint(parent: seq<int>, depth: seq<nat>, x: int, c: int, cs: seq<int>)
    requires Ranked(parent, depth) && 0 <= x < |parent| && 0 <= c < |parent| && parent[c] == x
    requires forall k :: 0 <= k < |cs| ==> 0 <= cs[k] < |parent| && parent[cs[k]] == x
    requires c !in cs
    ensures Subtree(parent, depth, c) * Subtrees(parent, depth, cs) == {}
  {
    forall y | y in Subtree(parent, depth, c) && y in Subtrees(parent, depth, cs)
      ensures false
    {
      SubtreesMembers(parent, depth, cs, y);
      var k :| 0 <= k < |cs| && InSubtree(parent, depth, y, cs[k]);
      ChainDepthUnique(parent, depth, y, c, cs[k]);
    }
  }

  /** The left margin adds one per descendant to its accumulator. */
  lemma {:induction false} LeftMarginCounts(parent: seq<int>, children: seq<seq<int>>, depth: seq<nat>, x: int, m: nat)
    requires Forest(parent, children, depth) && 0 <= x < |parent|
    ensures LeftMargin(parent, children, depth, x, m) == m + |Descendants(parent, depth, x)|
    decreases |parent| - depth[x], 1
  {
    DepthBelowSize(parent, depth, x);
    LeftMarginFoldCounts(parent, children, depth, x, children[x], m);
    DescendantsAreChildSubtrees(parent, children, depth, x);
  }

  lemma {:induction false} LeftMarginFoldCounts(parent: seq<int>, children: seq<seq<int>>, depth: seq<nat>, x: int, cs: seq<int>, m: nat)
    requires Forest(parent, children, depth) && 0 <= x < |parent| && depth[x] < |parent|
    requires forall k :: 0 <= k < |cs| ==> 0 <= cs[k] < |parent| && parent[cs[k]] == x
    requires forall j, k :: 0 <= j < k < |cs| ==> cs[j] != cs[k]
    ensures LeftMarginFold(parent, children, depth, x, cs, m) == m + |Subtrees(parent, depth, cs)|
    decreases |parent| - depth[x], 0, |cs|
  {
    if cs != [] {
      var c := cs[0];
      LeftMarginCounts(parent, children, depth, c, m + 1);
      var m' := LeftMargin(parent, children, depth, c, m + 1);
      LeftMarginFoldCounts(parent, children, depth, x, cs[1..], m');
      assert c !in cs[1..];
      SiblingSubtreesDisjoint(parent, depth, x, c, cs[1..]);
      SubtreeSize(parent, depth, c);
    }
  }

  /** A node occurs in the children array of its parent exactly once, and in no other. */
  lemma ChildOccursOnce(parent: seq<int>, children: seq<seq<int>>, depth: seq<nat>, x: int, y: int)
    requires Forest(parent, children, depth) && 0 <= x < |parent| && 0 <= y < |parent|
    ensures multiset(children[x])[y] == if parent[y] == x then 1 else 0
  {
    DistinctCountsOnce(children[x], y);
  }

  lemma {:induction false} DistinctCountsOnce(s: seq<int>, y: int)
    requires forall j, k :: 0 <= j < k < |s| ==> s[j] != s[k]
    ensures multiset(s)[y] == if y in s then 1 else 0
  {
    if s != [] {
      assert s == [s[0]] + s[1..];
      assert s[0] !in s[1..];
      DistinctCountsOnce(s[1..], y);
    }
  }

  /** The first `Object.values(margins).forEach` pass: every node's right margin. */
  method ComputeRightMargins(parent: seq<int>, ghost depth: seq<nat>) returns (rightMargins: seq<nat>)
    requires Ranked(parent, depth)
    ensures |rightMargins| == |parent|
    ensures forall x :: 0 <= x < |parent| ==> rightMargins[x] == |Ancestors(parent, depth, x)|
  {
    rightMargins := [];
    var i := 0;
    while i < |parent|
      invariant 0 <= i <= |parent| && |rightMargins| == i
      invariant forall x :: 0 <= x < i ==> rightMargins[x] == |Ancestors(parent, depth, x)|
    {
      rightMargins := rightMargins + [RightMargin(parent, depth, i)];
      i := i + 1;
    }
  }

  /** The second `Object.values(margins).forEach` pass: every node's left margin. */
  method ComputeLeftMargins(parent: seq<int>, children: seq<seq<int>>, ghost depth: seq<nat>) returns (leftMargins: seq<nat>)
    requires Forest(parent, children, depth)
    ensures |leftMargins| == |parent|
    ensures forall x :: 0 <= x < |parent| ==> leftMargins[x] == |Descendants(parent, depth, x)|
  {
    leftMargins := [];
    var i := 0;
    while i < |parent|
      invariant 0 <= i <= |parent| && |leftMargins| == i
      invariant forall x :: 0 <= x < i ==> leftMargins[x] == |Descendants(parent, depth, x)|
    {
      LeftMarginCounts(parent, children, depth, i, 0);
      leftMargins := leftMargins + [LeftMargin(parent, children, depth, i, 0)];
      i := i + 1;
    }
  }
}
