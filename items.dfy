/** The items a timeline shows, and the small lookups the engine does on them. */
module Items {

  datatype Option<T> = None | Some(value: T)

  /** An item id. Ids are compared through their string form in the
      source; here they are plain integers, so that comparison is equality. */
  type Id = int

  /** A timeline item. Times are whole minutes since an hour-aligned epoch;
      `color` stands for every field the engine copies without reading. */
  datatype Item = Item(id: Id, start: int, end: int, canDrag: bool, canResize: bool, color: string)

  /** The minutes between the item's start and its end (negative for an inverted item). */
  function Duration(item: Item): int
  {
    item.end - item.start
  }

  predicate HasId(items: seq<Item>, id: Id)
  {
    exists k :: 0 <= k < |items| && items[k].id == id
  }

  predicate DistinctIds(items: seq<Item>)
  {
    forall j, k :: 0 <= j < k < |items| ==> items[j].id != items[k].id
  }

  predicate SortedByStart(items: seq<Item>)
  {
    forall j, k :: 0 <= j < k < |items| ==> items[j].start <= items[k].start
  }

  /** `Array.prototype.find` by id: the position of the first item carrying `id`.
      The source dereferences the result without a check, so the id must be present. */
  function FindIndex(items: seq<Item>, id: Id): (k: nat)
    requires HasId(items, id)
    ensures k < |items| && items[k].id == id
    ensures forall j :: 0 <= j < k ==> items[j].id != id
  {
    if items[0].id == id then 0
    else
      assert HasId(items[1..], id) by {
        var k :| 0 <= k < |items| && items[k].id == id;
        assert items[1..][k - 1].id == id;
      }
      1 + FindIndex(items[1..], id)
  }

  /** The first item carrying `id`. */
  function Find(items: seq<Item>, id: Id): (r: Item)
    requires HasId(items, id)
    ensures r in items && r.id == id
    ensures DistinctIds(items) ==> forall k :: 0 <= k < |items| && items[k].id == id ==> items[k] == r
  {
    items[FindIndex(items, id)]
  }

  /** `Array.prototype.reverse`. */
  function Reverse(s: seq<Item>): (r: seq<Item>)
    ensures |r| == |s|
    ensures forall k :: 0 <= k < |s| ==> r[k] == s[|s| - 1 - k]
  {
    if s == [] then [] else Reverse(s[1..]) + [s[0]]
  }

  /** Reversing an ascending list gives a descending one. */
  lemma ReverseDescends(s: seq<Item>)
    requires SortedByStart(s)
    ensures forall j, k :: 0 <= j < k < |s| ==> Reverse(s)[j].start >= Reverse(s)[k].start
  {
    var r := Reverse(s);
    forall j, k | 0 <= j < k < |s|
      ensures r[j].start >= r[k].start
    {
      assert r[j] == s[|s| - 1 - j] && r[k] == s[|s| - 1 - k];
    }
  }

  /** Reversing keeps ids distinct. */
  lemma ReverseDistinct(s: seq<Item>)
    requires DistinctIds(s)
    ensures DistinctIds(Reverse(s))
  {
    var r := Reverse(s);
    forall j, k | 0 <= j < k < |s|
      ensures r[j].id != r[k].id
    {
      assert r[j] == s[|s| - 1 - j] && r[k] == s[|s| - 1 - k];
    }
  }

  /** Reversing is a permutation. */
  lemma {:induction false} ReversePermutes(s: seq<Item>)
    ensures multiset(Reverse(s)) == multiset(s)
  {
    if s != [] {
      ReversePermutes(s[1..]);
      assert s == [s[0]] + s[1..];
    }
  }

  /** With distinct ids an item occurs at most once. */
  lemma {:induction false} DistinctOccursOnce(s: seq<Item>, x: Item)
    requires DistinctIds(s)
    ensures multiset(s)[x] == if x in s then 1 else 0
  {
    if s != [] {
      assert s == [s[0]] + s[1..];
      assert DistinctIds(s[1..]) by {
        forall j, k | 0 <= j < k < |s[1..]|
          ensures s[1..][j].id != s[1..][k].id
        {
          assert s[1..][j] == s[j + 1] && s[1..][k] == s[k + 1];
        }
      }
      assert s[0] !in s[1..] by {
        forall k | 0 <= k < |s[1..]|
          ensures s[1..][k] != s[0]
        {
          assert s[1..][k].id == s[k + 1].id != s[0].id;
        }
      }
      DistinctOccursOnce(s[1..], x);
    }
  }

  /** An item at two positions occurs at least twice. */
  lemma TwiceCountsTwice(s: seq<Item>, j: int, k: int)
    requires 0 <= j < k < |s| && s[j] == s[k]
    ensures multiset(s)[s[j]] >= 2
  {
    assert s == s[..j] + [s[j]] + s[j + 1..k] + [s[k]] + s[k + 1..];
  }

  /** Reordering the items keeps their ids distinct. */
  lemma PermutationKeepsDistinct(a: seq<Item>, b: seq<Item>)
    requires DistinctIds(a) && multiset(a) == multiset(b)
    ensures DistinctIds(b)
  {
    forall j, k | 0 <= j < k < |b|
      ensures b[j].id != b[k].id
    {
      if b[j].id == b[k].id {
        assert b[j] in multiset(a) && b[k] in multiset(a);
        var p :| 0 <= p < |a| && a[p] == b[j];
        var q :| 0 <= q < |a| && a[q] == b[k];
        assert p == q;
        TwiceCountsTwice(b, j, k);
        DistinctOccursOnce(a, b[j]);
        assert false;
      }
    }
  }
}
