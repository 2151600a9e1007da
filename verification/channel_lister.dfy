/**
 * The talent-channel lister's snapshot: the channel items returned by the
 * API, sorted by id in ascending order (Python's stable `sorted`; string
 * ids compare as strings) and cut down to their `id` and `name`. Fetching
 * the list and writing the file are not modelled.
 */
module ChannelLister {

  import opened Json
  import opened Text
  import opened Sorting

  /** `item.get("id", "")`, the sort key. */
  function IdValue(item: Object): Value {
    GetOr(item, "id", Str(""))
  }

  /**
   * The kind of a sort key: Python orders integers among themselves and
   * strings among themselves, and refuses to compare an integer with a
   * string or to order `None`, lists or dictionaries.
   */
  function KeyRank(v: Value): nat {
    if v.Int? then 0 else if v.Str? then 1 else 2
  }

  /**
   * Python's `a <= b` on two sort keys of the same kind: integers by value,
   * strings by code points. Keys Python would not compare are ranked by
   * kind only, which keeps the order total; `ComparableIds` rules them out.
   */
  predicate KeyLe(a: Value, b: Value)
    ensures a == b ==> KeyLe(a, b)
  {
    if KeyRank(a) != KeyRank(b) then KeyRank(a) < KeyRank(b)
    else if a.Int? then a.i <= b.i
    else if a.Str? then LexLeReflexive(a.s); LexLe(a.s, b.s)
    else true
  }

  /**
   * The keys `sorted` compares without raising: a list of at most one item
   * is never compared; otherwise every id is a string, or every id is an
   * integer.
   */
  predicate ComparableIds(items: seq<Object>) {
    |items| <= 1 ||
    (forall i :: 0 <= i < |items| ==> IdValue(items[i]).Str?) ||
    (forall i :: 0 <= i < |items| ==> IdValue(items[i]).Int?)
  }

  /** `a` may come before `b` in the ascending sort by id. */
  predicate IdOrder(a: Object, b: Object) {
    KeyLe(IdValue(a), IdValue(b))
  }

  lemma {:induction false} KeyLeTotal(a: Value, b: Value)
    ensures KeyLe(a, b) || KeyLe(b, a)
  {
    if a.Str? && b.Str? {
      LexLeTotal(a.s, b.s);
    }
  }

  lemma {:induction false} KeyLeTransitive(a: Value, b: Value, c: Value)
    requires KeyLe(a, b) && KeyLe(b, c)
    ensures KeyLe(a, c)
  {
    if a.Str? && b.Str? && c.Str? {
      LexLeTransitive(a.s, b.s, c.s);
    }
  }

  lemma IdOrderIsTotalPreorder()
    ensures TotalPreorder(IdOrder)
  {
    forall a: Object, b: Object
      ensures IdOrder(a, b) || IdOrder(b, a)
    {
      KeyLeTotal(IdValue(a), IdValue(b));
    }
    forall a: Object, b: Object, c: Object | IdOrder(a, b) && IdOrder(b, c)
      ensures IdOrder(a, c)
    {
      KeyLeTransitive(IdValue(a), IdValue(b), IdValue(c));
    }
  }

  /** `{"id": item.get("id", ""), "name": item.get("name", "")}`. */
  function Project(item: Object): (row: Object)
    ensures row.Keys == {"id", "name"} && row["id"] == IdValue(item)
  {
    map["id" := GetOr(item, "id", Str("")), "name" := GetOr(item, "name", Str(""))]
  }

  /** `sorted(items, key=lambda item: item.get("id", ""))`: the same items, ascending by id. */
  function SortedItems(items: seq<Object>): (sorted: seq<Object>)
    ensures multiset(sorted) == multiset(items)
    ensures forall i, j :: 0 <= i < j < |sorted| ==> IdOrder(sorted[i], sorted[j])
  {
    IdOrderIsTotalPreorder();
    SortBySorted(items, IdOrder);
    SortBy(items, IdOrder)
  }

  /** The list written to the snapshot file. */
  function Snapshot(items: seq<Object>): (out: seq<Object>)
    requires ComparableIds(items)
    ensures |out| == |items|
  {
    var sorted := SortedItems(items);
    assert |sorted| == |items| by {
      assert |multiset(sorted)| == |multiset(items)|;
    }
    seq(|sorted|, i requires 0 <= i < |sorted| => Project(sorted[i]))
  }

  /**
   * One row per channel, each with exactly the keys `id` and `name`, the
   * rows in ascending order of id; with string ids, in ascending string
   * order.
   */
  lemma {:induction false} SnapshotShape(items: seq<Object>)
    requires ComparableIds(items)
    ensures var out := Snapshot(items);
            |out| == |items| &&
            (forall i :: 0 <= i < |out| ==> out[i].Keys == {"id", "name"}) &&
            (forall i, j :: 0 <= i < j < |out| ==> KeyLe(out[i]["id"], out[j]["id"]))
    ensures var out := Snapshot(items);
            (forall i :: 0 <= i < |items| ==> IdValue(items[i]).Str?) ==>
              (forall i :: 0 <= i < |out| ==> out[i]["id"].Str?) &&
              (forall i, j :: 0 <= i < j < |out| ==> LexLe(out[i]["id"].s, out[j]["id"].s))
  {
    var sorted: seq<Object> := SortedItems(items);
    var out: seq<Object> := Snapshot(items);
    forall i | 0 <= i < |out|
      ensures out[i]["id"] == IdValue(sorted[i])
    {
    }
    if forall i :: 0 <= i < |items| ==> IdValue(items[i]).Str? {
      forall i | 0 <= i < |out|
        ensures out[i]["id"].Str?
      {
        assert sorted[i] in multiset(items);
      }
    }
  }

  /**
   * The rows are the projections of a permutation of the input in which
   * channels with the same id keep their input order.
   */
  lemma {:induction false} SnapshotStablePermutation(items: seq<Object>)
    requires ComparableIds(items)
    ensures multiset(SortedItems(items)) == multiset(items)
    ensures forall i :: 0 <= i < |Snapshot(items)| ==> Snapshot(items)[i] == Project(SortedItems(items)[i])
    ensures forall x :: TieClass(SortedItems(items), x, IdOrder) == TieClass(items, x, IdOrder)
  {
    IdOrderIsTotalPreorder();
    forall x
      ensures TieClass(SortedItems(items), x, IdOrder) == TieClass(items, x, IdOrder)
    {
      SortByStable(items, x, IdOrder);
    }
  }

  /** Ids compare as strings, not as numbers: `c10` sorts between `c1` and `c2`. */
  lemma StringOrderExample()
    ensures var c1, c2, c10 := map["id" := Str("c1")], map["id" := Str("c2")], map["id" := Str("c10")];
            SortedItems([c2, c1, c10]) == [c1, c10, c2]
  {
    var c1, c2, c10 := map["id" := Str("c1")], map["id" := Str("c2")], map["id" := Str("c10")];
    ExampleKeyOrder();
    SortThree(c2, c1, c10, IdOrder);
  }

  lemma ExampleKeyOrder()
    ensures !LexLe("c2", "c1") && LexLe("c1", "c10") && !LexLe("c2", "c10")
  {
    assert "c2"[1..] == "2" && "c1"[1..] == "1" && "c10"[1..] == "10";
    assert "1"[1..] == "";
  }
}
