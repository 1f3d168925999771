/**
 * The rows of the backend's testimonials table, and the two selections the
 * storefront makes from it: all rows by ascending display order (the admin
 * list) and the active rows by ascending display order (the public gallery).
 */
module TestimonialTable {
  import opened Common
  import opened Sorting

  type Id = string

  datatype Category = ProofOfTransactions | ProofOfDelivered | CustomerReviews

  /** One row; `category` is null in rows written before the column existed. */
  datatype Testimonial = Testimonial(
    id: Id,
    title: string,
    description: string,
    imageUrl: string,
    displayOrder: int,
    isActive: bool,
    category: Option<Category>,
    createdAt: string)

  /** `order('display_order', { ascending: true })` */
  function OrderLe(): (Testimonial, Testimonial) -> bool
  {
    (a: Testimonial, b: Testimonial) => a.displayOrder <= b.displayOrder
  }

  function IdKey(): Testimonial -> Id
  {
    (t: Testimonial) => t.id
  }

  /** The table's primary key: no two rows share an id. */
  ghost predicate UniqueIds(rows: seq<Testimonial>)
  {
    forall i, j :: 0 <= i < j < |rows| ==> rows[i].id != rows[j].id
  }

  /** The rows as a select ordered by ascending display order returns them. */
  function ByDisplayOrder(rows: seq<Testimonial>): (r: seq<Testimonial>)
    ensures multiset(r) == multiset(rows) && |r| == |rows|
    ensures forall i, j :: 0 <= i < j < |r| ==> r[i].displayOrder <= r[j].displayOrder
  {
    assert TotalPreorder(OrderLe());
    SortByIsSorted(rows, OrderLe());
    var r := SortBy(rows, OrderLe());
    assert forall i, j :: 0 <= i < j < |r| ==> OrderLe()(r[i], r[j]);
    r
  }

  lemma ByDisplayOrderKeepsIdsUnique(rows: seq<Testimonial>)
    requires UniqueIds(rows)
    ensures UniqueIds(ByDisplayOrder(rows))
  {
    assert InjectiveOn(rows, IdKey()) by {
      forall i, j | 0 <= i < j < |rows| ensures IdKey()(rows[i]) != IdKey()(rows[j]) {
        assert rows[i].id != rows[j].id;
      }
    }
    SortByKeepsInjective(rows, OrderLe(), IdKey());
    var r := SortBy(rows, OrderLe());
    forall i, j | 0 <= i < j < |r| ensures r[i].id != r[j].id {
      assert IdKey()(r[i]) != IdKey()(r[j]);
    }
  }

  /** Two positions of the ordered list hold rows with different ids. */
  lemma PositionsHaveDistinctIds(rows: seq<Testimonial>, i: int, j: int)
    requires UniqueIds(rows)
    requires 0 <= i < |rows| && 0 <= j < |rows| && i != j
    ensures ByDisplayOrder(rows)[i].id != ByDisplayOrder(rows)[j].id
  {
    ByDisplayOrderKeepsIdsUnique(rows);
    var r := ByDisplayOrder(rows);
    if i < j {
      assert r[i].id != r[j].id;
    } else {
      assert r[j].id != r[i].id;
    }
  }

  /** `eq('is_active', true)` */
  function ActiveOnly(rows: seq<Testimonial>): (r: seq<Testimonial>)
    ensures forall t :: t in r <==> t in rows && t.isActive
  {
    if rows == [] then []
    else
      assert rows == [rows[0]] + rows[1..];
      if rows[0].isActive then [rows[0]] + ActiveOnly(rows[1..]) else ActiveOnly(rows[1..])
  }

  /** Every active row is kept as often as the table holds it, and no inactive row is kept. */
  lemma {:induction false} ActiveKeepsMultiplicities(rows: seq<Testimonial>)
    ensures var r := ActiveOnly(rows);
      forall t :: multiset(r)[t] == if t.isActive then multiset(rows)[t] else 0
  {
    if rows != [] {
      assert rows == [rows[0]] + rows[1..];
      ActiveKeepsMultiplicities(rows[1..]);
    }
  }

  /** The selection keeps the table's order: it distributes over appending a row. */
  lemma {:induction false} ActiveOnlyAppend(rows: seq<Testimonial>, t: Testimonial)
    ensures ActiveOnly(rows + [t]) == ActiveOnly(rows) + (if t.isActive then [t] else [])
  {
    var tail := if t.isActive then [t] else [];
    if rows == [] {
      assert ActiveOnly([t]) == tail + ActiveOnly([]);
    } else {
      var all := rows + [t];
      assert all[0] == rows[0] && all[1..] == rows[1..] + [t];
      ActiveOnlyAppend(rows[1..], t);
      var rest := ActiveOnly(rows[1..]);
      assert ActiveOnly(all[1..]) == rest + tail;
      if rows[0].isActive {
        calc {
          ActiveOnly(all);
          [rows[0]] + ActiveOnly(all[1..]);
          [rows[0]] + (rest + tail);
          ([rows[0]] + rest) + tail;
          ActiveOnly(rows) + tail;
        }
      } else {
        assert ActiveOnly(all) == ActiveOnly(all[1..]);
        assert ActiveOnly(rows) == rest;
      }
    }
  }

  /** The last row of a list in display order has the largest display order of all its rows. */
  lemma SortedLastIsMax(r: seq<Testimonial>)
    requires r != []
    requires forall i, j :: 0 <= i < j < |r| ==> r[i].displayOrder <= r[j].displayOrder
    ensures forall t :: t in r ==> t.displayOrder <= r[|r| - 1].displayOrder
  {
    forall t | t in r ensures t.displayOrder <= r[|r| - 1].displayOrder {
      var k :| 0 <= k < |r| && r[k] == t;
      if k < |r| - 1 {
        assert r[k].displayOrder <= r[|r| - 1].displayOrder;
      }
    }
  }

  lemma SameMultisetSameMembers(a: seq<Testimonial>, b: seq<Testimonial>)
    requires multiset(a) == multiset(b)
    ensures forall t :: t in a <==> t in b
  {
    assert forall t :: t in a <==> t in multiset(a);
    assert forall t :: t in b <==> t in multiset(b);
  }

  /**
   * A row strictly above every other display order comes last in the
   * ordered list, whatever the stable order does with ties among the rest.
   */
  lemma StrictMaximumComesLast(rows: seq<Testimonial>, x: Testimonial)
    requires forall i :: 0 <= i < |rows| ==> rows[i].displayOrder < x.displayOrder
    ensures var r := ByDisplayOrder(rows + [x]);
      |r| == |rows| + 1 && r[|r| - 1] == x
  {
    var all := rows + [x];
    var r := ByDisplayOrder(all);
    SameMultisetSameMembers(r, all);
    assert x in all;
    SortedLastIsMax(r);
    var last := r[|r| - 1];
    assert last in all && x.displayOrder <= last.displayOrder;
  }
}
