/**
 * The admin screen for testimonials: a form that inserts or edits a row,
 * and per-row actions that delete, toggle visibility or move a row up or
 * down. The backend table is the field `table`; every successful call
 * rewrites it and is followed by a fresh select, which the field
 * `testimonials` holds.
 */
module TestimonialsAdmin {
  import opened Common
  import opened TestimonialTable

  datatype FormData = FormData(
    title: string,
    description: string,
    imageUrl: string,
    isActive: bool,
    category: Category)

  /** The form as it starts and as a reset leaves it. */
  function EmptyForm(): (f: FormData)
    ensures f.title == "" && f.description == "" && f.imageUrl == ""
    ensures f.isActive && f.category == CustomerReviews
  {
    FormData("", "", "", true, CustomerReviews)
  }

  /** The form filled from a row, for editing; a missing category reads as customer reviews. */
  function FormOf(t: Testimonial): (f: FormData)
    ensures f.title == t.title && f.description == t.description && f.imageUrl == t.imageUrl
    ensures f.isActive == t.isActive
    ensures t.category.Some? ==> f.category == t.category.value
    ensures t.category.None? ==> f.category == CustomerReviews
  {
    FormData(t.title, t.description, t.imageUrl, t.isActive,
      if t.category.Some? then t.category.value else CustomerReviews)
  }

  /** Title and description are required. */
  predicate FormComplete(f: FormData)
  {
    Truthy(f.title) && Truthy(f.description)
  }

  /** `Math.max(0, ...rows.map(t => t.display_order))` */
  function MaxOrder(rows: seq<Testimonial>): (m: int)
    ensures m >= 0
    ensures forall i :: 0 <= i < |rows| ==> rows[i].displayOrder <= m
  {
    if rows == [] then 0
    else
      var rest := MaxOrder(rows[1..]);
      assert forall i :: 1 <= i < |rows| ==> rows[i] == rows[1..][i - 1];
      if rows[0].displayOrder > rest then rows[0].displayOrder else rest
  }

  /** The maximum is no larger than it must be: it is 0 or the order of some row. */
  lemma {:induction false} MaxOrderAttained(rows: seq<Testimonial>)
    ensures MaxOrder(rows) == 0 || exists i :: 0 <= i < |rows| && rows[i].displayOrder == MaxOrder(rows)
  {
    if rows != [] && MaxOrder(rows) != rows[0].displayOrder {
      MaxOrderAttained(rows[1..]);
      if MaxOrder(rows) != 0 {
        var i :| 0 <= i < |rows[1..]| && rows[1..][i].displayOrder == MaxOrder(rows[1..]);
        assert rows[i + 1].displayOrder == MaxOrder(rows);
      }
    }
  }

  /** The row an insert writes; the backend supplies its id and creation time. */
  function NewRow(f: FormData, order: int, id: Id, createdAt: string): (t: Testimonial)
    ensures t.id == id && t.displayOrder == order && t.createdAt == createdAt
    ensures t.title == f.title && t.description == f.description && t.imageUrl == f.imageUrl
    ensures t.isActive == f.isActive && t.category == Some(f.category)
  {
    Testimonial(id, f.title, f.description, f.imageUrl, order, f.isActive, Some(f.category), createdAt)
  }

  /** Opening an inserted row for editing shows the form it was inserted from. */
  lemma NewRowRoundTrip(f: FormData, order: int, id: Id, createdAt: string)
    ensures FormOf(NewRow(f, order, id, createdAt)) == f
  {
  }

  /** `update({title, description, image_url, is_active, category}).eq('id', id)` */
  function Edited(rows: seq<Testimonial>, id: Id, f: FormData): (r: seq<Testimonial>)
    ensures |r| == |rows|
    ensures forall i :: 0 <= i < |rows| ==>
      && r[i].id == rows[i].id
      && r[i].displayOrder == rows[i].displayOrder
      && r[i].createdAt == rows[i].createdAt
    ensures forall i :: 0 <= i < |rows| && rows[i].id != id ==> r[i] == rows[i]
    ensures forall i :: 0 <= i < |rows| && rows[i].id == id ==> FormOf(r[i]) == f && r[i].category == Some(f.category)
  {
    if rows == [] then []
    else
      var t := rows[0];
      var head := if t.id == id
        then t.(title := f.title, description := f.description, imageUrl := f.imageUrl,
                isActive := f.isActive, category := Some(f.category))
        else t;
      var rest := Edited(rows[1..], id, f);
      assert forall i :: 1 <= i < |rows| ==> rows[i] == rows[1..][i - 1] && ([head] + rest)[i] == rest[i - 1];
      [head] + rest
  }

  /** `delete().eq('id', id)` */
  function Deleted(rows: seq<Testimonial>, id: Id): (r: seq<Testimonial>)
    ensures forall t :: t in r <==> t in rows && t.id != id
    ensures multiset(r) <= multiset(rows)
  {
    if rows == [] then []
    else
      assert rows == [rows[0]] + rows[1..];
      var rest := Deleted(rows[1..], id);
      if rows[0].id == id then rest else [rows[0]] + rest
  }

  lemma UniqueIdsTail(rows: seq<Testimonial>)
    requires rows != [] && UniqueIds(rows)
    ensures UniqueIds(rows[1..])
    ensures forall t :: t in rows[1..] ==> t.id != rows[0].id
  {
    var tail := rows[1..];
    forall i, j | 0 <= i < j < |tail| ensures tail[i].id != tail[j].id {
      assert tail[i] == rows[i + 1] && tail[j] == rows[j + 1];
    }
    forall t | t in tail ensures t.id != rows[0].id {
      var k :| 0 <= k < |tail| && tail[k] == t;
      assert rows[k + 1] == t;
    }
  }

  lemma UniqueIdsCons(t: Testimonial, rest: seq<Testimonial>)
    requires UniqueIds(rest)
    requires forall u :: u in rest ==> u.id != t.id
    ensures UniqueIds([t] + rest)
  {
    var r := [t] + rest;
    forall i, j | 0 <= i < j < |r| ensures r[i].id != r[j].id {
      assert r[j] == rest[j - 1];
      if i > 0 {
        assert r[i] == rest[i - 1];
      }
    }
  }

  lemma {:induction false} DeletedKeepsIdsUnique(rows: seq<Testimonial>, id: Id)
    requires UniqueIds(rows)
    ensures UniqueIds(Deleted(rows, id))
  {
    if rows != [] {
      UniqueIdsTail(rows);
      DeletedKeepsIdsUnique(rows[1..], id);
      if rows[0].id != id {
        UniqueIdsCons(rows[0], Deleted(rows[1..], id));
      }
    }
  }

  /** `update({ is_active: !currentState }).eq('id', id)` */
  function Toggled(rows: seq<Testimonial>, id: Id, currentState: bool): (r: seq<Testimonial>)
    ensures |r| == |rows|
    ensures forall i :: 0 <= i < |rows| && rows[i].id != id ==> r[i] == rows[i]
    ensures forall i :: 0 <= i < |rows| && rows[i].id == id ==> r[i] == rows[i].(isActive := !currentState)
  {
    if rows == [] then []
    else
      var head := if rows[0].id == id then rows[0].(isActive := !currentState) else rows[0];
      var rest := Toggled(rows[1..], id, currentState);
      assert forall i :: 1 <= i < |rows| ==> rows[i] == rows[1..][i - 1] && ([head] + rest)[i] == rest[i - 1];
      [head] + rest
  }

  /** `update({ display_order: order }).eq('id', id)` */
  function WithOrder(rows: seq<Testimonial>, id: Id, order: int): (r: seq<Testimonial>)
    ensures |r| == |rows|
    ensures forall i :: 0 <= i < |rows| && rows[i].id != id ==> r[i] == rows[i]
    ensures forall i :: 0 <= i < |rows| && rows[i].id == id ==> r[i] == rows[i].(displayOrder := order)
  {
    if rows == [] then []
    else
      var head := if rows[0].id == id then rows[0].(displayOrder := order) else rows[0];
      var rest := WithOrder(rows[1..], id, order);
      assert forall i :: 1 <= i < |rows| ==> rows[i] == rows[1..][i - 1] && ([head] + rest)[i] == rest[i - 1];
      [head] + rest
  }

  datatype MoveDirection = Up | Down

  /** Moving the first row up or the last row down does nothing. */
  predicate MoveIsNoOp(index: nat, n: nat, dir: MoveDirection)
  {
    (dir == Up && index == 0) || (dir == Down && index == n - 1)
  }

  function MoveTarget(index: nat, dir: MoveDirection): int
  {
    if dir == Up then index - 1 else index + 1
  }

  /** The two writes of a move: the moved row takes the new position, its neighbour the old one. */
  function Reordered(rows: seq<Testimonial>, movedId: Id, newIndex: int, neighbourId: Id, index: int): (r: seq<Testimonial>)
    requires movedId != neighbourId
    ensures |r| == |rows|
    ensures forall i :: 0 <= i < |rows| ==> r[i] == rows[i].(displayOrder := r[i].displayOrder)
    ensures forall i :: 0 <= i < |rows| && rows[i].id == movedId ==> r[i].displayOrder == newIndex
    ensures forall i :: 0 <= i < |rows| && rows[i].id == neighbourId ==> r[i].displayOrder == index
    ensures forall i :: 0 <= i < |rows| && rows[i].id != movedId && rows[i].id != neighbourId ==> r[i] == rows[i]
  {
    WithOrder(WithOrder(rows, movedId, newIndex), neighbourId, index)
  }

  /** A move writes list positions, which need not be distinct from the orders other rows already hold. */
  lemma MoveCanDuplicateOrders()
    ensures var a := Testimonial("a", "A", "", "", 1, true, None, "");
      var b := Testimonial("b", "B", "", "", 2, true, None, "");
      var c := Testimonial("c", "C", "", "", 3, true, None, "");
      var r := Reordered([a, b, c], "c", 1, "b", 2);
      r[0].displayOrder == r[2].displayOrder == 1
  {
  }

  /** After a move up the moved row's display order is below its neighbour's; after a move down, above it. */
  lemma MoveOrdersAdjacent(rows: seq<Testimonial>, movedId: Id, neighbourId: Id, index: nat, dir: MoveDirection, i: int, j: int)
    requires movedId != neighbourId
    requires 0 <= i < |rows| && rows[i].id == movedId
    requires 0 <= j < |rows| && rows[j].id == neighbourId
    ensures var r := Reordered(rows, movedId, MoveTarget(index, dir), neighbourId, index);
      && (dir == Up ==> r[i].displayOrder < r[j].displayOrder)
      && (dir == Down ==> r[i].displayOrder > r[j].displayOrder)
  {
  }

  /** Rewrites that keep every row's id in place keep the ids unique. */
  lemma SameIdsKeepIdsUnique(rows: seq<Testimonial>, r: seq<Testimonial>)
    requires UniqueIds(rows) && |r| == |rows|
    requires forall i :: 0 <= i < |rows| ==> r[i].id == rows[i].id
    ensures UniqueIds(r)
  {
    forall i, j | 0 <= i < j < |r| ensures r[i].id != r[j].id {
      assert rows[i].id != rows[j].id;
    }
  }

  /** A move swaps the orders of two rows with different ids, so ids stay unique. */
  lemma MoveKeepsIdsUnique(table: seq<Testimonial>, index: nat, dir: MoveDirection)
    requires UniqueIds(table) && index < |table| && !MoveIsNoOp(index, |table|, dir)
    ensures var shown := ByDisplayOrder(table);
      var newIndex := MoveTarget(index, dir);
      && 0 <= newIndex < |shown|
      && shown[index].id != shown[newIndex].id
      && UniqueIds(Reordered(table, shown[index].id, newIndex, shown[newIndex].id, index))
  {
    var shown := ByDisplayOrder(table);
    var newIndex := MoveTarget(index, dir);
    PositionsHaveDistinctIds(table, index, newIndex);
    SameIdsKeepIdsUnique(table, Reordered(table, shown[index].id, newIndex, shown[newIndex].id, index));
  }

  lemma ToggledKeepsIdsUnique(rows: seq<Testimonial>, id: Id, currentState: bool)
    requires UniqueIds(rows)
    ensures UniqueIds(Toggled(rows, id, currentState))
  {
    SameIdsKeepIdsUnique(rows, Toggled(rows, id, currentState));
  }

  /** The order an insert takes is above every existing row's. */
  lemma NewOrderAboveAll(table: seq<Testimonial>)
    ensures MaxOrder(ByDisplayOrder(table)) + 1 >= 1
    ensures forall i :: 0 <= i < |table| ==> table[i].displayOrder < MaxOrder(ByDisplayOrder(table)) + 1
  {
    var shown := ByDisplayOrder(table);
    forall i | 0 <= i < |table| ensures table[i].displayOrder <= MaxOrder(shown) {
      assert table[i] in multiset(shown);
      var k :| 0 <= k < |shown| && shown[k] == table[i];
    }
  }

  lemma AppendFreshIdKeepsIdsUnique(table: seq<Testimonial>, row: Testimonial)
    requires UniqueIds(table)
    requires forall i :: 0 <= i < |table| ==> table[i].id != row.id
    ensures UniqueIds(table + [row])
  {
    var t := table + [row];
    forall i, j | 0 <= i < j < |t| ensures t[i].id != t[j].id {
      if j < |t| - 1 {
        assert table[i].id != table[j].id;
      }
    }
  }

  /**
   * An insert takes the largest display order shown plus one: the new row
   * is above every existing row, keeps ids unique, and is listed last.
   */
  lemma InsertedRowGoesLast(table: seq<Testimonial>, row: Testimonial)
    requires UniqueIds(table)
    requires forall i :: 0 <= i < |table| ==> table[i].id != row.id
    requires row.displayOrder == MaxOrder(ByDisplayOrder(table)) + 1
    ensures
      && row.displayOrder >= 1
      && (forall i :: 0 <= i < |table| ==> table[i].displayOrder < row.displayOrder)
      && UniqueIds(table + [row])
      && var shown := ByDisplayOrder(table + [row]);
         |shown| == |table| + 1 && shown[|shown| - 1] == row
  {
    NewOrderAboveAll(table);
    StrictMaximumComesLast(table, row);
    AppendFreshIdKeepsIdsUnique(table, row);
  }

  /** The admin component: the backend table, the list last fetched from it, and the form. */
  class Manager {
    var table: seq<Testimonial>
    var testimonials: seq<Testimonial>
    var form: FormData
    var editingId: Option<Id>
    var showAddForm: bool

    /** Ids are a key, and the list shown is what the last select returned. */
    ghost predicate Valid()
      reads this
    {
      UniqueIds(table) && testimonials == ByDisplayOrder(table)
    }

    constructor (rows: seq<Testimonial>)
      requires UniqueIds(rows)
      ensures Valid()
      ensures table == rows && form == EmptyForm() && editingId == None && !showAddForm
    {
      table := rows;
      testimonials := ByDisplayOrder(rows);
      form := EmptyForm();
      editingId := None;
      showAddForm := false;
    }

    /** `fetchTestimonials`: select every row ordered by display order. */
    method Fetch()
      modifies this`testimonials
      ensures testimonials == ByDisplayOrder(table)
    {
      testimonials := ByDisplayOrder(table);
    }

    /** `resetForm` */
    method ResetForm()
      modifies this
      ensures form == EmptyForm() && editingId == None && !showAddForm
      ensures table == old(table) && testimonials == old(testimonials)
    {
      form := EmptyForm();
      editingId := None;
      showAddForm := false;
    }

    /** `handleEdit`: load a row into the form and open it. */
    method Edit(t: Testimonial)
      requires Valid()
      modifies this
      ensures Valid()
      ensures editingId == Some(t.id) && form == FormOf(t) && showAddForm
      ensures table == old(table) && testimonials == old(testimonials)
    {
      editingId := Some(t.id);
      form := FormOf(t);
      showAddForm := true;
    }

    /**
     * `handleSubmit`. An incomplete form changes nothing. Otherwise the row
     * being edited (an id that is present and not empty) is updated, or a new row is inserted one past the
     * largest display order shown; then the form is reset and the list
     * fetched again. `freshId` and `now` are what the backend assigns.
     */
    method Submit(freshId: Id, now: string) returns (saved: bool)
      requires Valid()
      requires forall i :: 0 <= i < |table| ==> table[i].id != freshId
      modifies this
      ensures Valid()
      ensures saved == FormComplete(old(form))
      ensures !saved ==>
        table == old(table) && testimonials == old(testimonials) && form == old(form)
        && editingId == old(editingId) && showAddForm == old(showAddForm)
      ensures saved && old(editingId).Some? && Truthy(old(editingId).value) ==>
        table == Edited(old(table), old(editingId).value, old(form))
      ensures saved && (old(editingId).None? || !Truthy(old(editingId).value)) ==>
        var row := NewRow(old(form), MaxOrder(old(testimonials)) + 1, freshId, now);
        && table == old(table) + [row]
        && row.displayOrder >= 1
        && (forall i :: 0 <= i < |old(table)| ==> old(table)[i].displayOrder < row.displayOrder)
        && |testimonials| == |table| && testimonials[|testimonials| - 1] == row
      ensures saved ==> form == EmptyForm() && editingId == None && !showAddForm
    {
      if !Truthy(form.title) || !Truthy(form.description) {
        return false;
      }
      if editingId.Some? && Truthy(editingId.value) {
        SaveEdit();
      } else {
        SaveNew(freshId, now);
      }
      ResetForm();
      saved := true;
    }

    /** The update call of a submit while editing, and the select that follows it. */
    method SaveEdit()
      requires Valid() && editingId.Some?
      modifies this`table, this`testimonials
      ensures Valid()
      ensures table == Edited(old(table), editingId.value, form)
    {
      SameIdsKeepIdsUnique(table, Edited(table, editingId.value, form));
      table := Edited(table, editingId.value, form);
      testimonials := ByDisplayOrder(table);  // fetchTestimonials()
    }

    /** The insert call of a submit with no row being edited, and the select that follows it. */
    method SaveNew(freshId: Id, now: string)
      requires Valid()
      requires forall i :: 0 <= i < |table| ==> table[i].id != freshId
      modifies this`table, this`testimonials
      ensures Valid()
      ensures var row := NewRow(old(form), MaxOrder(old(testimonials)) + 1, freshId, now);
        && table == old(table) + [row]
        && row.displayOrder >= 1
        && (forall i :: 0 <= i < |old(table)| ==> old(table)[i].displayOrder < row.displayOrder)
        && |testimonials| == |table| && testimonials[|testimonials| - 1] == row
    {
      var row := NewRow(form, MaxOrder(testimonials) + 1, freshId, now);
      var newTable := table + [row];
      InsertedRowGoesLast(table, row);
      table := newTable;
      testimonials := ByDisplayOrder(newTable);  // fetchTestimonials()
    }

    /** `handleDelete`; `confirmed` is the answer to the confirmation dialog. */
    method Delete(id: Id, confirmed: bool)
      requires Valid()
      modifies this`table, this`testimonials
      ensures Valid()
      ensures confirmed ==> table == Deleted(old(table), id)
      ensures !confirmed ==> table == old(table) && testimonials == old(testimonials)
    {
      if confirmed {
        var newTable := Deleted(table, id);
        DeletedKeepsIdsUnique(table, id);
        table := newTable;
        testimonials := ByDisplayOrder(newTable);  // fetchTestimonials()
      }
    }

    /**
     * `toggleActive`: the row's visibility becomes the opposite of the state
     * shown for it; the frame leaves the form and the editing state alone.
     */
    method ToggleActive(id: Id, currentState: bool)
      requires Valid()
      modifies this`table, this`testimonials
      ensures Valid()
      ensures table == Toggled(old(table), id, currentState)
    {
      var newTable := Toggled(table, id, currentState);
      ToggledKeepsIdsUnique(table, id, currentState);
      table := newTable;
      testimonials := ByDisplayOrder(newTable);  // fetchTestimonials()
    }

    /**
     * `moveTestimonial`: unless the move would leave the list, the row at
     * `index` gets display order `newIndex` and the row at `newIndex` gets
     * display order `index` (both as one step), and the list is fetched again;
     * the frame leaves the form and the editing state alone.
     */
    method Move(index: nat, dir: MoveDirection)
      requires Valid()
      requires index < |testimonials|
      modifies this`table, this`testimonials
      ensures Valid()
      ensures MoveIsNoOp(index, |old(testimonials)|, dir) ==> table == old(table) && testimonials == old(testimonials)
      ensures !MoveIsNoOp(index, |old(testimonials)|, dir) ==>
        var newIndex := MoveTarget(index, dir);
        && 0 <= newIndex < |old(testimonials)|
        && old(testimonials)[index].id != old(testimonials)[newIndex].id
        && table == Reordered(old(table), old(testimonials)[index].id, newIndex, old(testimonials)[newIndex].id, index)
    {
      if !MoveIsNoOp(index, |testimonials|, dir) {
        var newIndex := MoveTarget(index, dir);
        MoveKeepsIdsUnique(table, index, dir);
        var movedId, neighbourId := testimonials[index].id, testimonials[newIndex].id;
        var newTable := Reordered(table, movedId, newIndex, neighbourId, index);
        table := newTable;
        testimonials := ByDisplayOrder(newTable);  // fetchTestimonials()
      }
    }
  }
}
