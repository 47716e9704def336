/**
 * The admin property list: its loader and its two form actions, `delete` and
 * `toggleFeatured`.
 */
module AdminProperties {
  import opened Wrappers
  import opened Validation
  import opened Records
  import opened Listing

  /** The columns the admin list selects. */
  datatype Row = Row(id: string, slug: string, title: string, propertyType: Option<string>,
                     price: int, isFeatured: bool)

  datatype ListPage = ListPage(properties: seq<Row>, error: Option<string>)

  datatype DeleteOutcome =
    | Deleted(deletedTitle: string)
    | DeleteFailed(status: int, deleteError: string)

  datatype ToggleOutcome =
    | Toggled(updatedTitle: string, updatedStatus: bool)
    | ToggleFailed(status: int, toggleError: string)

  const LoadFailed := "Failed to load properties."
  const InvalidId := "Invalid Property ID."
  const NotFound := "Property not found."
  const DeleteError := "Failed to delete property."
  const ToggleError := "Failed to update featured status."

  function ToRow(p: Property): (r: Row)
    ensures r.id == p.id && r.slug == p.slug && r.title == p.title
    ensures r.propertyType == p.propertyType && r.price == p.price && r.isFeatured == p.isFeatured
  {
    Row(p.id, p.slug, p.title, p.propertyType, p.price, p.isFeatured)
  }

  function Rows(ps: seq<Property>): (rs: seq<Row>)
    ensures |rs| == |ps|
    ensures forall i :: 0 <= i < |ps| ==> rs[i] == ToRow(ps[i])
  {
    seq(|ps|, i requires 0 <= i < |ps| => ToRow(ps[i]))
  }

  /** The loader, given the table's rows in any order, or `None` when the query fails. */
  function Load(rows: Option<seq<Property>>): (page: ListPage)
    ensures rows.None? ==> page == ListPage([], Some(LoadFailed))
    ensures rows.Some? ==>
      page.error.None? && exists s :: IsNewestFirstOf(s, rows.value) && page.properties == Rows(s)
  {
    if rows.None? then ListPage([], Some(LoadFailed))
    else
      var s := NewestFirst(rows.value);
      assert IsNewestFirstOf(s, rows.value);
      ListPage(Rows(s), None)
  }

  /** The `delete` action; `reachable` is false when the database fails the statement
      for a reason other than a missing row. */
  method Delete(store: Store, propertyId: Option<string>, reachable: bool) returns (r: DeleteOutcome)
    requires store.Valid()
    modifies store
    ensures store.Valid() && store.agents == old(store.agents)
    ensures !Truthy(propertyId) ==> r == DeleteFailed(400, InvalidId) && store.properties == old(store.properties)
    ensures Truthy(propertyId) && !reachable ==>
      r == DeleteFailed(500, DeleteError) && store.properties == old(store.properties)
    ensures Truthy(propertyId) && reachable && propertyId.value !in old(store.properties) ==>
      r == DeleteFailed(404, NotFound) && store.properties == old(store.properties)
    ensures Truthy(propertyId) && reachable && propertyId.value in old(store.properties) ==>
      && r == Deleted(old(store.properties)[propertyId.value].title)
      && store.properties == old(store.properties) - {propertyId.value}
  {
    if !Truthy(propertyId) {
      return DeleteFailed(400, InvalidId);
    }
    if !reachable {
      return DeleteFailed(500, DeleteError);
    }
    var deleted := store.DeleteProperty(propertyId.value);
    if deleted.Some? {
      r := Deleted(deleted.value.title);
    } else {
      r := DeleteFailed(404, NotFound);
    }
  }

  /** The state `toggleFeatured` writes: the negation of what the form reports, where
      only the exact text `"true"` reports a featured property. */
  function NewFeaturedState(currentFeaturedState: Option<string>): bool {
    currentFeaturedState != Some("true")
  }

  /** The row after the toggle. It flips the stored flag exactly when the form
      reported the stored state; a stale form writes the stored state again. */
  function ToggledRow(p: Property, currentFeaturedState: Option<string>): (q: Property)
    ensures q.(isFeatured := p.isFeatured) == p
    ensures q.isFeatured != p.isFeatured <==> (currentFeaturedState == Some("true")) == p.isFeatured
  {
    p.(isFeatured := NewFeaturedState(currentFeaturedState))
  }

  /** Submitting the toggle twice with the state each response reports restores the
      row, whatever the first form said. */
  lemma ToggleTwiceRestores(p: Property, first: Option<string>)
    requires (first == Some("true")) == p.isFeatured
    ensures var q := ToggledRow(p, first);
      ToggledRow(q, if q.isFeatured then Some("true") else Some("false")) == p
  {
  }

  /** The `toggleFeatured` action. */
  method ToggleFeatured(store: Store, propertyId: Option<string>, currentFeaturedState: Option<string>,
                        reachable: bool) returns (r: ToggleOutcome)
    requires store.Valid()
    modifies store
    ensures store.Valid() && store.agents == old(store.agents)
    ensures !Truthy(propertyId) ==> r == ToggleFailed(400, InvalidId) && store.properties == old(store.properties)
    ensures Truthy(propertyId) && !reachable ==>
      r == ToggleFailed(500, ToggleError) && store.properties == old(store.properties)
    ensures Truthy(propertyId) && reachable && propertyId.value !in old(store.properties) ==>
      r == ToggleFailed(404, NotFound) && store.properties == old(store.properties)
    ensures Truthy(propertyId) && reachable && propertyId.value in old(store.properties) ==>
      var q := ToggledRow(old(store.properties)[propertyId.value], currentFeaturedState);
      && r == Toggled(q.title, q.isFeatured)
      && store.properties == old(store.properties)[propertyId.value := q]
  {
    var newState := NewFeaturedState(currentFeaturedState);
    if !Truthy(propertyId) {
      return ToggleFailed(400, InvalidId);
    }
    if !reachable {
      return ToggleFailed(500, ToggleError);
    }
    var updated := store.SetFeatured(propertyId.value, newState);
    if updated.Some? {
      r := Toggled(updated.value.title, updated.value.isFeatured);
    } else {
      r := ToggleFailed(404, NotFound);
    }
  }
}
