/**
 * The sub-category handlers: add under an active parent, list all, list by parent, and
 * soft-delete, all for admins only.
 */
module SubCategoriesApi {
  import opened Http
  import opened Validation
  import opened Store

  const UnknownParent: string := "Unknown"

  /** One entry of the `get_all_sub_categories` listing. */
  datatype SubCategoryListing = SubCategoryListing(
    id: Id, name: string, parentId: Id, parentName: string, isActive: bool, createdBy: string)

  /** A sub-category as `GetSubCategorySchema` dumps it. */
  datatype SubCategoryView = SubCategoryView(id: Id, name: string, parentId: Id, isActive: bool, createdBy: string)

  /** No two active sub-categories of one parent share a name. */
  ghost predicate ActivePairsUnique(subs: map<Id, SubCategory>)
  {
    forall a, b ::
      (a in subs && b in subs && a != b && subs[a].isActive && subs[b].isActive &&
       subs[a].parentId == subs[b].parentId) ==>
      subs[a].name != subs[b].name
  }

  /** The parent's name through the `parent_category` relationship, or "Unknown" when
      there is no parent row. */
  function ParentName(db: Database, parentId: Id): string
    reads db
  {
    if parentId in db.categories then db.categories[parentId].name else UnknownParent
  }

  function ListingOf(db: Database, id: Id): SubCategoryListing
    reads db
    requires id in db.subCategories
  {
    var s := db.subCategories[id];
    SubCategoryListing(id, s.name, s.parentId, ParentName(db, s.parentId), s.isActive, s.createdBy)
  }

  /** The row `id` as `GetSubCategorySchema` dumps it. */
  function ViewOf(db: Database, id: Id): SubCategoryView
    reads db
    requires id in db.subCategories
  {
    var s := db.subCategories[id];
    SubCategoryView(id, s.name, s.parentId, s.isActive, s.createdBy)
  }

  /** `add_sub_category`: the parent must exist and be active (404 otherwise), checked
      before the name: 409 when an active sub-category of that parent has the name. */
  method AddSubCategory(db: Database, isAdmin: bool, user: string, name: string, parentId: Id)
    returns (status: int)
    requires db.Valid()
    modifies db`subCategories, db`nextId
    ensures db.Valid()
    ensures !isAdmin ==> status == FORBIDDEN
    ensures isAdmin && !NameAcceptable(name) ==> status == BAD_REQUEST
    ensures isAdmin && NameAcceptable(name) && !old(db.CategoryActive(parentId)) ==> status == NOT_FOUND
    ensures (isAdmin && NameAcceptable(name) && old(db.CategoryActive(parentId)) &&
             old(db.HasSubCategoryNamed(name, parentId))) ==> status == CONFLICT
    ensures status == CREATED <==>
      isAdmin && NameAcceptable(name) && old(db.CategoryActive(parentId)) &&
      !old(db.HasSubCategoryNamed(name, parentId))
    ensures status != CREATED ==> db.subCategories == old(db.subCategories) && db.nextId == old(db.nextId)
    ensures status == CREATED ==>
      old(db.nextId) !in old(db.subCategories) &&
      db.subCategories == old(db.subCategories)[old(db.nextId) := SubCategory(name, parentId, true, user)]
    ensures ActivePairsUnique(old(db.subCategories)) ==> ActivePairsUnique(db.subCategories)
  {
    if !isAdmin {
      return FORBIDDEN;
    }
    if !NameAcceptable(name) {
      return BAD_REQUEST;
    }
    if !db.CategoryActive(parentId) {
      return NOT_FOUND;
    }
    if db.HasSubCategoryNamed(name, parentId) {
      return CONFLICT;
    }
    var id := db.NewId();
    db.subCategories := db.subCategories[id := SubCategory(name, parentId, true, user)];
    status := CREATED;
  }

  /** `get_all_sub_categories`: one listing entry per active sub-category, each once,
      carrying its parent's name. Rows are never removed, so the parent row is always
      there and the "Unknown" fallback is never taken. */
  method GetAllSubCategories(db: Database, isAdmin: bool) returns (status: int, result: seq<SubCategoryListing>)
    requires db.Valid()
    ensures !isAdmin ==> status == FORBIDDEN && result == []
    ensures isAdmin ==> status == OK
    ensures forall k :: 0 <= k < |result| ==>
      result[k].id in db.subCategories && db.subCategories[result[k].id].isActive &&
      result[k] == ListingOf(db, result[k].id)
    ensures forall id :: id in db.subCategories && db.subCategories[id].isActive && isAdmin ==>
      exists k :: 0 <= k < |result| && result[k].id == id
    ensures forall i, j :: 0 <= i < j < |result| ==> result[i].id != result[j].id
    ensures forall k :: 0 <= k < |result| ==>
      result[k].parentId in db.categories && result[k].parentName == db.categories[result[k].parentId].name
  {
    if !isAdmin {
      return FORBIDDEN, [];
    }
    var ids := Enumerate(db.ActiveSubCategoryIds());
    result := [];
    assert forall k :: 0 <= k < |ids| ==> ids[k] in db.ActiveSubCategoryIds() by {
      forall k | 0 <= k < |ids| ensures ids[k] in db.ActiveSubCategoryIds() {
        assert ids[k] in ids;
      }
    }
    for i := 0 to |ids|
      invariant |result| == i
      invariant forall k :: 0 <= k < i ==> result[k].id == ids[k] && result[k] == ListingOf(db, ids[k])
    {
      var sub := db.subCategories[ids[i]];
      var parentName := if sub.parentId in db.categories then db.categories[sub.parentId].name else UnknownParent;
      result := result + [SubCategoryListing(ids[i], sub.name, sub.parentId, parentName, sub.isActive, sub.createdBy)];
    }
    status := OK;
    forall id | id in db.subCategories && db.subCategories[id].isActive
      ensures exists k :: 0 <= k < |result| && result[k].id == id
    {
      assert id in db.ActiveSubCategoryIds();
      assert id in ids;
      var k :| 0 <= k < |ids| && ids[k] == id;
      assert result[k].id == id;
    }
  }

  /** `get_sub_categories_by_parent`: the active sub-categories whose parent is
      `parentId`. */
  function GetSubCategoriesByParent(db: Database, isAdmin: bool, parentId: Id): (r: (int, set<SubCategoryView>))
    reads db
    ensures !isAdmin ==> r == (FORBIDDEN, {})
    ensures isAdmin ==> r.0 == OK
    ensures forall v :: v in r.1 ==>
      v.id in db.subCategories && db.SubCategoryActive(v.id) && v.parentId == parentId &&
      db.subCategories[v.id].parentId == parentId && v == ViewOf(db, v.id)
    ensures isAdmin ==> forall id ::
      id in db.subCategories && db.SubCategoryActive(id) && db.subCategories[id].parentId == parentId ==>
      ViewOf(db, id) in r.1
  {
    if !isAdmin then (FORBIDDEN, {})
    else (OK, set id | id in db.SubCategoryIdsOf(parentId) && db.subCategories[id].isActive :: ViewOf(db, id))
  }

  /** `delete_sub_category`: a soft delete that does not look at `isActive`; 404 only
      when there is no such row. */
  method DeleteSubCategory(db: Database, isAdmin: bool, id: Id) returns (status: int)
    requires db.Valid()
    modifies db`subCategories
    ensures db.Valid()
    ensures !isAdmin ==> status == FORBIDDEN
    ensures isAdmin && id !in old(db.subCategories) ==> status == NOT_FOUND
    ensures status == OK <==> isAdmin && id in old(db.subCategories)
    ensures status != OK ==> db.subCategories == old(db.subCategories)
    ensures status == OK ==>
      db.subCategories == old(db.subCategories)[id := old(db.subCategories)[id].(isActive := false)]
    ensures status == OK && !old(db.subCategories)[id].isActive ==> db.subCategories == old(db.subCategories)
    ensures ActivePairsUnique(old(db.subCategories)) ==> ActivePairsUnique(db.subCategories)
  {
    if !isAdmin {
      return FORBIDDEN;
    }
    if id !in db.subCategories {
      return NOT_FOUND;
    }
    db.subCategories := db.subCategories[id := db.subCategories[id].(isActive := false)];
    status := OK;
  }
}
