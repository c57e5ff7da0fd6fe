/** The category handlers: add, list and soft-delete, all for admins only. */
module CategoriesApi {
  import opened Http
  import opened Validation
  import opened Store

  /** A category as `GetCategorySchema` dumps it. */
  datatype CategoryView = CategoryView(id: Id, name: string, isActive: bool, createdBy: string)

  /** No two active categories share a name. */
  ghost predicate ActiveNamesUnique(categories: map<Id, Category>)
  {
    forall a, b ::
      (a in categories && b in categories && a != b && categories[a].isActive && categories[b].isActive) ==>
      categories[a].name != categories[b].name
  }

  /** `add_category`: 409 when an active category already has the name; otherwise a new
      active row created by the caller. */
  method AddCategory(db: Database, isAdmin: bool, user: string, name: string) returns (status: int)
    requires db.Valid()
    modifies db`categories, db`nextId
    ensures db.Valid()
    ensures !isAdmin ==> status == FORBIDDEN
    ensures isAdmin && !NameAcceptable(name) ==> status == BAD_REQUEST
    ensures isAdmin && NameAcceptable(name) && old(db.HasCategoryNamed(name)) ==> status == CONFLICT
    ensures status == CREATED <==> isAdmin && NameAcceptable(name) && !old(db.HasCategoryNamed(name))
    ensures status != CREATED ==> db.categories == old(db.categories) && db.nextId == old(db.nextId)
    ensures status == CREATED ==>
      old(db.nextId) !in old(db.categories) &&
      db.categories == old(db.categories)[old(db.nextId) := Category(name, true, user)]
    ensures ActiveNamesUnique(old(db.categories)) ==> ActiveNamesUnique(db.categories)
  {
    if !isAdmin {
      return FORBIDDEN;
    }
    if !NameAcceptable(name) {
      return BAD_REQUEST;
    }
    if db.HasCategoryNamed(name) {
      return CONFLICT;
    }
    var id := db.NewId();
    db.categories := db.categories[id := Category(name, true, user)];
    status := CREATED;
  }

  /** `get_all_categories`: the active categories. */
  function GetAllCategories(db: Database, isAdmin: bool): (r: (int, set<CategoryView>))
    reads db
    ensures !isAdmin ==> r == (FORBIDDEN, {})
    ensures isAdmin ==> r.0 == OK
    ensures forall v :: v in r.1 <==>
      isAdmin && v.id in db.categories && db.categories[v.id].isActive &&
      v == CategoryView(v.id, db.categories[v.id].name, true, db.categories[v.id].createdBy)
  {
    if !isAdmin then (FORBIDDEN, {})
    else (OK, set id | id in db.ActiveCategoryIds() ::
                CategoryView(id, db.categories[id].name, db.categories[id].isActive, db.categories[id].createdBy))
  }

  /** `delete_category`: a soft delete that does not look at `isActive`, so deleting
      twice succeeds twice; 404 only when there is no such row. */
  method DeleteCategory(db: Database, isAdmin: bool, id: Id) returns (status: int)
    requires db.Valid()
    modifies db`categories
    ensures db.Valid()
    ensures !isAdmin ==> status == FORBIDDEN
    ensures isAdmin && id !in old(db.categories) ==> status == NOT_FOUND
    ensures status == OK <==> isAdmin && id in old(db.categories)
    ensures status != OK ==> db.categories == old(db.categories)
    ensures status == OK ==>
      db.categories == old(db.categories)[id := old(db.categories)[id].(isActive := false)]
    ensures status == OK && !old(db.categories)[id].isActive ==> db.categories == old(db.categories)
    ensures ActiveNamesUnique(old(db.categories)) ==> ActiveNamesUnique(db.categories)
  {
    if !isAdmin {
      return FORBIDDEN;
    }
    if id !in db.categories {
      return NOT_FOUND;
    }
    db.categories := db.categories[id := db.categories[id].(isActive := false)];
    status := OK;
  }
}
