/**
 * The order-menu handlers: replacing the menu of an order, the category tree offered
 * for menu selection, and the check whether an order has a menu.
 */
module OrderMenuApi {
  import opened Wrappers
  import opened Http
  import opened Validation
  import opened Store

  // ---------------------------------------------------------------------------------
  // The update request and its two accepted shapes
  // ---------------------------------------------------------------------------------

  /** One element of the submitted item list; a key the element lacks is `None`. */
  datatype MenuEntry = MenuEntry(
    orderId: Option<Id>, subCategoryId: Option<Id>, quantity: Option<int>, notes: Option<string>)

  /** The body of an update request; a key the body lacks is `None`. Either
      `{items, general_notes}` or `{order_id, menu_items, general_notes}`. */
  datatype MenuRequest = MenuRequest(
    items: Option<seq<MenuEntry>>,
    orderId: Option<Id>,
    menuItems: Option<seq<MenuEntry>>,
    generalNotes: Option<string>)

  /** What the request shape selects: the order, the entries to store and the note, or
      the status the handler answers with before it touches the store. */
  datatype Dispatch = Target(orderId: Id, entries: seq<MenuEntry>, notes: string) | Reject(status: int)

  /** The request-shape dispatch of `update_order_menu`. With `items` the order comes
      from the first item alone (an empty list is refused, and a first item without
      `order_id` raises, which the handler turns into 500); otherwise both `order_id`
      and `menu_items` must be there. A missing `general_notes` is the empty text. */
  function DispatchRequest(req: MenuRequest): (d: Dispatch)
    ensures d.Reject? ==> d.status == BAD_REQUEST || d.status == SERVER_ERROR
    ensures req.items == Some([]) ==> d == Reject(BAD_REQUEST)
    ensures req.items.Some? && req.items.value != [] && req.items.value[0].orderId.None? ==>
      d == Reject(SERVER_ERROR)
    ensures req.items.None? && !(req.orderId.Some? && req.menuItems.Some?) ==> d == Reject(BAD_REQUEST)
    ensures d.Target? ==> d.notes == req.generalNotes.GetOr("")
    ensures req.items.Some? ==> (d.Target? <==> req.items.value != [] && req.items.value[0].orderId.Some?)
    ensures d.Target? && req.items.Some? ==> d.entries == req.items.value && d.orderId == req.items.value[0].orderId.value
    ensures d.Target? && req.items.None? ==>
      req.menuItems.Some? && req.orderId.Some? && d.entries == req.menuItems.value && d.orderId == req.orderId.value
  {
    if req.items.Some? then
      var entries := req.items.value;
      if entries == [] then Reject(BAD_REQUEST)
      else if entries[0].orderId.None? then Reject(SERVER_ERROR)
      else Target(entries[0].orderId.value, entries, req.generalNotes.GetOr(""))
    else if req.orderId.Some? && req.menuItems.Some? then
      Target(req.orderId.value, req.menuItems.value, req.generalNotes.GetOr(""))
    else
      Reject(BAD_REQUEST)
  }

  /** An `items` list that is there but empty is refused with 400, whatever else the
      body holds; an empty `menu_items` list in the other shape is accepted. */
  lemma EmptyListsDispatch(req: MenuRequest)
    ensures req.items == Some([]) ==> DispatchRequest(req) == Reject(BAD_REQUEST)
    ensures req.items.None? && req.orderId.Some? && req.menuItems == Some([]) ==>
      DispatchRequest(req) == Target(req.orderId.value, [], req.generalNotes.GetOr(""))
  {
  }

  /** When `items` is there, the other shape's keys are ignored. */
  lemma ItemsShapeTakesPrecedence(req: MenuRequest, orderId: Option<Id>, menuItems: Option<seq<MenuEntry>>)
    requires req.items.Some?
    ensures DispatchRequest(req.(orderId := orderId, menuItems := menuItems)) == DispatchRequest(req)
  {
  }

  /** With `items`, the order id of any item but the first, and every item's quantity and
      notes, have no influence on the dispatch beyond being carried in the entries. */
  lemma OnlyFirstItemNamesTheOrder(req: MenuRequest, k: nat, e: MenuEntry)
    requires req.items.Some? && 0 < k < |req.items.value|
    requires e.subCategoryId == req.items.value[k].subCategoryId
    ensures var d, d' := DispatchRequest(req), DispatchRequest(req.(items := Some(req.items.value[k := e])));
      d.Target? == d'.Target? && (d.Target? ==> d.orderId == d'.orderId && d.notes == d'.notes)
  {
  }

  // ---------------------------------------------------------------------------------
  // Storing the entries
  // ---------------------------------------------------------------------------------

  /** An entry is stored when it names a sub-category that exists and is active. */
  predicate Resolves(subs: map<Id, SubCategory>, e: MenuEntry)
  {
    e.subCategoryId.Some? && e.subCategoryId.value in subs && subs[e.subCategoryId.value].isActive
  }

  /** The position of the first entry that is not stored, or `|entries|` when every
      entry is: the loop stops there. */
  function FirstUnresolved(subs: map<Id, SubCategory>, entries: seq<MenuEntry>): (j: nat)
    ensures j <= |entries|
    ensures forall k :: 0 <= k < j ==> Resolves(subs, entries[k])
    ensures j < |entries| ==> !Resolves(subs, entries[j])
    decreases |entries|
  {
    if entries == [] then 0
    else if !Resolves(subs, entries[0]) then 0
    else 1 + FirstUnresolved(subs, entries[1..])
  }

  /** The status the loop ends with: 200 when every entry is stored; at the first entry
      that is not, 500 when it has no `sub_category_id` (the lookup raises) and 404 when
      its sub-category is missing or inactive. */
  function LoopStatus(subs: map<Id, SubCategory>, entries: seq<MenuEntry>): (status: int)
    ensures status == OK <==> FirstUnresolved(subs, entries) == |entries|
    ensures status == OK || status == NOT_FOUND || status == SERVER_ERROR
    ensures status == NOT_FOUND <==>
      (exists k :: 0 <= k < |entries| && !Resolves(subs, entries[k])) &&
      entries[FirstUnresolved(subs, entries)].subCategoryId.Some?
  {
    var j := FirstUnresolved(subs, entries);
    if j == |entries| then OK
    else if entries[j].subCategoryId.None? then SERVER_ERROR
    else NOT_FOUND
  }

  /** The row stored for a resolved entry: quantity 1 and no notes, whatever the entry
      carried, created by the caller. */
  function ItemRow(orderId: Id, e: MenuEntry, user: string): MenuItem
    requires e.subCategoryId.Some?
  {
    MenuItem(orderId, e.subCategoryId.value, 1, None, true, user)
  }

  /** `before` after `entries` were saved one after the other under the ids `start`,
      `start + 1`, ... */
  function SavedRows(before: map<Id, MenuItem>, start: Id, orderId: Id, entries: seq<MenuEntry>, user: string)
    : map<Id, MenuItem>
    requires forall k :: 0 <= k < |entries| ==> entries[k].subCategoryId.Some?
    decreases |entries|
  {
    if entries == [] then before
    else
      var n := |entries| - 1;
      SavedRows(before, start, orderId, entries[..n], user)[start + n := ItemRow(orderId, entries[n], user)]
  }

  /** The ids `start`, ..., `start + n - 1` that `n` calls of `set_id` hand out. */
  function FreshIds(start: Id, n: nat): (ids: seq<Id>)
    ensures |ids| == n && forall k :: 0 <= k < n ==> ids[k] == start + k
  {
    seq(n, k requires 0 <= k => start + k)
  }

  /** Saving one more entry of `entries` adds its row under the next fresh id. */
  lemma SavedRowsSnoc(before: map<Id, MenuItem>, start: Id, orderId: Id, entries: seq<MenuEntry>, user: string, i: nat)
    requires i < |entries| && forall k :: 0 <= k <= i ==> entries[k].subCategoryId.Some?
    ensures SavedRows(before, start, orderId, entries[..i + 1], user) ==
            SavedRows(before, start, orderId, entries[..i], user)[start + i := ItemRow(orderId, entries[i], user)]
  {
    assert entries[..i + 1][..i] == entries[..i];
  }

  /** Saving never changes a row that was there before the first fresh id. */
  lemma {:induction false} SavedRowsKeepOld(before: map<Id, MenuItem>, start: Id, orderId: Id,
                                            entries: seq<MenuEntry>, user: string, id: Id)
    requires forall k :: 0 <= k < |entries| ==> entries[k].subCategoryId.Some?
    requires id in before && id < start
    ensures var saved := SavedRows(before, start, orderId, entries, user); id in saved && saved[id] == before[id]
    decreases |entries|
  {
    if entries != [] {
      SavedRowsKeepOld(before, start, orderId, entries[..|entries| - 1], user, id);
    }
  }

  /** The `k`-th entry is saved under the `k`-th fresh id. */
  lemma {:induction false} SavedRowsHoldEntry(before: map<Id, MenuItem>, start: Id, orderId: Id,
                                              entries: seq<MenuEntry>, user: string, k: nat)
    requires forall k :: 0 <= k < |entries| ==> entries[k].subCategoryId.Some?
    requires k < |entries|
    ensures var saved := SavedRows(before, start, orderId, entries, user);
      start + k in saved && saved[start + k] == ItemRow(orderId, entries[k], user)
    decreases |entries|
  {
    var n := |entries| - 1;
    if k < n {
      SavedRowsHoldEntry(before, start, orderId, entries[..n], user, k);
      assert entries[..n][k] == entries[k];
    }
  }

  /** Every row after saving was there before or has one of the fresh ids. */
  lemma {:induction false} SavedRowsOnlyFresh(before: map<Id, MenuItem>, start: Id, orderId: Id,
                                              entries: seq<MenuEntry>, user: string, id: Id)
    requires forall k :: 0 <= k < |entries| ==> entries[k].subCategoryId.Some?
    requires id in SavedRows(before, start, orderId, entries, user)
    ensures id in before || start <= id < start + |entries|
    decreases |entries|
  {
    var n := |entries| - 1;
    if entries != [] && id != start + n {
      SavedRowsOnlyFresh(before, start, orderId, entries[..n], user, id);
    }
  }

  /** The loop of `update_order_menu`: one new row per entry, in order, until the first
      entry that is not resolved. Rows saved before that entry stay. */
  method SaveEntries(db: Database, orderId: Id, entries: seq<MenuEntry>, user: string)
    returns (status: int, created: seq<Id>)
    requires db.Valid() && orderId in db.orders
    modifies db`menuItems, db`nextId
    ensures db.Valid()
    ensures status == LoopStatus(db.subCategories, entries)
    ensures |created| == FirstUnresolved(db.subCategories, entries)
    ensures created == FreshIds(old(db.nextId), |created|)
    ensures db.menuItems == SavedRows(old(db.menuItems), old(db.nextId), orderId, entries[..|created|], user)
  {
    created := [];
    for i := 0 to |entries|
      invariant i <= FirstUnresolved(db.subCategories, entries)
      invariant db.Valid()
      invariant db.nextId == old(db.nextId) + i
      invariant created == FreshIds(old(db.nextId), i)
      invariant db.menuItems == SavedRows(old(db.menuItems), old(db.nextId), orderId, entries[..i], user)
    {
      var entry := entries[i];
      if entry.subCategoryId.None? {
        status := SERVER_ERROR;
        return;
      }
      if !db.SubCategoryActive(entry.subCategoryId.value) {
        status := NOT_FOUND;
        return;
      }
      SavedRowsSnoc(old(db.menuItems), old(db.nextId), orderId, entries, user, i);
      var id := db.AddMenuItem(ItemRow(orderId, entry, user));
      created := created + [id];
    }
    status := OK;
  }

  /** The handler reaches the store: an admin caller, an accepted request shape and an
      active target order. */
  predicate Reaches(db: Database, isAdmin: bool, req: MenuRequest)
    reads db
  {
    isAdmin && DispatchRequest(req).Target? && db.OrderActive(DispatchRequest(req).orderId)
  }

  /** The menu rows after the menu of `orderId` was replaced, given the rows `items`
      before: the rows `created`, fresh and one per entry of a prefix of `entries`, were
      added; every old row of the order is inactive and no other row changed; so the
      active rows of the order are exactly the created ones. */
  ghost predicate ItemsReplaced(items: map<Id, MenuItem>, items': map<Id, MenuItem>, orderId: Id,
                                entries: seq<MenuEntry>, user: string, created: seq<Id>)
  {
    && |created| <= |entries|
    && Distinct(created)
    && (forall k :: 0 <= k < |created| ==>
          entries[k].subCategoryId.Some? && created[k] !in items && created[k] in items' &&
          items'[created[k]] == ItemRow(orderId, entries[k], user))
    && ItemsRetired(items, items', orderId)
    && (forall id :: id in items' ==> id in items || id in created)
    && ActiveItemIds(items', orderId) == Elements(created)
  }

  /** The note rows after the menu of `orderId` was replaced, given the rows `meta`
      before: every old note row of the order is inactive and no other one changed; a
      fresh active row holding `notes` was added when `saved` and `notes` is not empty,
      and then it is the order's only active note row; otherwise the order has none. */
  ghost predicate MetaReplaced(meta: map<Id, MenuMeta>, meta': map<Id, MenuMeta>, orderId: Id,
                               notes: string, user: string, saved: bool)
  {
    && MetaRetired(meta, meta', orderId)
    && (saved && notes != "" ==>
          exists m :: m !in meta && meta'.Keys == meta.Keys + {m} && ActiveMetaIds(meta', orderId) == {m} &&
                      meta'[m] == MenuMeta(orderId, notes, true, user))
    && (!saved || notes == "" ==> meta'.Keys == meta.Keys && ActiveMetaIds(meta', orderId) == {})
  }

  /** Deactivating the order's rows and then saving a prefix of the entries replaces the
      order's menu by the saved rows. */
  lemma ReplacedBySaved(items: map<Id, MenuItem>, retired: map<Id, MenuItem>, start: Id, orderId: Id,
                        entries: seq<MenuEntry>, n: nat, user: string)
    requires forall id :: id in items ==> id < start
    requires retired.Keys == items.Keys && ItemsRetired(items, retired, orderId)
    requires n <= |entries| && forall k :: 0 <= k < n ==> entries[k].subCategoryId.Some?
    ensures ItemsReplaced(items, SavedRows(retired, start, orderId, entries[..n], user), orderId, entries, user,
                          FreshIds(start, n))
  {
    var saved, created := entries[..n], FreshIds(start, n);
    var items' := SavedRows(retired, start, orderId, saved, user);
    forall k | 0 <= k < n
      ensures created[k] in items' && items'[created[k]] == ItemRow(orderId, entries[k], user)
    {
      SavedRowsHoldEntry(retired, start, orderId, saved, user, k);
    }
    forall id | id in items ensures id in items' && items'[id] == retired[id] {
      SavedRowsKeepOld(retired, start, orderId, saved, user, id);
    }
    forall id | id in items' ensures id in items || id in created {
      SavedRowsOnlyFresh(retired, start, orderId, saved, user, id);
      if id !in items {
        assert created[id - start] == id;
      }
    }
    forall id | id in ActiveItemIds(items', orderId) ensures id in created {
      SavedRowsOnlyFresh(retired, start, orderId, saved, user, id);
      if id !in items {
        assert created[id - start] == id;
      }
    }
  }

  /** The note step of `update_order_menu`: a fresh notes row when the items were saved
      and the note is not empty. `meta` is the note table before the order's notes were
      deactivated. */
  method SaveNotes(db: Database, orderId: Id, notes: string, user: string, saved: bool,
                   ghost meta: map<Id, MenuMeta>)
    requires db.Valid() && orderId in db.orders
    requires db.menuMeta.Keys == meta.Keys && MetaRetired(meta, db.menuMeta, orderId)
    requires ActiveMetaIds(db.menuMeta, orderId) == {}
    modifies db`menuMeta, db`nextId
    ensures db.Valid()
    ensures MetaReplaced(meta, db.menuMeta, orderId, notes, user, saved)
  {
    if saved && notes != "" {
      ghost var retired := db.menuMeta;
      var m := db.AddMenuMeta(MenuMeta(orderId, notes, true, user));
      assert ActiveMetaIds(db.menuMeta, orderId) <= ActiveMetaIds(retired, orderId) + {m};
    }
  }

  /** The replacement steps of `update_order_menu` for an active order: deactivate the
      old rows and notes, save the entries, save the note. */
  method ReplaceMenu(db: Database, orderId: Id, entries: seq<MenuEntry>, notes: string, user: string)
    returns (status: int, created: seq<Id>)
    requires db.Valid() && db.OrderActive(orderId)
    modifies db`menuItems, db`menuMeta, db`nextId
    ensures db.Valid()
    ensures status == LoopStatus(db.subCategories, entries)
    ensures |created| == FirstUnresolved(db.subCategories, entries)
    ensures ItemsReplaced(old(db.menuItems), db.menuItems, orderId, entries, user, created)
    ensures MetaReplaced(old(db.menuMeta), db.menuMeta, orderId, notes, user, status == OK)
  {
    ghost var items, meta := db.menuItems, db.menuMeta;
    db.RetireMenu(orderId);
    ghost var retired, start := db.menuItems, db.nextId;
    status, created := SaveEntries(db, orderId, entries, user);
    ReplacedBySaved(items, retired, start, orderId, entries, |created|, user);
    SaveNotes(db, orderId, notes, user, status == OK, meta);
  }

  /** `update_order_menu`. Before the store is touched: 403 for a non-admin, the
      dispatch's refusal, 404 for a missing or inactive order, each with nothing
      changed. Otherwise the order's menu is replaced: the old rows and notes are
      deactivated, one row is saved per entry, in order, until the first entry that
      fails (500 without a sub-category id, 404 for a missing or inactive
      sub-category), and a notes row is saved when every entry was saved and the note
      is not empty. A failing entry leaves the old menu deactivated and the rows saved
      before it in place. On success the order has one active row per entry. */
  method UpdateOrderMenu(db: Database, isAdmin: bool, user: string, req: MenuRequest)
    returns (status: int, created: seq<Id>)
    requires db.Valid()
    modifies db`menuItems, db`menuMeta, db`nextId
    ensures db.Valid()
    ensures !isAdmin ==> status == FORBIDDEN
    ensures isAdmin && DispatchRequest(req).Reject? ==> status == DispatchRequest(req).status
    ensures isAdmin && DispatchRequest(req).Target? && !old(db.OrderActive(DispatchRequest(req).orderId)) ==>
      status == NOT_FOUND
    ensures !old(Reaches(db, isAdmin, req)) ==>
      created == [] && db.menuItems == old(db.menuItems) && db.menuMeta == old(db.menuMeta) &&
      db.nextId == old(db.nextId)
    ensures old(Reaches(db, isAdmin, req)) ==>
      var d := DispatchRequest(req);
      && status == LoopStatus(db.subCategories, d.entries)
      && |created| == FirstUnresolved(db.subCategories, d.entries)
      && ItemsReplaced(old(db.menuItems), db.menuItems, d.orderId, d.entries, user, created)
      && MetaReplaced(old(db.menuMeta), db.menuMeta, d.orderId, d.notes, user, status == OK)
      && (status == OK ==> |db.MenuItemIdsOf(d.orderId)| == |d.entries|)
  {
    created := [];
    if !isAdmin {
      return FORBIDDEN, created;
    }
    var d := DispatchRequest(req);
    if d.Reject? {
      return d.status, created;
    }
    if !db.OrderActive(d.orderId) {
      return NOT_FOUND, created;
    }
    status, created := ReplaceMenu(db, d.orderId, d.entries, d.notes, user);
    if status == OK {
      DistinctCardinality(created);
    }
  }

  // ---------------------------------------------------------------------------------
  // The category tree for menu selection
  // ---------------------------------------------------------------------------------

  /** The name of the "event types" category, which the menu selection leaves out. */
  const ExcludedCategory: string :=
    "\U{5e1}\U{5d5}\U{5d2}\U{5d9} \U{5d0}\U{5d9}\U{5e8}\U{5d5}\U{5e2}\U{5d9}\U{5dd}"

  /** A sub-category row as `category.sub_categories` yields it. */
  datatype SubRecord = SubRecord(id: Id, name: string, isActive: bool)

  /** An active category with the rows of its `sub_categories` relationship. */
  datatype CategoryRecord = CategoryRecord(id: Id, name: string, subs: seq<SubRecord>)

  datatype SubNode = SubNode(id: Id, name: string)

  /** One category of the tree, with its active sub-categories. */
  datatype TreeNode = TreeNode(id: Id, name: string, subs: seq<SubNode>)

  /** The list comprehension over `category.sub_categories`: the active ones, in order. */
  function ActiveSubs(subs: seq<SubRecord>): (r: seq<SubNode>)
    ensures |r| <= |subs|
    decreases |subs|
  {
    if subs == [] then []
    else (if subs[0].isActive then [SubNode(subs[0].id, subs[0].name)] else []) + ActiveSubs(subs[1..])
  }

  /** A sub-category node is listed exactly when an active row of the category has that
      id and name. */
  lemma {:induction false} ActiveSubsMembers(subs: seq<SubRecord>, n: SubNode)
    ensures n in ActiveSubs(subs) <==> exists r :: r in subs && r.isActive && n == SubNode(r.id, r.name)
    decreases |subs|
  {
    if subs != [] {
      ActiveSubsMembers(subs[1..], n);
      assert subs == [subs[0]] + subs[1..];
      if n in ActiveSubs(subs[1..]) {
        var r :| r in subs[1..] && r.isActive && n == SubNode(r.id, r.name);
        assert r in subs;
      }
    }
  }

  predicate DistinctRecordIds(subs: seq<SubRecord>)
  {
    forall i, j :: 0 <= i < j < |subs| ==> subs[i].id != subs[j].id
  }

  predicate DistinctSubNodeIds(nodes: seq<SubNode>)
  {
    forall i, j :: 0 <= i < j < |nodes| ==> nodes[i].id != nodes[j].id
  }

  predicate DistinctCategoryIds(cats: seq<CategoryRecord>)
  {
    forall i, j :: 0 <= i < j < |cats| ==> cats[i].id != cats[j].id
  }

  predicate DistinctTreeIds(tree: seq<TreeNode>)
  {
    forall i, j :: 0 <= i < j < |tree| ==> tree[i].id != tree[j].id
  }

  /** Filtering keeps distinct sub-category ids distinct. */
  lemma {:induction false} ActiveSubsDistinct(subs: seq<SubRecord>)
    requires DistinctRecordIds(subs)
    ensures DistinctSubNodeIds(ActiveSubs(subs))
    decreases |subs|
  {
    if subs != [] {
      var rest := subs[1..];
      assert DistinctRecordIds(rest) by {
        forall i, j | 0 <= i < j < |rest| ensures rest[i].id != rest[j].id {
          assert rest[i] == subs[i + 1] && rest[j] == subs[j + 1];
        }
      }
      ActiveSubsDistinct(rest);
      if subs[0].isActive {
        var t := ActiveSubs(rest);
        forall i | 0 <= i < |t| ensures t[i].id != subs[0].id {
          ActiveSubsMembers(rest, t[i]);
          var r :| r in rest && r.isActive && t[i] == SubNode(r.id, r.name);
          var k :| 0 <= k < |rest| && rest[k] == r;
          assert subs[k + 1] == r;
        }
        assert ActiveSubs(subs) == [SubNode(subs[0].id, subs[0].name)] + t;
      }
    }
  }

  /** A category enters the tree when its name is not the excluded one and it has an
      active sub-category. */
  predicate Listed(c: CategoryRecord)
  {
    c.name != ExcludedCategory && ActiveSubs(c.subs) != []
  }

  function NodeOf(c: CategoryRecord): TreeNode
  {
    TreeNode(c.id, c.name, ActiveSubs(c.subs))
  }

  /** The tree of `get_categories_with_subcategories` over the categories in the order
      they are visited. */
  function MenuTree(cats: seq<CategoryRecord>): (tree: seq<TreeNode>)
    ensures |tree| <= |cats|
    ensures forall k :: 0 <= k < |tree| ==> tree[k].name != ExcludedCategory && tree[k].subs != []
    decreases |cats|
  {
    if cats == [] then []
    else
      var c := cats[|cats| - 1];
      MenuTree(cats[..|cats| - 1]) + (if Listed(c) then [NodeOf(c)] else [])
  }

  /** The tree of a concatenation is the concatenation of the trees: categories keep
      their visiting order. */
  lemma {:induction false} MenuTreeAppend(a: seq<CategoryRecord>, b: seq<CategoryRecord>)
    ensures MenuTree(a + b) == MenuTree(a) + MenuTree(b)
    decreases |b|
  {
    if b == [] {
      assert a + b == a;
    } else {
      var init := b[..|b| - 1];
      MenuTreeAppend(a, init);
      assert (a + b)[..|a + b| - 1] == a + init;
      assert (a + b)[|a + b| - 1] == b[|b| - 1];
    }
  }

  /** A node is in the tree exactly when it is the node of a listed category. */
  lemma {:induction false} MenuTreeMembers(cats: seq<CategoryRecord>, n: TreeNode)
    ensures n in MenuTree(cats) <==> exists c :: c in cats && Listed(c) && n == NodeOf(c)
    decreases |cats|
  {
    if cats != [] {
      var init := cats[..|cats| - 1];
      MenuTreeMembers(init, n);
      assert cats == init + [cats[|cats| - 1]];
      if n in MenuTree(init) {
        var c :| c in init && Listed(c) && n == NodeOf(c);
        assert c in cats;
      }
    }
  }

  /** Categories with distinct ids give nodes with distinct ids: no category has two
      nodes. */
  lemma {:induction false} MenuTreeDistinct(cats: seq<CategoryRecord>)
    requires DistinctCategoryIds(cats)
    ensures DistinctTreeIds(MenuTree(cats))
    decreases |cats|
  {
    if cats != [] {
      var init, c := cats[..|cats| - 1], cats[|cats| - 1];
      assert DistinctCategoryIds(init) by {
        forall i, j | 0 <= i < j < |init| ensures init[i].id != init[j].id {
          assert init[i] == cats[i] && init[j] == cats[j];
        }
      }
      MenuTreeDistinct(init);
      if Listed(c) {
        var t := MenuTree(init);
        forall i | 0 <= i < |t| ensures t[i].id != c.id {
          MenuTreeMembers(init, t[i]);
          var c' :| c' in init && Listed(c') && t[i] == NodeOf(c');
          var k :| 0 <= k < |init| && init[k] == c';
          assert cats[k] == c';
        }
        assert MenuTree(cats) == t + [NodeOf(c)];
      }
    }
  }

  /** The loop of `get_categories_with_subcategories` over the visited categories. */
  method BuildMenuTree(cats: seq<CategoryRecord>) returns (tree: seq<TreeNode>)
    ensures tree == MenuTree(cats)
  {
    tree := [];
    for i := 0 to |cats|
      invariant tree == MenuTree(cats[..i])
    {
      var category := cats[i];
      assert cats[..i + 1][..i] == cats[..i];
      if category.name == ExcludedCategory {
        continue;
      }
      var active := ActiveSubs(category.subs);
      if active != [] {
        tree := tree + [TreeNode(category.id, category.name, active)];
      }
    }
    assert cats[..|cats|] == cats;
  }

  /** The sub-category nodes an active category shows: its active sub-categories. */
  function ActiveChildren(db: Database, categoryId: Id): set<SubNode>
    reads db
  {
    set id | id in db.subCategories && db.subCategories[id].parentId == categoryId && db.subCategories[id].isActive ::
      SubNode(id, db.subCategories[id].name)
  }

  /** `c` is what the store holds for an active category: its id and name, and exactly
      one record per sub-category row whose parent it is. */
  predicate Mirrors(db: Database, c: CategoryRecord)
    reads db
  {
    && db.CategoryActive(c.id)
    && c.name == db.categories[c.id].name
    && DistinctRecordIds(c.subs)
    && (forall r :: r in c.subs ==>
          r.id in db.subCategories && db.subCategories[r.id].parentId == c.id &&
          r == SubRecord(r.id, db.subCategories[r.id].name, db.subCategories[r.id].isActive))
    && (forall id :: id in db.SubCategoryIdsOf(c.id) ==> exists r :: r in c.subs && r.id == id)
  }

  /** The active sub-categories of a mirrored category are its active children. */
  lemma MirroredChildren(db: Database, c: CategoryRecord)
    requires Mirrors(db, c)
    ensures forall n :: n in ActiveSubs(c.subs) <==> n in ActiveChildren(db, c.id)
  {
    forall n ensures n in ActiveSubs(c.subs) <==> n in ActiveChildren(db, c.id) {
      ActiveSubsMembers(c.subs, n);
      if n in ActiveChildren(db, c.id) {
        assert n.id in db.SubCategoryIdsOf(c.id);
        var r :| r in c.subs && r.id == n.id;
        assert r.isActive && n == SubNode(r.id, r.name);
      }
    }
  }

  /** The sub-category rows of one category, each once, in an order the model does not
      fix. */
  method LoadSubRecords(db: Database, categoryId: Id) returns (subs: seq<SubRecord>)
    ensures forall r :: r in subs ==>
      r.id in db.subCategories && db.subCategories[r.id].parentId == categoryId &&
      r == SubRecord(r.id, db.subCategories[r.id].name, db.subCategories[r.id].isActive)
    ensures forall id :: id in db.SubCategoryIdsOf(categoryId) ==> exists r :: r in subs && r.id == id
    ensures DistinctRecordIds(subs)
  {
    var ids := Enumerate(db.SubCategoryIdsOf(categoryId));
    subs := [];
    for i := 0 to |ids|
      invariant |subs| == i
      invariant forall k :: 0 <= k < i ==>
        (subs[k].id == ids[k] && ids[k] in db.subCategories &&
         subs[k] == SubRecord(ids[k], db.subCategories[ids[k]].name, db.subCategories[ids[k]].isActive))
      invariant forall k :: 0 <= k < i ==> db.subCategories[ids[k]].parentId == categoryId
    {
      assert ids[i] in ids;
      var sub := db.subCategories[ids[i]];
      subs := subs + [SubRecord(ids[i], sub.name, sub.isActive)];
    }
    forall id | id in db.SubCategoryIdsOf(categoryId) ensures exists r :: r in subs && r.id == id {
      assert id in ids;
      var k :| 0 <= k < |ids| && ids[k] == id;
      assert subs[k] in subs;
    }
  }

  /** `Categories.get_all_active()` with each category's `sub_categories`: every active
      category once, in an order the model does not fix. */
  method LoadCategoryGraph(db: Database) returns (cats: seq<CategoryRecord>)
    ensures forall k :: 0 <= k < |cats| ==> Mirrors(db, cats[k])
    ensures forall id :: db.CategoryActive(id) ==> exists k :: 0 <= k < |cats| && cats[k].id == id
    ensures DistinctCategoryIds(cats)
  {
    var ids := Enumerate(db.ActiveCategoryIds());
    cats := [];
    for i := 0 to |ids|
      invariant |cats| == i
      invariant forall k :: 0 <= k < i ==> cats[k].id == ids[k] && Mirrors(db, cats[k])
    {
      assert ids[i] in ids;
      var subs := LoadSubRecords(db, ids[i]);
      cats := cats + [CategoryRecord(ids[i], db.categories[ids[i]].name, subs)];
    }
    forall id | db.CategoryActive(id) ensures exists k :: 0 <= k < |cats| && cats[k].id == id {
      assert id in db.ActiveCategoryIds();
      assert id in ids;
      var k :| 0 <= k < |ids| && ids[k] == id;
      assert cats[k].id == id;
    }
  }

  /** `get_categories_with_subcategories`: each node is an active category other than
      the excluded one, shown with exactly its active sub-categories, each once, of which
      it has at least one; every such category has a node, and none has two. */
  method GetCategoriesWithSubcategories(db: Database) returns (status: int, tree: seq<TreeNode>)
    ensures status == OK
    ensures forall k :: 0 <= k < |tree| ==>
      db.CategoryActive(tree[k].id) && tree[k].name == db.categories[tree[k].id].name &&
      tree[k].name != ExcludedCategory && tree[k].subs != [] &&
      (forall n :: n in tree[k].subs <==> n in ActiveChildren(db, tree[k].id)) &&
      DistinctSubNodeIds(tree[k].subs)
    ensures DistinctTreeIds(tree)
    ensures forall id ::
      (db.CategoryActive(id) && db.categories[id].name != ExcludedCategory && ActiveChildren(db, id) != {}) ==>
      exists k :: 0 <= k < |tree| && tree[k].id == id
  {
    var cats := LoadCategoryGraph(db);
    tree := BuildMenuTree(cats);
    status := OK;
    forall k | 0 <= k < |tree|
      ensures db.CategoryActive(tree[k].id) && tree[k].name == db.categories[tree[k].id].name &&
        (forall n :: n in tree[k].subs <==> n in ActiveChildren(db, tree[k].id)) &&
        DistinctSubNodeIds(tree[k].subs)
    {
      MenuTreeMembers(cats, tree[k]);
      var c :| c in cats && Listed(c) && tree[k] == NodeOf(c);
      MirroredChildren(db, c);
      ActiveSubsDistinct(c.subs);
    }
    MenuTreeDistinct(cats);
    forall id | db.CategoryActive(id) && db.categories[id].name != ExcludedCategory && ActiveChildren(db, id) != {}
      ensures exists k :: 0 <= k < |tree| && tree[k].id == id
    {
      var j :| 0 <= j < |cats| && cats[j].id == id;
      var c := cats[j];
      MirroredChildren(db, c);
      var n :| n in ActiveChildren(db, id);
      assert ActiveSubs(c.subs) != [];
      MenuTreeMembers(cats, NodeOf(c));
      assert NodeOf(c) in tree;
    }
  }

  // ---------------------------------------------------------------------------------
  // Whether an order has a menu
  // ---------------------------------------------------------------------------------

  datatype MenuStatus = MenuStatus(hasMenuItems: bool, itemCount: nat)

  /** `check_order_has_menu`: the number of active menu rows of the order, and whether
      there is any. The order itself is not looked up. */
  function CheckOrderHasMenu(db: Database, orderId: Id): (r: (int, MenuStatus))
    reads db
    ensures r.0 == OK
    ensures r.1.hasMenuItems <==> r.1.itemCount > 0
    ensures r.1.itemCount == |db.MenuItemIdsOf(orderId)|
    ensures r.1.hasMenuItems <==>
      exists id :: id in db.menuItems && db.menuItems[id].orderId == orderId && db.menuItems[id].isActive
  {
    ActiveRowsExist(db.menuItems, orderId);
    var count := |db.MenuItemIdsOf(orderId)|;
    (OK, MenuStatus(count > 0, count))
  }

  /** An order has an active menu row exactly when its set of active row ids is not
      empty. */
  lemma ActiveRowsExist(items: map<Id, MenuItem>, orderId: Id)
    ensures |ActiveItemIds(items, orderId)| > 0 <==>
      exists id :: id in items && items[id].orderId == orderId && items[id].isActive
  {
    var ids := ActiveItemIds(items, orderId);
    if exists id :: id in items && items[id].orderId == orderId && items[id].isActive {
      var id :| id in items && items[id].orderId == orderId && items[id].isActive;
      assert id in ids;
    }
    if ids != {} {
      var id :| id in ids;
      assert items[id].orderId == orderId;
    }
  }

  /** After a successful update, the check reports as many items as were submitted. */
  lemma CheckAfterUpdate(db: Database, orderId: Id, entries: seq<MenuEntry>)
    requires |db.MenuItemIdsOf(orderId)| == |entries|
    ensures CheckOrderHasMenu(db, orderId).1 == MenuStatus(entries != [], |entries|)
  {
  }

  /** Every stored menu row meets the quantity rule of the menu-item schema. */
  lemma StoredQuantitiesAcceptable(db: Database)
    requires db.Valid()
    ensures forall id :: id in db.menuItems ==> QuantityAcceptable(db.menuItems[id].quantity)
  {
  }
}
