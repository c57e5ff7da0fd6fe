/**
 * The relational store the handlers share, as one object whose tables are maps from
 * row id to row. Rows are soft-deleted: a handler that "deletes" sets `isActive` to
 * false and the row stays. Row ids are drawn from a counter, standing for the random
 * UUIDs of `set_id`: an id handed out is never in any table before.
 */
module Store {
  import opened Wrappers
  import opened Validation

  type Id = nat

  /** A row of `orders`. `extras` is the stored text the read schemas decode. */
  datatype Order = Order(
    fullName: string,
    phone: string,
    anotherPhone: Option<string>,
    price: Amount,
    minGuests: int,
    maxGuests: int,
    date: Day,
    startTime: string,
    endTime: string,
    orderAmount: Amount,
    paidAmount: Amount,
    orderType: string,
    comments: Option<string>,
    extras: Option<string>,
    isActive: bool,
    createdBy: string)

  datatype Category = Category(name: string, isActive: bool, createdBy: string)

  datatype SubCategory = SubCategory(name: string, parentId: Id, isActive: bool, createdBy: string)

  /** A row of the order-menu table: one chosen sub-category of one order. */
  datatype MenuItem = MenuItem(
    orderId: Id,
    subCategoryId: Id,
    quantity: int,
    notes: Option<string>,
    isActive: bool,
    createdBy: string)

  /** The free-text note of an order's menu. */
  datatype MenuMeta = MenuMeta(orderId: Id, generalNotes: string, isActive: bool, createdBy: string)

  /** The guest bounds and the lengths of an order row meet the order schemas' rules. */
  predicate OrderWellFormed(o: Order)
  {
    |o.fullName| >= MinFullNameLength && |o.phone| >= MinPhoneLength && o.minGuests <= o.maxGuests
  }

  /** No two positions of `ids` hold the same id. */
  predicate Distinct(ids: seq<Id>)
  {
    forall i, j :: 0 <= i < j < |ids| ==> ids[i] != ids[j]
  }

  /** The ids a sequence holds. */
  function Elements(ids: seq<Id>): set<Id>
  {
    set id | id in ids
  }

  /** Appending an id adds it to the set. */
  lemma ElementsSnoc(init: seq<Id>, last: Id)
    ensures Elements(init + [last]) == Elements(init) + {last}
  {
    var ids := init + [last];
    forall x | x in Elements(ids) ensures x in Elements(init) + {last} {
      var k :| 0 <= k < |ids| && ids[k] == x;
      if k < |init| { assert init[k] == x; }
    }
    forall x | x in Elements(init) ensures x in Elements(ids) {
      var k :| 0 <= k < |init| && init[k] == x;
      assert ids[k] == x;
    }
  }

  /** A sequence without repeats has as many elements as its set. */
  lemma {:induction false} DistinctCardinality(ids: seq<Id>)
    requires Distinct(ids)
    ensures |Elements(ids)| == |ids|
  {
    if ids != [] {
      var init := ids[..|ids| - 1];
      var last := ids[|ids| - 1];
      DistinctCardinality(init);
      assert ids == init + [last];
      ElementsSnoc(init, last);
      assert last !in Elements(init) by {
        forall k | 0 <= k < |init| ensures init[k] != last {
          assert init[k] == ids[k];
        }
      }
    }
  }

  /** The ids of the active rows of `items` that belong to the order. */
  function ActiveItemIds(items: map<Id, MenuItem>, orderId: Id): set<Id>
  {
    set id | id in items && items[id].orderId == orderId && items[id].isActive
  }

  /** The ids of the active note rows of `meta` that belong to the order. */
  function ActiveMetaIds(meta: map<Id, MenuMeta>, orderId: Id): set<Id>
  {
    set id | id in meta && meta[id].orderId == orderId && meta[id].isActive
  }

  class Database {
    var orders: map<Id, Order>
    var categories: map<Id, Category>
    var subCategories: map<Id, SubCategory>
    var menuItems: map<Id, MenuItem>
    var menuMeta: map<Id, MenuMeta>
    /** The next id to hand out. */
    var nextId: Id

    /** The store invariant: every id in use is below `nextId`; every order meets the
        order schemas' rules; every sub-category's parent, every menu row's order and
        sub-category, and every note row's order exist (rows are never removed); every
        menu row has quantity 1. */
    ghost predicate Valid()
      reads this
    {
      && (forall id ::
            (id in orders || id in categories || id in subCategories || id in menuItems || id in menuMeta) ==>
            id < nextId)
      && (forall id :: id in orders ==> OrderWellFormed(orders[id]))
      && (forall id :: id in subCategories ==> subCategories[id].parentId in categories)
      && (forall id :: id in menuItems ==>
            menuItems[id].orderId in orders && menuItems[id].subCategoryId in subCategories &&
            menuItems[id].quantity == 1)
      && (forall id :: id in menuMeta ==> menuMeta[id].orderId in orders)
    }

    constructor ()
      ensures Valid()
      ensures orders == map[] && categories == map[] && subCategories == map[]
      ensures menuItems == map[] && menuMeta == map[] && nextId == 0
    {
      orders, categories, subCategories := map[], map[], map[];
      menuItems, menuMeta := map[], map[];
      nextId := 0;
    }

    /** `set_id()`: an id that no table holds yet. */
    method NewId() returns (id: Id)
      requires Valid()
      modifies this`nextId
      ensures Valid()
      ensures id == old(nextId) && nextId == id + 1
    {
      id := nextId;
      nextId := nextId + 1;
    }

    /** `Orders.query.get(id)` followed by the `isActive` test. */
    predicate OrderActive(id: Id)
      reads this
    {
      id in orders && orders[id].isActive
    }

    predicate CategoryActive(id: Id)
      reads this
    {
      id in categories && categories[id].isActive
    }

    predicate SubCategoryActive(id: Id)
      reads this
    {
      id in subCategories && subCategories[id].isActive
    }

    /** `Categories.get_by_name(name)` found a row: some active category has this name. */
    predicate HasCategoryNamed(name: string)
      reads this
    {
      exists id :: id in categories && categories[id].isActive && categories[id].name == name
    }

    /** `SubCategories.get_by_name_and_parent(name, parent)` found a row: some active
        sub-category of that parent has this name. */
    predicate HasSubCategoryNamed(name: string, parentId: Id)
      reads this
    {
      exists id :: id in subCategories && subCategories[id].isActive &&
                   subCategories[id].name == name && subCategories[id].parentId == parentId
    }

    /** `Orders.query.filter_by(isActive=True)`. */
    function ActiveOrderIds(): set<Id>
      reads this
    {
      set id | id in orders && orders[id].isActive
    }

    /** `Categories.get_all_active()`. */
    function ActiveCategoryIds(): set<Id>
      reads this
    {
      set id | id in categories && categories[id].isActive
    }

    /** `SubCategories.get_all_active()`. */
    function ActiveSubCategoryIds(): set<Id>
      reads this
    {
      set id | id in subCategories && subCategories[id].isActive
    }

    /** The rows behind `category.sub_categories`: every sub-category whose parent is
        `categoryId`, active or not. */
    function SubCategoryIdsOf(categoryId: Id): set<Id>
      reads this
    {
      set id | id in subCategories && subCategories[id].parentId == categoryId
    }

    /** `OrderMenu.get_by_order_id(orderId)`: the active menu rows of an order. */
    function MenuItemIdsOf(orderId: Id): set<Id>
      reads this
    {
      ActiveItemIds(menuItems, orderId)
    }

    /** `OrderMenuMeta.get_by_order_id(orderId)`: the active note rows of an order. */
    function MetaIdsOf(orderId: Id): set<Id>
      reads this
    {
      ActiveMetaIds(menuMeta, orderId)
    }

    /** `OrderMenu(...).set_id(); save()`: a new menu row under a fresh id. */
    method AddMenuItem(row: MenuItem) returns (id: Id)
      requires Valid()
      requires row.orderId in orders && row.subCategoryId in subCategories && row.quantity == 1
      modifies this`menuItems, this`nextId
      ensures Valid()
      ensures id == old(nextId) && nextId == id + 1
      ensures menuItems == old(menuItems)[id := row]
    {
      id := nextId;
      nextId := nextId + 1;
      menuItems := menuItems[id := row];
    }

    /** `OrderMenuMeta(...).set_id(); save()`: a new note row under a fresh id. */
    method AddMenuMeta(row: MenuMeta) returns (id: Id)
      requires Valid()
      requires row.orderId in orders
      modifies this`menuMeta, this`nextId
      ensures Valid()
      ensures id == old(nextId) && nextId == id + 1
      ensures menuMeta == old(menuMeta)[id := row]
    {
      id := nextId;
      nextId := nextId + 1;
      menuMeta := menuMeta[id := row];
    }

    /** `OrderMenu.delete_by_order_id(orderId)` and `OrderMenuMeta.delete_by_order_id(orderId)`:
        every menu row and every note row of the order becomes inactive; no row is
        removed and no other row changes. */
    method RetireMenu(orderId: Id)
      requires Valid()
      modifies this`menuItems, this`menuMeta
      ensures Valid()
      ensures menuItems.Keys == old(menuItems).Keys && ItemsRetired(old(menuItems), menuItems, orderId)
      ensures menuMeta.Keys == old(menuMeta).Keys && MetaRetired(old(menuMeta), menuMeta, orderId)
      ensures ActiveItemIds(menuItems, orderId) == {} && ActiveMetaIds(menuMeta, orderId) == {}
    {
      menuItems := RetireItems(menuItems, orderId);
      menuMeta := RetireMeta(menuMeta, orderId);
    }
  }

  /** The item table with every row of the order deactivated. */
  function RetireItems(items: map<Id, MenuItem>, orderId: Id): (r: map<Id, MenuItem>)
    ensures r.Keys == items.Keys && ItemsRetired(items, r, orderId)
    ensures ActiveItemIds(r, orderId) == {}
  {
    map id | id in items :: if items[id].orderId == orderId then items[id].(isActive := false) else items[id]
  }

  /** The note table with every note row of the order deactivated. */
  function RetireMeta(meta: map<Id, MenuMeta>, orderId: Id): (r: map<Id, MenuMeta>)
    ensures r.Keys == meta.Keys && MetaRetired(meta, r, orderId)
    ensures ActiveMetaIds(r, orderId) == {}
  {
    map id | id in meta :: if meta[id].orderId == orderId then meta[id].(isActive := false) else meta[id]
  }

  /** Every row of `before` is in `after`, deactivated when it belongs to the order and
      unchanged otherwise. */
  ghost predicate ItemsRetired(before: map<Id, MenuItem>, after: map<Id, MenuItem>, orderId: Id)
  {
    forall id :: id in before ==>
      id in after && after[id] == if before[id].orderId == orderId then before[id].(isActive := false) else before[id]
  }

  /** Every note row of `before` is in `after`, deactivated when it belongs to the order
      and unchanged otherwise. */
  ghost predicate MetaRetired(before: map<Id, MenuMeta>, after: map<Id, MenuMeta>, orderId: Id)
  {
    forall id :: id in before ==>
      id in after && after[id] == if before[id].orderId == orderId then before[id].(isActive := false) else before[id]
  }

  /** A query result in the order the store returns it: the ids of `s`, each once, in an
      order the model does not fix. */
  method Enumerate(s: set<Id>) returns (ids: seq<Id>)
    ensures Distinct(ids)
    ensures forall id :: id in ids <==> id in s
  {
    ids := [];
    var rest := s;
    while rest != {}
      invariant Distinct(ids)
      invariant forall id :: id in ids <==> id in s && id !in rest
      invariant rest <= s
      decreases rest
    {
      var id :| id in rest;
      ids := ids + [id];
      rest := rest - {id};
    }
  }
}
