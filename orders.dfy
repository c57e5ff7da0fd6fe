/**
 * The order handlers: add, read by id, list all, list by date range, edit and
 * deactivate. The caller's admin claim and user name are parameters; `loads` stands for
 * `json.loads`, which the read schemas apply to the stored `extras` text.
 */
module OrdersApi {
  import opened Wrappers
  import opened Http
  import opened Validation
  import opened Store
  import opened Extras

  /** An order as the read schemas dump it. `GetOrderNonAdminSchema` has no price,
      order amount or paid amount; those fields are `None` in a non-admin view. */
  datatype OrderView = OrderView(
    id: Id,
    fullName: string,
    phone: string,
    anotherPhone: Option<string>,
    price: Option<Amount>,
    minGuests: int,
    maxGuests: int,
    date: Day,
    startTime: string,
    endTime: string,
    orderAmount: Option<Amount>,
    paidAmount: Option<Amount>,
    orderType: string,
    comments: Option<string>,
    extras: seq<Json>)

  /** `GetOrderSchema().dump(order)` for an admin, `GetOrderNonAdminSchema().dump(order)`
      otherwise. */
  function ViewOf(id: Id, o: Order, isAdmin: bool, loads: string -> Option<Json>): OrderView
  {
    OrderView(id, o.fullName, o.phone, o.anotherPhone,
              if isAdmin then Some(o.price) else None,
              o.minGuests, o.maxGuests, o.date, o.startTime, o.endTime,
              if isAdmin then Some(o.orderAmount) else None,
              if isAdmin then Some(o.paidAmount) else None,
              o.orderType, o.comments, ExtrasValue(o.extras, loads))
  }

  /** The row `add_new_order` inserts: the request's fields, active, created by the
      caller. `anotherName` and `extras` of the request are not stored. */
  function NewOrderRow(d: OrderInput, user: string): Order
  {
    Order(d.fullName, d.phone, d.anotherPhone, d.price, d.minGuests, d.maxGuests, d.date,
          d.startTime, d.endTime, d.orderAmount, d.paidAmount, d.orderType, d.comments,
          None, true, user)
  }

  /** The row after `edit_order` overwrote the thirteen listed fields of `o`. */
  function EditedRow(o: Order, d: OrderInput): Order
  {
    o.(fullName := d.fullName, phone := d.phone, anotherPhone := d.anotherPhone,
       price := d.price, minGuests := d.minGuests, maxGuests := d.maxGuests, date := d.date,
       startTime := d.startTime, endTime := d.endTime, orderAmount := d.orderAmount,
       paidAmount := d.paidAmount, orderType := d.orderType, comments := d.comments)
  }

  /** `add_new_order`. */
  method AddNewOrder(db: Database, isAdmin: bool, user: string, input: OrderInput)
    returns (status: int, orderId: Option<Id>)
    requires db.Valid()
    modifies db`orders, db`nextId
    ensures db.Valid()
    ensures !isAdmin ==> status == FORBIDDEN
    ensures isAdmin && OrderErrors(input) != {} ==> status == BAD_REQUEST
    ensures status != CREATED ==> orderId == None && db.orders == old(db.orders) && db.nextId == old(db.nextId)
    ensures status == CREATED <==> isAdmin && OrderErrors(input) == {}
    ensures status == CREATED ==>
      orderId == Some(old(db.nextId)) && orderId.value !in old(db.orders) &&
      db.orders == old(db.orders)[orderId.value := NewOrderRow(input, user)]
  {
    orderId := None;
    if !isAdmin {
      return FORBIDDEN, orderId;
    }
    if OrderErrors(input) != {} {
      return BAD_REQUEST, orderId;
    }
    var id := db.NewId();
    db.orders := db.orders[id := NewOrderRow(input, user)];
    orderId := Some(id);
    status := CREATED;
  }

  /** `get_order_by_id`: 404 for a missing or inactive order. */
  function GetOrderById(db: Database, isAdmin: bool, id: Id, loads: string -> Option<Json>)
    : (r: (int, Option<OrderView>))
    reads db
    ensures r.0 == OK || r.0 == NOT_FOUND
    ensures r.0 == NOT_FOUND <==> !db.OrderActive(id)
    ensures r.1.Some? <==> r.0 == OK
    ensures r.0 == OK ==> r.1.value.id == id && r.1.value.fullName == db.orders[id].fullName
    ensures r.0 == OK ==> (r.1.value.price.Some? <==> isAdmin)
    ensures r.0 == OK ==> r.1 == Some(ViewOf(id, db.orders[id], isAdmin, loads))
  {
    if !db.OrderActive(id) then (NOT_FOUND, None)
    else (OK, Some(ViewOf(id, db.orders[id], isAdmin, loads)))
  }

  /** `get_all_orders`: the active orders, in the view the caller's claim selects. */
  function GetAllOrders(db: Database, isAdmin: bool, loads: string -> Option<Json>): set<OrderView>
    reads db
  {
    set id | id in db.ActiveOrderIds() :: ViewOf(id, db.orders[id], isAdmin, loads)
  }

  /** `Orders.date.between(start, end)` together with `isActive == True`. */
  function OrderIdsBetween(db: Database, startDate: Day, endDate: Day): set<Id>
    reads db
  {
    set id | id in db.orders && db.orders[id].isActive && startDate <= db.orders[id].date <= endDate
  }

  /** `get_orders_by_dates`. Neither date is required by `GetOrderByDatesInputSchema`;
      a body without one of them makes the lookup of that key raise outside any handler,
      and the request fails with 500. Otherwise the views of the active orders in the
      inclusive range. */
  function GetOrdersByDates(db: Database, isAdmin: bool, startDate: Option<Day>, endDate: Option<Day>,
                            loads: string -> Option<Json>): (r: (int, set<OrderView>))
    reads db
    ensures r.0 == OK || r.0 == SERVER_ERROR
    ensures r.0 == OK <==> startDate.Some? && endDate.Some?
    ensures r.0 == SERVER_ERROR ==> r.1 == {}
    ensures r.0 == OK ==> forall v :: v in r.1 <==>
      v.id in OrderIdsBetween(db, startDate.value, endDate.value) && v == ViewOf(v.id, db.orders[v.id], isAdmin, loads)
  {
    if startDate.None? || endDate.None? then (SERVER_ERROR, {})
    else
      (OK, set id | id in OrderIdsBetween(db, startDate.value, endDate.value) ::
             ViewOf(id, db.orders[id], isAdmin, loads))
  }

  /** `edit_order`: overwrites the listed fields of the order with that id, whether the
      order is active or not; 404 when there is no such row. */
  method EditOrder(db: Database, isAdmin: bool, id: Id, input: OrderInput) returns (status: int)
    requires db.Valid()
    modifies db`orders
    ensures db.Valid()
    ensures !isAdmin ==> status == FORBIDDEN
    ensures isAdmin && OrderErrors(input) != {} ==> status == BAD_REQUEST
    ensures isAdmin && OrderErrors(input) == {} && id !in old(db.orders) ==> status == NOT_FOUND
    ensures status == OK <==> isAdmin && OrderErrors(input) == {} && id in old(db.orders)
    ensures status != OK ==> db.orders == old(db.orders)
    ensures status == OK ==> db.orders == old(db.orders)[id := EditedRow(old(db.orders)[id], input)]
    ensures status == OK ==>
      db.orders[id].isActive == old(db.orders)[id].isActive &&
      db.orders[id].createdBy == old(db.orders)[id].createdBy &&
      db.orders[id].extras == old(db.orders)[id].extras
  {
    if !isAdmin {
      return FORBIDDEN;
    }
    if OrderErrors(input) != {} {
      return BAD_REQUEST;
    }
    if id !in db.orders {
      return NOT_FOUND;
    }
    db.orders := db.orders[id := EditedRow(db.orders[id], input)];
    status := OK;
  }

  /** `deactivate_order`: a soft delete of the order with that id; 404 when there is no
      such row. Deactivating an inactive order succeeds and changes nothing. */
  method DeactivateOrder(db: Database, isAdmin: bool, id: Id) returns (status: int)
    requires db.Valid()
    modifies db`orders
    ensures db.Valid()
    ensures !isAdmin ==> status == FORBIDDEN
    ensures isAdmin && id !in old(db.orders) ==> status == NOT_FOUND
    ensures status == OK <==> isAdmin && id in old(db.orders)
    ensures status != OK ==> db.orders == old(db.orders)
    ensures status == OK ==> db.orders == old(db.orders)[id := old(db.orders)[id].(isActive := false)]
    ensures status == OK && !old(db.orders)[id].isActive ==> db.orders == old(db.orders)
  {
    if !isAdmin {
      return FORBIDDEN;
    }
    if id !in db.orders {
      return NOT_FOUND;
    }
    db.orders := db.orders[id := db.orders[id].(isActive := false)];
    status := OK;
  }

  /** Because `edit_order` looks the order up without the `isActive` test, a deactivated
      order can still be edited, while reading it by id answers 404. */
  method EditAfterDeactivate(db: Database, id: Id, input: OrderInput, loads: string -> Option<Json>)
    returns (deactivated: int, edited: int, read: int)
    requires db.Valid() && id in db.orders && OrderErrors(input) == {}
    modifies db`orders
    ensures db.Valid()
    ensures deactivated == OK && edited == OK && read == NOT_FOUND
    ensures db.orders == old(db.orders)[id := EditedRow(old(db.orders)[id], input).(isActive := false)]
  {
    deactivated := DeactivateOrder(db, true, id);
    edited := EditOrder(db, true, id, input);
    read := GetOrderById(db, true, id, loads).0;
  }

  /** The listing holds exactly one view per active order, and only active ones. */
  lemma AllOrdersAreTheActiveOnes(db: Database, isAdmin: bool, loads: string -> Option<Json>, v: OrderView)
    ensures v in GetAllOrders(db, isAdmin, loads) <==>
            v.id in db.orders && db.orders[v.id].isActive && v == ViewOf(v.id, db.orders[v.id], isAdmin, loads)
  {
    if v in GetAllOrders(db, isAdmin, loads) {
      var id :| id in db.ActiveOrderIds() && v == ViewOf(id, db.orders[id], isAdmin, loads);
      assert v.id == id;
    }
  }

  /** A non-admin view has no price, order amount or paid amount; an admin view has the
      stored ones. Both views agree on every other field, `extras` included. */
  lemma ViewsDifferOnlyInAmounts(id: Id, o: Order, loads: string -> Option<Json>)
    ensures var a, u := ViewOf(id, o, true, loads), ViewOf(id, o, false, loads);
      u.price == None && u.orderAmount == None && u.paidAmount == None &&
      a.price == Some(o.price) && a.orderAmount == Some(o.orderAmount) && a.paidAmount == Some(o.paidAmount) &&
      a.(price := None, orderAmount := None, paidAmount := None) == u
  {
  }

  /** The date range is inclusive at both ends, and both ends are compared with the
      order's date: an order dated `d` is in `[startDate, endDate]` exactly when it is
      active and `startDate <= d <= endDate`; an inverted range is empty. */
  lemma DateRangeBounds(db: Database, startDate: Day, endDate: Day)
    ensures OrderIdsBetween(db, startDate, endDate) <= db.ActiveOrderIds()
    ensures startDate > endDate ==> OrderIdsBetween(db, startDate, endDate) == {}
    ensures forall id :: id in db.ActiveOrderIds() && db.orders[id].date == startDate && startDate <= endDate ==>
              id in OrderIdsBetween(db, startDate, endDate)
    ensures forall id :: id in db.ActiveOrderIds() && db.orders[id].date == endDate && startDate <= endDate ==>
              id in OrderIdsBetween(db, startDate, endDate)
  {
  }

  /** Adjacent ranges partition a range: `[s, e]` is `[s, m]` together with `[m + 1, e]`,
      and the two parts share no order. */
  lemma DateRangeSplit(db: Database, s: Day, m: Day, e: Day)
    requires s <= m < e
    ensures OrderIdsBetween(db, s, e) == OrderIdsBetween(db, s, m) + OrderIdsBetween(db, m + 1, e)
    ensures OrderIdsBetween(db, s, m) !! OrderIdsBetween(db, m + 1, e)
  {
  }
}
