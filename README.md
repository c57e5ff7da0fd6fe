# Catering order backend: a verified model of its handlers

The system is a Flask backend for a catering business. Admins record event orders,
keep a menu taxonomy of categories and sub-categories, and attach a menu (a list of
chosen sub-categories plus a free-text note) to each order. The handlers that change
rows, and the category and sub-category listings, refuse a caller without the admin
claim. The three order reads use the claim only to choose whether the amounts are
shown, and the category tree and the has-menu check do not read it. A handler
validates its request and then reads or changes a relational store. Rows are soft-deleted: a handler that "deletes" clears `isActive`, and the row
stays.

The model has these modules:

- `Store` models the store as one `Database` object. Each table is a map from row id to
  row. A counter `nextId` stands for the random UUIDs of `set_id`, so an id handed out
  is never already in a table. `Valid()` is the store invariant: ids are below the
  counter, the parent of every sub-category, the order and sub-category of every menu
  row and the order of every note row exist, stored orders meet the order rules and
  menu rows have quantity 1.
- `OrdersApi`, `CategoriesApi` and `SubCategoriesApi` model the handlers. Those that
  change rows are methods on the database, with status codes, frame conditions and the
  invariants they keep. The read handlers are functions.
- `OrderMenuApi` models `update_order_menu` in four steps:
  - it selects the request shape (`DispatchRequest`);
  - it deactivates the order's old rows (`Database.RetireMenu`);
  - it loops over the entries and saves one row each until the first failing entry
    (`SaveEntries`, specified by the functions `SavedRows`, `FreshIds`,
    `FirstUnresolved` and `LoopStatus`);
  - it saves the note row (`SaveNotes`).
  
  The same module has the category tree for menu selection and the has-menu check.
- `Extras` models the `extras` value of the order read schemas: the JSON decode (an
  oracle parameter `loads`) and the fallback parser for brace-wrapped, comma-separated
  text. `Text` writes out the Python string operations that parser uses: `strip`,
  `split` and the `[1:-1]` slice. Its `Count` is not used by the parser; it counts
  commas to bound the number of items.
- `Validation` holds the schema constraints: name and phone lengths, the ordered guest
  bounds, name lengths 1..100 and quantity at least 1.

In three places the model follows the code where the system's own description says
otherwise:

- The description has `update_order_menu` hard-delete the rows it just deactivated
  and then sweep orphaned inactive rows. The handler's code does neither, so the model
  only deactivates.
- The code stores each menu row with quantity 1 and no notes, and the submitted
  values are ignored.
- A submitted item without `sub_category_id`, or an `items` list whose first element
  has no `order_id`, makes the code raise. The handler turns that into a 500, and the
  model has that 500 too.

## Model

| member | source | states |
|---|---|---|
| Text.Split | schemas.py:73 | `split(',')` gives one piece more than there are commas, and no piece holds a comma |
| Text.JoinSplit | schemas.py:73 | joining the pieces of a split with the separator gives back the text |
| Text.SplitJoin | schemas.py:73 | separator-free pieces joined with the separator split back into the same pieces |
| Text.SplitConcat | schemas.py:73 | the split of `x,y` is the split of `x` followed by the split of `y` |
| Text.StripIsInfix | schemas.py:64 | `strip()` returns an infix of its input, removes only white space, and leaves no white space at either end |
| Text.StripIdempotent | schemas.py:74 | stripping twice is stripping once |
| Text.Inner | schemas.py:69 | the slice `[1:-1]` is what lies between the first and the last character, so that putting them back around it gives the text again; on a one-character string it is the empty text |
| Text.CountInfix | schemas.py:64-69 | an infix has no more commas than the whole text |
| Extras.ParseFallback | schemas.py:62-84 | the fallback loop returns `Fallback(raw)`: non-empty items only, at most one more than the commas of the stored text |
| Extras.GetExtras | schemas.py:50-88 | missing or empty `extras` gives `[]`; a decoded JSON list is returned as it is; any other decoded value gives `[]`; undecodable text gives the fallback items as JSON strings, each non-empty |
| Extras.UnbracedShape | schemas.py:64-69 | one `{` and one `}` are removed after trimming, only when both are present; otherwise the trimmed text is split as it is |
| Extras.UnbracedCount | schemas.py:64-69 | trimming and removing the braces removes no comma |
| Extras.FallbackBound | schemas.py:73-81 | the fallback returns at most (number of commas + 1) items |
| Extras.NonEmptyAppend | schemas.py:80-81 | dropping empty items distributes over concatenation, so the kept items stay in segment order |
| Extras.ItemsConcat | schemas.py:72-81 | the items of `x,y` are the items of `x` followed by the items of `y` |
| Extras.FallbackMembers | schemas.py:72-81 | a string is a fallback item iff it is non-empty and is the cleaned form of some segment |
| Extras.NonEmptyMembers | schemas.py:80-81 | a string passes the filter iff it is non-empty and in the input |
| Extras.CleanItemInfix | schemas.py:74-79 | a cleaned item is an infix of its segment |
| Extras.CleanItemQuoted | schemas.py:76-79 | a segment that trims to `"w"` or `'w'` cleans to exactly `w`: white space inside the quotes is kept and inner quotes stay |
| Extras.CleanItemLoneQuote | schemas.py:76-81 | a segment that trims to a lone quote cleans to the empty text, so it is dropped |
| Extras.CleanItemUnquoted | schemas.py:74-79 | a segment whose trimmed text is not quoted is only trimmed |
| Validation.OrderErrors | schemas.py:11-30 | an order input is rejected iff the full name is under 5, the phone is under 10, or (with both lengths fine) `minGuests > maxGuests`; equal guest bounds are accepted; each error is reported iff its condition holds |
| OrdersApi.AddNewOrder | orders.py:13-51 | 403 for a non-admin and 400 for a rejected input, with no change; otherwise 201 and exactly one new row under a fresh id: active, created by the caller, with the input's fields |
| OrdersApi.GetOrderById | orders.py:53-68 | 404 iff the order is missing or inactive; otherwise 200 with the view of that row the caller's claim selects (`ViewOf`), so the price is shown iff the caller is admin |
| OrdersApi.GetOrdersByDates | orders.py:81-98 | 500 when the body lacks either date (the schema requires neither and the key lookup raises); otherwise 200, and a view is listed iff it is the view of an active order in the inclusive range |
| OrdersApi.AllOrdersAreTheActiveOnes | orders.py:70-79 | the listing holds a view iff it is the view of an active order |
| OrdersApi.ViewsDifferOnlyInAmounts | schemas.py:90-137 | the non-admin view lacks price, order amount and paid amount, and equals the admin view on every other field, `extras` included |
| OrdersApi.DateRangeBounds | orders.py:90-93 | the range query returns only active orders, includes both end dates, and is empty for an inverted range |
| OrdersApi.DateRangeSplit | orders.py:90-93 | adjacent ranges partition a range into disjoint parts |
| OrdersApi.EditOrder | orders.py:100-133 | 403, 400, or 404 for an unknown id, each with no change; otherwise exactly the thirteen listed fields are overwritten, and `isActive`, `createdBy` and `extras` are kept, even for an inactive order |
| OrdersApi.DeactivateOrder | orders.py:135-156 | 403 or 404 with no change; otherwise only `isActive` becomes false, and deactivating an inactive order changes nothing |
| OrdersApi.EditAfterDeactivate | orders.py:113-114 | a deactivated order can still be edited (200), while reading it by id gives 404 |
| CategoriesApi.AddCategory | categories.py:10-37 | 403, 400, then 409 when an active category has the name, each with no change; otherwise 201 and one new active row created by the caller; active names stay unique |
| CategoriesApi.GetAllCategories | categories.py:40-51 | 403 and nothing for a non-admin; otherwise a view is listed iff it is the view of an active category |
| CategoriesApi.DeleteCategory | categories.py:54-68 | 403, or 404 for an unknown id, with no change; otherwise a soft delete that changes only that row's `isActive`; deleting again succeeds and changes nothing |
| SubCategoriesApi.AddSubCategory | sub_categories.py:10-45 | 403, 400, then 404 when the parent is missing or inactive, then 409 when an active sub-category of that parent has the name, each with no change; otherwise 201 and one new active row under that parent, created by the caller; (name, parent) pairs of active rows stay unique |
| SubCategoriesApi.GetAllSubCategories | sub_categories.py:48-70 | 403 and nothing for a non-admin; otherwise every active sub-category is listed exactly once with its fields and its parent's name |
| SubCategoriesApi.GetSubCategoriesByParent | sub_categories.py:73-84 | 403 and nothing for a non-admin; otherwise a view is listed iff it is the view of an active sub-category of that parent |
| SubCategoriesApi.DeleteSubCategory | sub_categories.py:87-101 | 403, or 404 for an unknown id, with no change; otherwise a soft delete of that row only, which succeeds again on an inactive row |
| Store.Database.NewId | models.py:83-84 | the new id is under no row of any table, and the invariant is kept |
| Store.Database.AddMenuItem | order_menu.py:64-72 | one new menu row under a fresh id, with no other change |
| Store.Database.AddMenuMeta | order_menu.py:77-83 | one new note row under a fresh id, with no other change |
| Store.Database.RetireMenu | order_menu.py:51-53 | every menu row and note row of the order becomes inactive; no row is removed and no other row changes |
| Store.RetireItems | order_menu.py:52 | the deactivated table has the same ids, and the order has no active row left |
| Store.DistinctCardinality | order_menu.py:85-90 | a list of distinct ids has as many ids as its set |
| Store.Enumerate | sub_categories.py:55 | a query result lists each matching row once |
| OrderMenuApi.DispatchRequest | order_menu.py:29-44 | with `items`: 400 for an empty list, 500 when its first element has no `order_id`, else the first element's order and the whole list; without `items`: the body's `order_id` and `menu_items` when both are there, else 400; a missing note is `""` |
| OrderMenuApi.EmptyListsDispatch | order_menu.py:29-37 | an empty `items` list is refused with 400; an empty `menu_items` list is accepted |
| OrderMenuApi.ItemsShapeTakesPrecedence | order_menu.py:29-38 | when `items` is present, `order_id` and `menu_items` of the body are ignored |
| OrderMenuApi.OnlyFirstItemNamesTheOrder | order_menu.py:33-35 | changing any item but the first (except its sub-category) does not change the target order or the note |
| OrderMenuApi.FirstUnresolved | order_menu.py:57-61 | every entry before the returned position names an active sub-category, and the entry at it does not |
| OrderMenuApi.LoopStatus | order_menu.py:57-61 | 200 iff every entry resolves; at the first one that does not, 500 without a sub-category id and 404 for a missing or inactive sub-category |
| OrderMenuApi.SavedRowsHoldEntry | order_menu.py:64-72 | the k-th saved entry is stored under the k-th fresh id, with quantity 1 and no notes |
| OrderMenuApi.SavedRowsKeepOld | order_menu.py:55-73 | saving entries never changes an older row |
| OrderMenuApi.SavedRowsOnlyFresh | order_menu.py:55-73 | saving adds only rows under the fresh ids |
| OrderMenuApi.SaveEntries | order_menu.py:55-73 | the loop saves the entries in order under consecutive fresh ids, stops at the first unresolved entry with its status, and keeps the rows saved before it |
| OrderMenuApi.ReplacedBySaved | order_menu.py:51-73 | deactivating and then saving makes the saved rows exactly the order's active rows, one per saved entry, in order |
| OrderMenuApi.SaveNotes | order_menu.py:75-83 | a note row is added iff the items were all saved and the note is non-empty, and it is then the order's only active note |
| OrderMenuApi.ReplaceMenu | order_menu.py:51-83 | the order's old rows and notes are inactive; the new rows match a prefix of the entries; the note row follows `SaveNotes` |
| OrderMenuApi.UpdateOrderMenu | order_menu.py:16-100 | 403, the dispatch's refusal, or 404 for a missing or inactive order, each before any row changes. Otherwise the menu is replaced: on 200 the order has exactly one active row per submitted item, in order, with quantity 1 and no notes; on a failing entry the old rows stay deactivated and the earlier new rows stay saved |
| OrderMenuApi.ActiveSubsMembers | order_menu.py:159-166 | a sub-category node is listed iff an active row of the category has that id and name |
| OrderMenuApi.MenuTree | order_menu.py:151-174 | no node has the excluded name, and every node has at least one sub-category |
| OrderMenuApi.MenuTreeAppend | order_menu.py:151-174 | the tree of a concatenation is the concatenation of the trees, so categories keep their visiting order |
| OrderMenuApi.MenuTreeMembers | order_menu.py:154-174 | a node is in the tree iff it is the node of a category that is not the excluded one and has an active sub-category |
| OrderMenuApi.BuildMenuTree | order_menu.py:151-174 | the loop with its `continue` computes `MenuTree` |
| OrderMenuApi.MirroredChildren | order_menu.py:159-166 | the active sub-categories read through the relationship are the category's active children in the store |
| OrderMenuApi.LoadSubRecords | order_menu.py:165 | `category.sub_categories` yields every sub-category row of the category, active or not, with its name and flag |
| OrderMenuApi.LoadCategoryGraph | order_menu.py:151 | every active category once, each with all its sub-category rows |
| OrderMenuApi.GetCategoriesWithSubcategories | order_menu.py:148-187 | each node is an active category other than the excluded one, with exactly its active sub-categories, each once, and at least one; every such category has a node, and no two nodes share an id |
| OrderMenuApi.MenuTreeDistinct | order_menu.py:151-174 | categories with distinct ids give nodes with distinct ids |
| OrderMenuApi.ActiveSubsDistinct | order_menu.py:159-166 | the active-sub-category filter keeps distinct ids distinct |
| OrderMenuApi.CheckOrderHasMenu | order_menu.py:206-221 | always 200; `has_menu_items` is true iff some active menu row belongs to the order, and iff `item_count > 0`; the count is the number of active rows of the order |
| OrderMenuApi.ActiveRowsExist | order_menu.py:211-212 | an order's set of active menu row ids is non-empty iff some active menu row belongs to it |
| OrderMenuApi.CheckAfterUpdate | order_menu.py:85-90 | after a successful update, the check reports as many items as were submitted |
| OrderMenuApi.StoredQuantitiesAcceptable | schemas.py:209 | every stored menu row meets the quantity rule (at least 1) |

## Left out

- Authentication: tokens, refresh, cookies, the blocklist and password hashing are
  library calls. The admin claim and the caller's user name are parameters.
- Application setup, CORS, JWT configuration and seed data are not modelled.
- `get_order_menu` and `delete_menu_item` of order_menu.py are not part of this model.
- The hard-delete cleanup and the orphan sweep of the menu tables are not modelled.
  The handler does not perform them.
- The transaction rollback on 500 is not modelled. A 500 from a failing entry leaves
  the store exactly as the loop left it.
- `json.loads` is an oracle parameter: the model does not model JSON syntax. The
  `except Exception` branch of the fallback is never taken in the model, because the
  string operations cannot raise.
- Request parsing is the schema framework's: missing required keys, wrong types,
  nulls and date parsing are not modelled. An order input is a typed record with its
  required fields present. The keys the handlers read without requiring them are
  `Option`s: the menu update's body and items, and the two dates of the range query.
- Floating-point amounts are opaque `real` values that are stored and returned, never
  computed with.
- Dates are integer day numbers.
- Timestamps (`created_at`, `updated_at`) are not modelled.
- Response formatting, messages and debug prints are not modelled.
- Database column widths (`String(100)`, `String(20)`) are not modelled.
- Query order is not modelled. The order listings, the category listing and the
  listing by parent are sets. The sub-category listing and the rows behind the
  category tree come out through `Store.Enumerate`, in an order the model does not fix.
- The lookup helpers whose code is not part of this model are taken to look at active
  rows only: `get_by_name`, `get_by_name_and_parent`, `get_by_parent_category`,
  `get_all_active` and `get_by_order_id`. `delete_by_order_id` is taken to deactivate
  every row of the order. A new menu row or note row is taken to be active.
- `anotherName` and `extras` of an order request are validated but never stored.
  models.py has no column for them, so a stored order's `extras` is an input
  of the read model only.
- Store.Database.RetireMenu: the two `delete_by_order_id` calls are modelled as one
  method that deactivates both tables.
- OrderMenuApi.UpdateOrderMenu does not apply `UpdateOrderMenuSchema` or
  `AddOrderMenuItemSchema`, because the handler does not load them. The submitted
  quantity is therefore never checked against the quantity rule; it is ignored.
- OrdersApi.GetAllOrders has no contract of its own. Its property is in
  `AllOrdersAreTheActiveOnes`, and those of the date range are in `DateRangeBounds`
  and `DateRangeSplit`.
- The admin and non-admin `get_extras` differ only in debug prints, so one function,
  `Extras.ExtrasValue`, serves both views. That they agree holds by this construction
  and is not a separate proof.
