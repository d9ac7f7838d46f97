# Little Lemon ordering API — a Dafny model

This project models the business rules of the Little Lemon restaurant API, a
Django REST framework backend. It covers the role predicates, the tables
with their constraints and delete rules, and the endpoints that change the
tables:

- the Manager and Delivery-crew rosters;
- the item of the day;
- the menu listing filter;
- the cart;
- order placement, order visibility, and the order update rules.

The database is one `Tables` record:

- users are a map from id to record;
- each roster is a set of user ids;
- every other table is a sequence of rows in primary-key order.

Money is a whole number of cents. Stock and quantities are natural numbers.
`Models.Valid` states the constraints of the models:

- foreign keys resolve;
- keys increase along the category, menu and order tables;
- categories have unique titles and slugs;
- (title, category) is unique on the menu;
- (user, menu item) is unique in the cart;
- an order's status is one of the three choices;
- a cart row's price is its quantity times its stored unit price.

The endpoints are methods of the class `Views.Store`, which holds the
tables as fields. Most methods state their new state through a function in
`Models`, `MenuRules`, `CartRules` or `OrderRules`; the roster methods state
it as a set insert or delete. Every method keeps `Valid`. The
properties the source promises are proved about those functions as lemmas.

Modules:

- `Rows`: the order-keeping `Filter` that models a queryset filter, and pairwise constraints over a table.
- `Permissions`: the permission classes.
- `Models`: entities, constraints, delete rules, lookups by key.
- `Http`: the response codes.
- `MenuRules`: the item of the day and the listing filter.
- `CartRules`: add to cart and clear cart.
- `OrderRules`: visibility, placement, and the update rules.
- `Views`: the `Store` class with one method per endpoint.

One place where the code differs from its own text is a delivery-crew
member who patches an order that is not assigned to them. The docstring of
`partial_update` (LittleLemonAPI/views.py:203) and its "Not your order."
branch (LittleLemonAPI/views.py:217-218) suggest a 403 for that request.
But `partial_update` first calls `get_object`, which looks the order up in
`get_queryset`. For a crew member that queryset holds only the orders
assigned to them, so such a request gets 404. The 403 branch is reached
only by a user who is staff or in the Manager group, is also on the
Delivery-crew roster, sends neither field, and targets an order not
assigned to them (unassigned, or assigned to someone else). The model
follows the code (`Views.Store.FindVisible`, `Views.Store.PatchOrder`).

## Model

| member | source | states |
|---|---|---|
| Permissions.InGroupNeedsAuthentication | LittleLemonAPI/permissions.py:3-4 | group membership never counts for an unauthenticated user, whatever group data it carries |
| Permissions.IsAdminIffStaff | LittleLemonAPI/permissions.py:6-8 | IsAdmin holds iff the user is staff |
| Permissions.IsManagerIff | LittleLemonAPI/permissions.py:10-12 | IsManager holds iff the user is staff or an authenticated member of "Manager" |
| Permissions.IsDeliveryCrewIff | LittleLemonAPI/permissions.py:14-16 | IsDeliveryCrew holds iff the user is staff or an authenticated member of "Delivery crew" |
| Permissions.ReadOnlyIffSafe | LittleLemonAPI/permissions.py:18-20 | ReadOnly holds iff the method is GET, HEAD or OPTIONS, and it gives the same answer for any two users |
| Permissions.AdminIsManagerAndCrew | LittleLemonAPI/permissions.py:6-16 | an admin passes IsManager and IsDeliveryCrew |
| Permissions.AnonymousHasNoRole | LittleLemonAPI/permissions.py:3-16 | the anonymous user passes none of the three role predicates, whatever groups it claims |
| Permissions.CatalogAllows | LittleLemonAPI/views.py:70-84 | on categories and menu items a request is allowed iff its method is safe or the user is staff; a write needs staff |
| Permissions.CatalogReadsOpen | LittleLemonAPI/views.py:80-84 | every principal, anonymous included, may GET, HEAD or OPTIONS the menu |
| Permissions.FeaturedAllowsAsWritten | LittleLemonAPI/views.py:80-101 | the item-of-the-day action is gated by the view's method-based gate: every GET passes, and a PATCH passes iff the user is staff |
| Permissions.FeaturedAllows | LittleLemonAPI/views.py:101 | the gate the action declares: allowed iff the user is staff or a signed-in member of the Manager group |
| Permissions.FeaturedGateDiffers | LittleLemonAPI/views.py:80-101 | a signed-in non-staff manager is refused PATCH as written but allowed by the declared gate; the anonymous user is served GET as written but refused by the declared gate |
| Views.FeaturedAsWritten | LittleLemonAPI/views.py:80-118 | the action as dispatched: refused with 403 with no change unless the method-based gate passes; GET reads and answers 204 iff nothing is featured; HEAD and PATCH both run the set: 404 for a missing or unknown key, otherwise a row is featured iff its key is the one sent, with only flags changed; the menu changes only on a HEAD or PATCH that passes the gate; other methods get 405 |
| Views.FeaturedIntended | LittleLemonAPI/views.py:101-118 | the action as its decorator declares it: 403 with no change for a requester who is not a manager, GET and HEAD both only read, and the menu changes only on a manager's PATCH, which features exactly the row with the key sent |
| Views.AnonymousHeadSetsFeatured | LittleLemonAPI/views.py:80-118 | an anonymous HEAD carrying an item key moves the item of the day as written, where the declared action answers 403; a HEAD without a key gets 404 where the GET gets 200 |
| Models.DefaultOrder | LittleLemonAPI/models.py:52-53 | a new order is pending (a valid status choice), has no crew and has total 0 |
| Models.DeleteMenuItem | LittleLemonAPI/models.py:27-61 | deleting a menu item fails as missing iff there is no such key, and as protected iff an order item refers to it; otherwise exactly that item and the cart rows that refer to it go, and nothing else changes |
| Models.DeleteCategory | LittleLemonAPI/models.py:16-61 | deleting a category fails as missing iff there is no such key, and as protected iff an order item refers to one of its items; otherwise the category, its items and their cart rows go, and nothing else changes |
| Models.DeleteCategoryCascades | LittleLemonAPI/models.py:16 | on a valid database a successful category delete leaves exactly the menu items of other categories |
| Models.DeleteUser | LittleLemonAPI/models.py:26-60 | deleting a user removes them from the users and both rosters, together with their cart rows and the items of their orders; categories and menu are unchanged |
| Models.DeleteUserOrders | LittleLemonAPI/models.py:48-51 | after a user delete, the orders are exactly the other users' orders, each with its crew set to null where it was the deleted user and otherwise as before; they keep their keys and validity, and none names the deleted user |
| Models.DeleteUserKeepsValid | LittleLemonAPI/models.py:26-60 | a user delete keeps every constraint, removes exactly that user's orders, and leaves every other order in place with only its crew nulled where it was that user |
| Models.DeleteOrder | LittleLemonAPI/models.py:60 | deleting an order fails iff there is no such key; otherwise the order and exactly its items go |
| Models.RemoveItemsKeepsValid | LittleLemonAPI/models.py:27-61 | removing unreferenced menu items and their cart rows keeps every constraint |
| Models.DeleteMenuItemKeepsValid | LittleLemonAPI/models.py:27-61 | a successful menu-item delete keeps every constraint |
| Models.DeleteCategoryKeepsValid | LittleLemonAPI/models.py:16-27 | a successful category delete keeps every constraint |
| Models.DeleteOrderKeepsValid | LittleLemonAPI/models.py:60 | a successful order delete keeps every constraint |
| Models.UnassignKeepsIds | LittleLemonAPI/models.py:49-51 | nulling a user's crew assignments keeps the table's length, keys and key order; at each position only the crew may change, an order the user did not deliver is unchanged, and no order names that user as crew afterwards |
| Models.MenuIdsUnique | LittleLemonAPI/models.py:12-20 | two different menu rows of a valid menu have different keys |
| Models.OrderIdsUnique | LittleLemonAPI/models.py:38-54 | two different order rows have different keys |
| Models.FindItem | LittleLemonAPI/views.py:137 | the primary-key lookup of a menu item finds a row with that key, and finds nothing iff no row has it |
| Models.FindItemUnique | LittleLemonAPI/views.py:114 | on a valid menu the lookup by a row's key finds that very row |
| Models.SameKeysKeepMenu | LittleLemonAPI/models.py:13-20 | changing only stock and featured flags keeps the menu constraints and the set of keys |
| Models.SameKeysKeepIds | LittleLemonAPI/models.py:13-20 | changing only stock and featured flags keeps keys increasing and (title, category) unique |
| MenuRules.FirstFeatured | LittleLemonAPI/views.py:108 | the lookup finds the first featured row, with no featured row before it, and finds nothing iff no row is featured |
| MenuRules.FeatureExactlyOne | LittleLemonAPI/views.py:113-118 | after clear-then-set exactly the chosen row is featured, only flags changed, stock is kept, and a GET returns that row |
| MenuRules.FeatureById | LittleLemonAPI/views.py:113-118 | after featuring key `mid`, a row is featured iff its key is `mid` |
| MenuRules.ParseId | LittleLemonAPI/views.py:92 | the category parameter is read as a key iff it is a non-empty run of decimal digits |
| MenuRules.InsertSorted | LittleLemonAPI/views.py:96-98 | inserting one row into a price-sorted list keeps it sorted |
| MenuRules.InsertLowerBound | LittleLemonAPI/views.py:96-98 | a price bound below every row and below the new row still holds after the insertion |
| MenuRules.SortByPrice | LittleLemonAPI/views.py:96-98 | `order_by("price")` / `order_by("-price")` returns a permutation of its input, sorted ascending or descending |
| MenuRules.ListMenuSpec | LittleLemonAPI/views.py:87-99 | a row is listed iff it is on the menu, matches the category by key or by slug, and contains the search text ignoring case, and each such row is listed exactly once; the list is price-sorted for the two price orderings and in key order otherwise |
| MenuRules.ListMenuAsWritten | LittleLemonAPI/views.py:90-92 | as written, the listing fails with a server error iff the category parameter is non-empty and not a number; otherwise it equals the intended listing |
| MenuRules.SlugFilterCrashes | LittleLemonAPI/views.py:90-92 | the input `?category=mains` on a menu with a "mains" category: the intended listing returns its item, the code as written crashes |
| CartRules.FindRow | LittleLemonAPI/views.py:140-143 | the lookup of `get_or_create` finds a row of that user and item, and finds nothing iff there is none |
| CartRules.RowsForUnique | LittleLemonAPI/models.py:33 | with (user, menu item) unique, a pair that has a row has exactly that one row |
| CartRules.AddToCartSpec | LittleLemonAPI/views.py:134-147 | an add keeps one row per (user, menu item); a new pair gets one row (quantity q, unit price = the item's price, price = q × unit price); a known pair gets quantity old + q and price from the stored unit price; every other pair's rows are unchanged |
| CartRules.AddTwice | LittleLemonAPI/views.py:135-147 | adding the same item twice gives one row of quantity q1 + q2 priced at the first add's unit price, even if the menu price changed in between |
| CartRules.ClearCartSpec | LittleLemonAPI/views.py:150-153 | clearing leaves the requester no rows and every other user's rows unchanged and in order |
| CartRules.AddToCartKeepsValid | LittleLemonAPI/views.py:134-148 | adding an existing item for an existing user keeps the cart constraints |
| CartRules.ClearCartKeepsValid | LittleLemonAPI/views.py:150-153 | clearing keeps the cart constraints |
| OrderRules.VisibleSpec | LittleLemonAPI/views.py:162-172 | staff and managers see every order; otherwise crew see exactly the orders assigned to them; otherwise users see exactly the orders they placed |
| OrderRules.SnapshotTotal | LittleLemonAPI/views.py:182-192 | the order items copied from the cart rows sum to the same total as the rows |
| OrderRules.DecrementAllSpec | LittleLemonAPI/views.py:193-195 | after the loop each menu item's stock is max(0, stock − quantity ordered of it); keys, titles, prices and flags are unchanged |
| OrderRules.QtyForDistinct | LittleLemonAPI/models.py:33 | in one user's cart an item's ordered quantity is the quantity of its one row |
| OrderRules.QtyForAbsent | LittleLemonAPI/views.py:185-195 | an item with no row in the cart is ordered in quantity 0 |
| OrderRules.PlacementScenario | LittleLemonAPI/views.py:182-196 | rows 10.00 × 2 and 5.50 × 1 with stock 5 and 0 give total 25.50, two copied order items, and stock 3 and 0 |
| OrderRules.PlaceKeepsValid | LittleLemonAPI/views.py:182-197 | placement with a fresh key keeps every constraint of the database |
| OrderRules.PlaceItemsTotal | LittleLemonAPI/views.py:182-196 | the new order's items are exactly the copied cart rows, and their prices add up to the order's total |
| OrderRules.PlaceStock | LittleLemonAPI/views.py:193-195 | after placement an item in the cart has stock max(0, old − its row's quantity), and an item not in the cart keeps its stock |
| OrderRules.FindOrder | LittleLemonAPI/views.py:205 | the key lookup finds an order with that key, and finds nothing iff no order has it |
| OrderRules.FindOrderUnique | LittleLemonAPI/views.py:205 | the lookup by an order's key finds that very order |
| OrderRules.ReplaceOrderKeepsValid | LittleLemonAPI/views.py:211-222 | saving a valid order under its own key keeps every constraint |
| OrderRules.PatchByManager | LittleLemonAPI/views.py:208-213 | a manager or admin sending crew or status gets 400 iff the status is not a choice or the crew is not a user, with no change; otherwise exactly the fields sent are saved; the modelled body carries no total, so key, owner and total are kept |
| OrderRules.ManagerFallsThrough | LittleLemonAPI/views.py:209-226 | a manager or admin sending neither field falls through and is refused with 403, with no change |
| OrderRules.PatchByCrew | LittleLemonAPI/views.py:215-224 | the crew branch of the role rules refuses with 403 an order not assigned to the crew member (at the endpoint such an order is not visible to them and `Views.Store.FindVisible` answers 404 first); on an assigned order status 2 sets only the status to delivered, and any other status is refused with no change |
| OrderRules.PatchByCustomer | LittleLemonAPI/views.py:226 | a user in neither group and not staff is refused with 403, with no change |
| OrderRules.PatchKeepsOrderValid | LittleLemonAPI/views.py:200-226 | an update keeps the order valid and its key, owner and total; a refused update changes nothing; a non-manager can only mark an order delivered |
| OrderRules.CustomerPutMarksDelivered | LittleLemonAPI/views.py:157-160 | a customer's PUT of status 2 on their own order is saved as written, though the same PATCH is refused |
| OrderRules.Put | LittleLemonAPI/views.py:200-226 | PUT under the update role rules: a non-manager can at most mark the order delivered, and a customer is refused with no change |
| Views.Store.constructor | LittleLemonAPI/models.py:5-64 | the store starts from any consistent database |
| Views.Store.RolesAgree | LittleLemonAPI/views.py:165-168 | the permission classes and the order views' direct group queries agree on who is admin, manager and crew |
| Views.Store.AddMember | LittleLemonAPI/views.py:28-62 | non-admins get 403 on the Manager roster and non-managers on the crew roster; an unknown username gets 404; otherwise 201 and the user joins exactly that roster |
| Views.Store.RemoveMember | LittleLemonAPI/views.py:28-62 | non-admins get 403 on the Manager roster and non-managers on the crew roster; an unknown user gets 404; otherwise 204 and the user leaves exactly that roster |
| Views.Store.GetFeatured | LittleLemonAPI/views.py:101-111 | every requester, anonymous included, is served; 204 iff no item is featured; otherwise 200 with a featured item whose key is the lowest of all featured items |
| Views.Store.SetFeatured | LittleLemonAPI/views.py:80-118 | a requester who is not staff gets 403 (the view's method-based gate, not the action's manager gate) and an unknown key 404, both with the menu unchanged; otherwise 200 and a row is featured iff its key is the one sent, with only flags changed |
| Views.Store.AddToCart | LittleLemonAPI/views.py:134-148 | an unknown item gets 404 with the cart unchanged; otherwise 201, the cart becomes the add-to-cart function's result, and the returned row is the pair's only row |
| Views.Store.ClearCart | LittleLemonAPI/views.py:150-153 | 204; the requester has no rows left and every other user's rows are unchanged |
| Views.Store.PlaceOrder | LittleLemonAPI/views.py:174-198 | an empty cart gets 400 and nothing changes; otherwise 201 with the new pending order under the next key, and the database becomes the placement function's result |
| Views.Store.CopyAndReduce | LittleLemonAPI/views.py:184-195 | the loop yields one copied order item per cart row, in order, and lowers each row's item stock, floored at 0 |
| Views.Store.FindVisible | LittleLemonAPI/views.py:162-172 | `get_object` finds an order with the key that the requester can see, and finds nothing iff no order with that key is visible to them |
| Views.Store.PatchOrder | LittleLemonAPI/views.py:200-226 | an order the requester cannot see gets 404 with no change; otherwise the update role rules decide the response, and the result is saved in place |
| Views.Store.DestroyOrder | LittleLemonAPI/views.py:157-172 | an order the requester cannot see gets 404 with no change; otherwise 204 and the order and its items go |
| Views.Store.DestroyMenuItem | LittleLemonAPI/views.py:76-84 | non-admins get 403; then 404 for an unknown key and 500 for a protected item, both with no change; otherwise 204 and the menu-item delete rule applies |
| Views.Store.DestroyCategory | LittleLemonAPI/views.py:66-74 | non-admins get 403; then 404 for an unknown key and 500 when one of its items is protected, both with no change; otherwise 204 and the category delete rule applies |

`CartRules.RowsOf` (the cart listing) and `OrderRules.Visible` (the order
listing) are the GET list endpoints. The lemmas above describe them.

## Left out

- Serializers, URL routing, admin registration and the app's startup hook: field lists and wiring only. The Manager and Delivery-crew groups are taken to exist, so `Group.objects.get` never fails.
- The HTTP and ORM layers: responses are `Http.Response` codes, and response bodies are left out except the returned cart row, featured item and order.
- Anonymous access to the cart and order endpoints: `IsAuthenticated` refuses it before the view runs. These methods take a signed-in user (`requires u in users`). The roster, featured-update and catalogue endpoints take an optional user and do handle the anonymous one; the featured read serves everyone and takes no user.
- Views.Store.SetFeatured: models the PATCH request only. The HEAD request that reaches the same set path, for any requester, is modelled on values by `Views.FeaturedAsWritten`, not as an update of the Store's menu in place.
- Transactions and concurrent requests: each method is one sequential step.
- Request parsing: `int(quantity)` with its default of 1, a missing `menuitem_id` or `username`, non-numeric keys in a URL, and the string comparison of `status` with `"2"`. Keys and quantities arrive as natural numbers, and `status` as an integer.
- Database limits: `max_digits` overflow, the positive-integer check on a stored quantity, and field lengths.
- Order dates and the `-date` ordering of the order listing. Orders are kept in key order.
- `__str__` methods: display only.
- List endpoints for categories and the rosters, and the generic create, retrieve and update of categories and menu items. These are framework defaults with no rule of this code beyond the permission check, which `Permissions.CatalogAllows` models.
- OrderRules.PatchByManager: does not model the writable `total` field of the order serializer on the manager path. `OrderRules.Patch` carries only `delivery_crew_id` and `status`, so key, owner and total are kept.
- Anonymous refusals in `Views.Store.AddMember`, `Views.Store.RemoveMember`, `Views.Store.SetFeatured`, `Views.Store.DestroyMenuItem` and `Views.Store.DestroyCategory`: modelled as 403. The framework answers 401 instead when the first configured authentication class sends a WWW-Authenticate header, and those settings are not part of this model.
- OrderRules.SerializerUpdate: the framework's validation is reduced to the two checks that matter to the model (a status choice, an existing crew user).
- MenuRules.ParseId: accepts ASCII digits only; Python's `int` also accepts signs, surrounding spaces and other Unicode digits.
- MenuRules.ContainsIgnoreCase: lowers ASCII letters only, where the database folds case for more characters.
- MenuRules.SortByPrice: fixes one order among rows of equal price, where the database leaves that order open.
- Models.DeleteUser: no endpoint of this code deletes users; the rule is stated as the models declare it.

## Findings

| source | as written | input that shows it | evidently intended | confidence | as-written member | corrected member |
|---|---|---|---|---|---|---|
| LittleLemonAPI/views.py:157-160 | OrderViewSet overrides only `partial_update`, so PUT goes to the framework's `update()`, which saves status and crew for anyone who can see the order | a customer sends PUT /orders/1 with `{"status": 2}` on their own pending order: it is marked delivered, while the same PATCH gets 403 | every update of an order obeys the role rules of `partial_update` | not executed | OrderRules.PutAsWritten, OrderRules.CustomerPutMarksDelivered | OrderRules.Put |
| LittleLemonAPI/views.py:80-118 | `get_permissions` of MenuItemViewSet chooses IsAdmin or ReadOnly by method for every action, so the `permission_classes=[IsManager]` of the `featured` action is never consulted; and since the action's body tests only for GET, a HEAD (bound to the same action and let through by ReadOnly) runs the set | a signed-in manager who is not staff sends PATCH /menu-items/featured and gets 403; an anonymous GET /menu-items/featured gets 200 or 204; an anonymous HEAD /menu-items/featured with `{"menuitem_id": 2}` makes item 2 the item of the day | the item of the day is read by managers and set by a manager's PATCH only, as the decorator and the comment on line 81 say | not executed | Permissions.FeaturedAllowsAsWritten, Permissions.FeaturedGateDiffers, Views.FeaturedAsWritten, Views.AnonymousHeadSetsFeatured | Permissions.FeaturedAllows, Views.FeaturedIntended |
| LittleLemonAPI/views.py:90-92 | `qs.filter(category__id=category)` turns the key into an integer as the queryset is built, before the slug filter is combined with it, so a slug that is not a number raises ValueError and the listing fails with a server error | GET /menu-items?category=mains with a category whose slug is "mains" | a category matches by numeric key or by slug, as the comment on the line says | not executed | MenuRules.ListMenuAsWritten, MenuRules.SlugFilterCrashes | MenuRules.ListMenu, MenuRules.ListMenuSpec |
