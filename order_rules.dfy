/** The order view of LittleLemonAPI/views.py (OrderViewSet) as functions:
    which orders a user sees, what placing an order from a cart produces,
    and the role rules of a partial update. */
module OrderRules {
  import opened Rows
  import opened Models
  import opened Http
  import CartRules

  // ---- Visibility: get_queryset ----

  /** What the order views know of the requester: their id, the staff flag
      and the two group memberships (get_queryset asks the groups table
      directly, without in_group). */
  datatype Actor = Actor(id: UserId, isStaff: bool, isManager: bool, isCrew: bool)

  predicate CanSee(a: Actor, o: Order) {
    if a.isStaff || a.isManager then true
    else if a.isCrew then o.deliveryCrew == Some(a.id)
    else o.user == a.id
  }

  function SeenBy(a: Actor): Order -> bool {
    (o: Order) => CanSee(a, o)
  }

  function Visible(a: Actor, os: seq<Order>): seq<Order> {
    Filter(os, SeenBy(a))
  }

  /** Staff and managers see every order; otherwise delivery crew see the
      orders assigned to them; otherwise users see the orders they placed. */
  lemma VisibleSpec(a: Actor, os: seq<Order>)
    ensures a.isStaff || a.isManager ==> Visible(a, os) == os
    ensures !a.isStaff && !a.isManager && a.isCrew ==>
      forall o :: o in Visible(a, os) <==> o in os && o.deliveryCrew == Some(a.id)
    ensures !a.isStaff && !a.isManager && !a.isCrew ==>
      forall o :: o in Visible(a, os) <==> o in os && o.user == a.id
  {
    if a.isStaff || a.isManager {
      FilterAll(os, SeenBy(a));
    }
  }

  // ---- Placement: create ----

  /** `sum(i.price for i in cart_items)`. */
  function Total(rows: seq<CartItem>): Cents
    decreases |rows|
  {
    if rows == [] then 0 else Total(rows[..|rows| - 1]) + rows[|rows| - 1].price
  }

  function ItemsTotal(items: seq<OrderItem>): Cents
    decreases |items|
  {
    if items == [] then 0 else ItemsTotal(items[..|items| - 1]) + items[|items| - 1].price
  }

  /** The order item a cart row becomes: quantity, unit price and price
      are copied as they stand in the row. */
  function ToOrderItem(oid: nat, r: CartItem): OrderItem {
    OrderItem(oid, r.menuitem, r.quantity, r.unitPrice, r.price)
  }

  /** The `bulk` list: one order item per cart row, in cart order. */
  function Snapshot(oid: nat, rows: seq<CartItem>): seq<OrderItem> {
    seq(|rows|, k requires 0 <= k < |rows| => ToOrderItem(oid, rows[k]))
  }

  /** The order total equals the sum of its items' prices. */
  lemma {:induction false} SnapshotTotal(oid: nat, rows: seq<CartItem>)
    ensures ItemsTotal(Snapshot(oid, rows)) == Total(rows)
    decreases |rows|
  {
    if rows != [] {
      var init := rows[..|rows| - 1];
      SnapshotTotal(oid, init);
      assert Snapshot(oid, rows)[..|rows| - 1] == Snapshot(oid, init);
    }
  }

  /** The quantity of menu item `id` over the given rows. */
  function QtyFor(rows: seq<CartItem>, id: nat): nat
    decreases |rows|
  {
    if rows == [] then 0
    else QtyFor(rows[..|rows| - 1], id) + (if rows[|rows| - 1].menuitem == id then rows[|rows| - 1].quantity else 0)
  }

  /** `inventory = max(0, inventory - quantity)` on the row's menu item. */
  function Decrement(ms: seq<MenuItem>, r: CartItem): seq<MenuItem> {
    match FindItem(ms, r.menuitem)
    case None => ms
    case Some(k) => ms[k := ms[k].(inventory := Floor0(ms[k].inventory - r.quantity))]
  }

  /** The inventory updates of the loop over the cart rows, in order. */
  function DecrementAll(ms: seq<MenuItem>, rows: seq<CartItem>): seq<MenuItem>
    decreases |rows|
  {
    if rows == [] then ms else Decrement(DecrementAll(ms, rows[..|rows| - 1]), rows[|rows| - 1])
  }

  /** After the loop each menu item has lost the quantity ordered of it,
      floored at zero rather than refused, and nothing else changed. */
  lemma {:induction false} DecrementAllSpec(ms: seq<MenuItem>, rows: seq<CartItem>)
    requires Pairwise(ms, MenuOrder)
    ensures SameKeys(ms, DecrementAll(ms, rows))
    ensures forall j :: 0 <= j < |ms| ==>
      && DecrementAll(ms, rows)[j].inventory == Floor0(ms[j].inventory - QtyFor(rows, ms[j].id))
      && DecrementAll(ms, rows)[j].featured == ms[j].featured
    decreases |rows|
  {
    if rows != [] {
      var init := rows[..|rows| - 1];
      var last := rows[|rows| - 1];
      DecrementAllSpec(ms, init);
      var d := DecrementAll(ms, init);
      SameKeysKeepIds(ms, d);
      match FindItem(d, last.menuitem)
      case None =>
        forall j | 0 <= j < |ms| ensures ms[j].id != last.menuitem {
          assert d[j].id == ms[j].id && d[j] in d;
        }
      case Some(k) =>
        forall j | 0 <= j < |ms| && j != k ensures ms[j].id != last.menuitem {
          FindItemUnique(d, j);
        }
    }
  }

  /** The rows of one user's cart name distinct menu items, so each item's
      quantity is the quantity of its one row. */
  lemma {:induction false} QtyForDistinct(rows: seq<CartItem>, i: nat)
    requires i < |rows|
    requires forall a, b :: 0 <= a < b < |rows| ==> rows[a].menuitem != rows[b].menuitem
    ensures QtyFor(rows, rows[i].menuitem) == rows[i].quantity
    decreases |rows|
  {
    var init := rows[..|rows| - 1];
    if i < |rows| - 1 {
      assert init[i] == rows[i];
      QtyForDistinct(init, i);
    } else {
      QtyForAbsent(init, rows[i].menuitem);
    }
  }

  lemma {:induction false} QtyForAbsent(rows: seq<CartItem>, id: nat)
    requires forall r :: r in rows ==> r.menuitem != id
    ensures QtyFor(rows, id) == 0
    decreases |rows|
  {
    if rows != [] {
      assert rows[|rows| - 1] in rows;
      QtyForAbsent(rows[..|rows| - 1], id);
    }
  }

  /** Placing from a cart priced 10.00 x 2 and 5.50 x 1, with 5 and 0 in
      stock: total 25.50, two order items, stock 3 and 0. */
  lemma PlacementScenario()
    ensures var ms := [MenuItem(1, "Pasta", 1000, 5, 1, false), MenuItem(2, "Salad", 550, 0, 1, false)];
      var rows := [CartItem(7, 1, 2, 1000, 2000), CartItem(7, 2, 1, 550, 550)];
      && Total(rows) == 2550
      && Snapshot(40, rows) == [OrderItem(40, 1, 2, 1000, 2000), OrderItem(40, 2, 1, 550, 550)]
      && DecrementAll(ms, rows) == [ms[0].(inventory := 3), ms[1]]
  {
    var ms := [MenuItem(1, "Pasta", 1000, 5, 1, false), MenuItem(2, "Salad", 550, 0, 1, false)];
    var rows := [CartItem(7, 1, 2, 1000, 2000), CartItem(7, 2, 1, 550, 550)];
    assert rows[..1] == [rows[0]] && [rows[0]][..0] == [];
    assert FindItem(ms, 1) == Some(0);
    var d := ms[0 := ms[0].(inventory := 3)];
    assert d[1..] == [ms[1]];
    assert FindItem(d, 2) == Some(1);
  }

  /** The order `create` makes: every field at its default but the total. */
  function NewOrder(oid: nat, u: UserId, rows: seq<CartItem>): Order {
    DefaultOrder(oid, u).(total := Total(rows))
  }

  /** The database after `create` for user `u`, the new order taking the
      primary key `oid`: the order and its items are added, the stock of
      every ordered item goes down, and the user's cart is emptied. */
  function Place(t: Tables, oid: nat, u: UserId): Tables {
    var rows := CartRules.RowsOf(t.cart, u);
    t.(orders := t.orders + [NewOrder(oid, u, rows)],
       orderItems := t.orderItems + Snapshot(oid, rows),
       menu := DecrementAll(t.menu, rows),
       cart := CartRules.ClearCart(t.cart, u))
  }

  function OfOrder(oid: nat): OrderItem -> bool {
    (i: OrderItem) => i.order == oid
  }

  /** `order.items.all()`. */
  function ItemsOfOrder(items: seq<OrderItem>, oid: nat): seq<OrderItem> {
    Filter(items, OfOrder(oid))
  }

  /** Placing keeps the database consistent when the new key is above
      every existing order's. */
  lemma PlaceKeepsValid(t: Tables, oid: nat, u: UserId)
    requires Valid(t) && u in t.users
    requires forall o :: o in t.orders ==> o.id < oid
    ensures Valid(Place(t, oid, u))
  {
    var rows := CartRules.RowsOf(t.cart, u);
    var p := Place(t, oid, u);
    DecrementAllSpec(t.menu, rows);
    SameKeysKeepMenu(t.menu, p.menu, t.categories);
    AppendPairwise(t.orders, NewOrder(oid, u, rows), OrderOrder);
    assert CartValid(t.cart, t.users, p.menu) by {
      forall r | r in t.cart ensures CartRowValid(r, t.users, p.menu) {
        assert CartRowValid(r, t.users, t.menu);
      }
    }
    CartRules.ClearCartKeepsValid(t.cart, t.users, p.menu, u);
    assert NewOrder(oid, u, rows) in p.orders;
    forall i | i in p.orderItems ensures i.order in OrderIds(p.orders) && i.menuitem in MenuIds(p.menu) {
      if i in t.orderItems {
        var o :| o in t.orders && o.id == i.order;
        assert o in p.orders;
      } else {
        var k :| 0 <= k < |rows| && Snapshot(oid, rows)[k] == i;
        assert rows[k] in t.cart;
        assert CartRowValid(rows[k], t.users, t.menu);
      }
    }
  }

  /** The new order's items are the cart rows, and their prices add up to
      the order's total. */
  lemma PlaceItemsTotal(t: Tables, oid: nat, u: UserId)
    requires Valid(t)
    requires forall o :: o in t.orders ==> o.id < oid
    ensures var rows := CartRules.RowsOf(t.cart, u);
      && ItemsOfOrder(Place(t, oid, u).orderItems, oid) == Snapshot(oid, rows)
      && ItemsTotal(ItemsOfOrder(Place(t, oid, u).orderItems, oid)) == NewOrder(oid, u, rows).total
  {
    var rows := CartRules.RowsOf(t.cart, u);
    var s := Snapshot(oid, rows);
    FilterConcat(t.orderItems, s, OfOrder(oid));
    forall i | i in t.orderItems ensures !OfOrder(oid)(i) {
      var o :| o in t.orders && o.id == i.order;
    }
    FilterNone(t.orderItems, OfOrder(oid));
    FilterAll(s, OfOrder(oid));
    SnapshotTotal(oid, rows);
  }

  /** Each item in the user's cart loses exactly the quantity of its row,
      floored at zero; the items not in the cart keep their stock. */
  lemma PlaceStock(t: Tables, oid: nat, u: UserId, j: nat)
    requires Valid(t) && j < |t.menu|
    ensures var rows := CartRules.RowsOf(t.cart, u);
      && |Place(t, oid, u).menu| == |t.menu|
      && (forall r :: r in rows && r.menuitem == t.menu[j].id ==>
            Place(t, oid, u).menu[j].inventory == Floor0(t.menu[j].inventory - r.quantity))
      && ((forall r :: r in rows ==> r.menuitem != t.menu[j].id) ==>
            Place(t, oid, u).menu[j].inventory == t.menu[j].inventory)
  {
    var rows := CartRules.RowsOf(t.cart, u);
    DecrementAllSpec(t.menu, rows);
    FilterPairwise(t.cart, CartRules.OwnedBy(u), CartOrder);
    forall a, b | 0 <= a < b < |rows| ensures rows[a].menuitem != rows[b].menuitem {
      assert CartOrder(rows[a], rows[b]);
      assert rows[a] in rows && rows[b] in rows;
    }
    forall r | r in rows && r.menuitem == t.menu[j].id
      ensures QtyFor(rows, t.menu[j].id) == r.quantity
    {
      var i :| 0 <= i < |rows| && rows[i] == r;
      QtyForDistinct(rows, i);
    }
    if forall r :: r in rows ==> r.menuitem != t.menu[j].id {
      QtyForAbsent(rows, t.menu[j].id);
    }
  }

  // ---- Finding one order: get_object ----

  /** Index of the order with primary key `oid`, if there is one. */
  function FindOrder(os: seq<Order>, oid: nat): (r: Option<nat>)
    ensures r.Some? ==> r.value < |os| && os[r.value].id == oid
    ensures r.None? <==> oid !in OrderIds(os)
    decreases |os|
  {
    if os == [] then None
    else if os[0].id == oid then Some(0)
    else match FindOrder(os[1..], oid)
      case None => None
      case Some(k) => Some(k + 1)
  }

  /** With strictly increasing ids, an order id names one position. */
  lemma FindOrderUnique(os: seq<Order>, j: nat)
    requires Pairwise(os, OrderOrder) && j < |os|
    ensures FindOrder(os, os[j].id) == Some(j)
  {
  }

  /** Saving an order under its own key keeps the database consistent. */
  lemma ReplaceOrderKeepsValid(t: Tables, k: nat, o: Order)
    requires Valid(t) && k < |t.orders|
    requires o.id == t.orders[k].id && OrderValid(o, t.users)
    ensures Valid(t.(orders := t.orders[k := o]))
  {
    var os := t.orders[k := o];
    forall i, j | 0 <= i < j < |os| ensures OrderOrder(os[i], os[j]) {
      assert OrderOrder(t.orders[i], t.orders[j]);
    }
    forall x | x in OrderIds(t.orders) ensures x in OrderIds(os) {
      var j :| 0 <= j < |t.orders| && t.orders[j].id == x;
      assert os[j] in os;
    }
  }

  // ---- Partial update: partial_update ----

  /** The fields of a PATCH body this view reads: `delivery_crew_id`
      (present or not; when present, a user id or null) and `status`. */
  datatype Patch = Patch(deliveryCrew: Option<Option<UserId>>, status: Option<int>)

  /** `super().partial_update`: the serializer accepts a status that is one
      of the choices and a crew id that names a user, and saves the
      fields that were supplied. */
  function SerializerUpdate(o: Order, p: Patch, users: map<UserId, User>): (Response, Order) {
    if p.status.Some? && !IsStatusChoice(p.status.value) then (BadRequest, o)
    else if p.deliveryCrew.Some? && p.deliveryCrew.value.Some? && p.deliveryCrew.value.value !in users then (BadRequest, o)
    else
      var crew := if p.deliveryCrew.Some? then p.deliveryCrew.value else o.deliveryCrew;
      var status := if p.status.Some? then p.status.value else o.status;
      (Ok, o.(deliveryCrew := crew, status := status))
  }

  /** The branches of partial_update once get_object has found the order.
      A manager whose body has neither field falls through to the
      delivery-crew branch. */
  function PatchOrder(a: Actor, o: Order, p: Patch, users: map<UserId, User>): (Response, Order) {
    if (a.isStaff || a.isManager) && (p.deliveryCrew.Some? || p.status.Some?) then
      SerializerUpdate(o, p, users)
    else if a.isCrew then
      if o.deliveryCrew != Some(a.id) then (Forbidden, o)
      else if p.status == Some(STATUS_DELIVERED) then (Ok, o.(status := STATUS_DELIVERED))
      else (Forbidden, o)
    else (Forbidden, o)
  }

  /** Managers and admins: the supplied fields are saved when valid, the
      order is left alone otherwise; id, owner and total never change. */
  lemma PatchByManager(a: Actor, o: Order, p: Patch, users: map<UserId, User>)
    requires a.isStaff || a.isManager
    requires p.deliveryCrew.Some? || p.status.Some?
    ensures var (res, o') := PatchOrder(a, o, p, users);
      && (res == Ok || res == BadRequest)
      && (res == BadRequest <==>
            (p.status.Some? && !IsStatusChoice(p.status.value))
            || (p.deliveryCrew.Some? && p.deliveryCrew.value.Some? && p.deliveryCrew.value.value !in users))
      && (res == BadRequest ==> o' == o)
      && o'.id == o.id && o'.user == o.user && o'.total == o.total
      && (res == Ok ==> o'.deliveryCrew == (if p.deliveryCrew.Some? then p.deliveryCrew.value else o.deliveryCrew))
      && (res == Ok ==> o'.status == (if p.status.Some? then p.status.value else o.status))
  {
  }

  /** A manager whose body has neither field falls through to the
      delivery-crew branch, which refuses it whether or not they are crew
      (the body has no status to mark delivered); nothing changes. */
  lemma ManagerFallsThrough(a: Actor, o: Order, users: map<UserId, User>)
    requires a.isStaff || a.isManager
    ensures PatchOrder(a, o, Patch(None, None), users) == (Forbidden, o)
  {
  }

  /** A delivery-crew member who is not a manager: on an order assigned to
      them, status 2 marks it delivered and changes nothing else; any
      other body is refused with no change. */
  lemma PatchByCrew(a: Actor, o: Order, p: Patch, users: map<UserId, User>)
    requires !a.isStaff && !a.isManager && a.isCrew
    ensures o.deliveryCrew != Some(a.id) ==> !CanSee(a, o) && PatchOrder(a, o, p, users) == (Forbidden, o)
    ensures o.deliveryCrew == Some(a.id) && p.status == Some(STATUS_DELIVERED) ==>
      PatchOrder(a, o, p, users) == (Ok, o.(status := STATUS_DELIVERED))
    ensures p.status != Some(STATUS_DELIVERED) ==> PatchOrder(a, o, p, users) == (Forbidden, o)
  {
  }

  /** Anyone in neither group and not staff is refused with no change. */
  lemma PatchByCustomer(a: Actor, o: Order, p: Patch, users: map<UserId, User>)
    requires !a.isStaff && !a.isManager && !a.isCrew
    ensures PatchOrder(a, o, p, users) == (Forbidden, o)
  {
  }

  /** Only managers and admins change an order other than by marking it
      delivered, and an accepted update keeps the order valid. */
  lemma PatchKeepsOrderValid(a: Actor, o: Order, p: Patch, users: map<UserId, User>)
    requires OrderValid(o, users)
    ensures var (res, o') := PatchOrder(a, o, p, users);
      && OrderValid(o', users)
      && o'.id == o.id && o'.user == o.user && o'.total == o.total
      && (res != Ok ==> o' == o)
      && (!a.isStaff && !a.isManager ==> o' == o || o' == o.(status := STATUS_DELIVERED))
  {
  }

  // ---- Full update: PUT ----

  /** As written, OrderViewSet overrides only partial_update, so a PUT
      reaches the framework's update(), which runs the serializer for
      anyone who can see the order. */
  function PutAsWritten(a: Actor, o: Order, p: Patch, users: map<UserId, User>): (Response, Order) {
    SerializerUpdate(o, p, users)
  }

  /** A customer PUTs status 2 on their own order: as written it is marked
      delivered, although a PATCH with the same body is refused. */
  lemma CustomerPutMarksDelivered()
    ensures var a := Actor(7, false, false, false);
      var o := Order(1, 7, None, STATUS_PENDING, 2550);
      var users := map[7 := User("guest", false)];
      var p := Patch(None, Some(STATUS_DELIVERED));
      && CanSee(a, o)
      && PutAsWritten(a, o, p, users) == (Ok, o.(status := STATUS_DELIVERED))
      && PatchOrder(a, o, p, users) == (Forbidden, o)
  {
  }

  /** PUT under the role rules of partial_update. */
  function Put(a: Actor, o: Order, p: Patch, users: map<UserId, User>): (r: (Response, Order))
    ensures !a.isStaff && !a.isManager ==> r.1 == o || r.1 == o.(status := STATUS_DELIVERED)
    ensures !a.isStaff && !a.isManager && !a.isCrew ==> r == (Forbidden, o)
  {
    PatchOrder(a, o, p, users)
  }
}
