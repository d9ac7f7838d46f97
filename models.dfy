/** The tables of LittleLemonAPI/models.py: one datatype per model, the
    whole database as a record of tables, the field and uniqueness
    constraints as invariant predicates, and the `on_delete` rules as
    functions from one database state to the next. */
module Models {
  import opened Rows

  type UserId = nat

  /** DecimalField(decimal_places=2), as a whole number of cents. */
  type Cents = int

  /** django.contrib.auth's User; group membership is held in the
      Manager and Delivery-crew rosters of the database. */
  datatype User = User(username: string, isStaff: bool)

  datatype Category = Category(id: nat, title: string, slug: string)

  datatype MenuItem = MenuItem(
    id: nat, title: string, price: Cents, inventory: nat, category: nat, featured: bool)

  datatype CartItem = CartItem(
    user: UserId, menuitem: nat, quantity: nat, unitPrice: Cents, price: Cents)

  datatype Order = Order(
    id: nat, user: UserId, deliveryCrew: Option<UserId>, status: int, total: Cents)

  datatype OrderItem = OrderItem(
    order: nat, menuitem: nat, quantity: nat, unitPrice: Cents, price: Cents)

  const STATUS_PENDING := 0
  const STATUS_OUT_FOR_DELIVERY := 1
  const STATUS_DELIVERED := 2

  /** The STATUS_CHOICES of Order. */
  predicate IsStatusChoice(s: int) {
    s == STATUS_PENDING || s == STATUS_OUT_FOR_DELIVERY || s == STATUS_DELIVERED
  }

  /** An order with every field at its declared default. */
  function DefaultOrder(id: nat, user: UserId): (r: Order)
    ensures r.id == id && r.user == user
    ensures r.deliveryCrew.None? && r.status == STATUS_PENDING && IsStatusChoice(r.status) && r.total == 0
  {
    Order(id, user, None, STATUS_PENDING, 0)
  }

  /** The whole database. */
  datatype Tables = Tables(
    users: map<UserId, User>,
    managers: set<UserId>,
    crew: set<UserId>,
    categories: seq<Category>,
    menu: seq<MenuItem>,
    cart: seq<CartItem>,
    orders: seq<Order>,
    orderItems: seq<OrderItem>)

  function CategoryIds(cs: seq<Category>): set<nat> {
    set c | c in cs :: c.id
  }

  function MenuIds(ms: seq<MenuItem>): set<nat> {
    set m | m in ms :: m.id
  }

  function OrderIds(os: seq<Order>): set<nat> {
    set o | o in os :: o.id
  }

  // ---- Constraints, as relations between an earlier and a later row ----

  /** Ids increase; title and slug are each unique. */
  predicate CategoryOrder(a: Category, b: Category) {
    a.id < b.id && a.title != b.title && a.slug != b.slug
  }

  /** Ids increase; unique_together = ("title", "category"). */
  predicate MenuOrder(a: MenuItem, b: MenuItem) {
    a.id < b.id && (a.title != b.title || a.category != b.category)
  }

  /** unique_together = ("user", "menuitem"). */
  predicate CartOrder(a: CartItem, b: CartItem) {
    a.user != b.user || a.menuitem != b.menuitem
  }

  predicate OrderOrder(a: Order, b: Order) {
    a.id < b.id
  }

  ghost predicate UsersValid(t: Tables) {
    && t.managers <= t.users.Keys
    && t.crew <= t.users.Keys
    && forall a, b :: a in t.users && b in t.users && t.users[a].username == t.users[b].username ==> a == b
  }

  ghost predicate CategoriesValid(cs: seq<Category>) {
    Pairwise(cs, CategoryOrder)
  }

  ghost predicate MenuValid(ms: seq<MenuItem>, cs: seq<Category>) {
    && Pairwise(ms, MenuOrder)
    && forall m :: m in ms ==> m.category in CategoryIds(cs)
  }

  /** A cart row refers to a live user and menu item, and its price is
      its quantity times its stored unit price. */
  ghost predicate CartRowValid(r: CartItem, users: map<UserId, User>, ms: seq<MenuItem>) {
    r.user in users && r.menuitem in MenuIds(ms) && r.price == r.quantity * r.unitPrice
  }

  ghost predicate CartValid(rows: seq<CartItem>, users: map<UserId, User>, ms: seq<MenuItem>) {
    && Pairwise(rows, CartOrder)
    && forall r :: r in rows ==> CartRowValid(r, users, ms)
  }

  ghost predicate OrderValid(o: Order, users: map<UserId, User>) {
    && o.user in users
    && (o.deliveryCrew.Some? ==> o.deliveryCrew.value in users)
    && IsStatusChoice(o.status)
  }

  ghost predicate OrdersValid(os: seq<Order>, users: map<UserId, User>) {
    && Pairwise(os, OrderOrder)
    && forall o :: o in os ==> OrderValid(o, users)
  }

  ghost predicate OrderItemsValid(items: seq<OrderItem>, os: seq<Order>, ms: seq<MenuItem>) {
    forall i :: i in items ==> i.order in OrderIds(os) && i.menuitem in MenuIds(ms)
  }

  ghost predicate Valid(t: Tables) {
    && UsersValid(t)
    && CategoriesValid(t.categories)
    && MenuValid(t.menu, t.categories)
    && CartValid(t.cart, t.users, t.menu)
    && OrdersValid(t.orders, t.users)
    && OrderItemsValid(t.orderItems, t.orders, t.menu)
  }

  // ---- Delete rules ----

  datatype DeleteError = Missing | Protected

  datatype Result<+T> = Deleted(value: T) | Refused(error: DeleteError)

  /** OrderItem.menuitem is `on_delete=PROTECT`: some order item refers to
      one of `ids`. */
  predicate Referenced(items: seq<OrderItem>, ids: set<nat>) {
    exists i :: i in items && i.menuitem in ids
  }

  function KeepItem(ids: set<nat>): MenuItem -> bool {
    (m: MenuItem) => m.id !in ids
  }

  function KeepCartRow(ids: set<nat>): CartItem -> bool {
    (r: CartItem) => r.menuitem !in ids
  }

  /** Deleting menu items cascades to the cart rows that refer to them. */
  function RemoveItems(t: Tables, ids: set<nat>): Tables {
    t.(menu := Filter(t.menu, KeepItem(ids)), cart := Filter(t.cart, KeepCartRow(ids)))
  }

  function DeleteMenuItem(t: Tables, id: nat): (r: Result<Tables>)
    ensures r == Refused(Missing) <==> id !in MenuIds(t.menu)
    ensures r == Refused(Protected) <==> id in MenuIds(t.menu) && Referenced(t.orderItems, {id})
    ensures r.Deleted? ==>
      && (forall m :: m in r.value.menu <==> m in t.menu && m.id != id)
      && (forall c :: c in r.value.cart <==> c in t.cart && c.menuitem != id)
      && r.value == t.(menu := r.value.menu, cart := r.value.cart)
  {
    if id !in MenuIds(t.menu) then Refused(Missing)
    else if Referenced(t.orderItems, {id}) then Refused(Protected)
    else Deleted(RemoveItems(t, {id}))
  }

  function ItemsOf(ms: seq<MenuItem>, cid: nat): set<nat> {
    set m | m in ms && m.category == cid :: m.id
  }

  function KeepCategory(cid: nat): Category -> bool {
    (c: Category) => c.id != cid
  }

  /** MenuItem.category is `on_delete=CASCADE`: deleting a category
      deletes its items (and their cart rows), unless one of them is
      protected by an order item, in which case nothing is deleted. */
  function DeleteCategory(t: Tables, cid: nat): (r: Result<Tables>)
    ensures r == Refused(Missing) <==> cid !in CategoryIds(t.categories)
    ensures r == Refused(Protected) <==>
      cid in CategoryIds(t.categories) && exists i, m :: i in t.orderItems && m in t.menu && m.category == cid && i.menuitem == m.id
    ensures r.Deleted? ==>
      && (forall c :: c in r.value.categories <==> c in t.categories && c.id != cid)
      && (forall m :: m in r.value.menu <==> m in t.menu && m.id !in ItemsOf(t.menu, cid))
      && (forall c :: c in r.value.cart <==> c in t.cart && c.menuitem !in ItemsOf(t.menu, cid))
      && r.value == t.(categories := r.value.categories, menu := r.value.menu, cart := r.value.cart)
  {
    var ids := ItemsOf(t.menu, cid);
    if cid !in CategoryIds(t.categories) then Refused(Missing)
    else if Referenced(t.orderItems, ids) then Refused(Protected)
    else
      var u := RemoveItems(t, ids);
      Deleted(u.(categories := Filter(t.categories, KeepCategory(cid))))
  }

  function KeepCartOf(uid: UserId): CartItem -> bool {
    (r: CartItem) => r.user != uid
  }

  function KeepOrderOf(uid: UserId): Order -> bool {
    (o: Order) => o.user != uid
  }

  function KeepOrderItem(gone: set<nat>): OrderItem -> bool {
    (i: OrderItem) => i.order !in gone
  }

  /** Order.delivery_crew is `on_delete=SET_NULL`: one order after its
      crew member `uid` is deleted. */
  function Unassigned(o: Order, uid: UserId): Order {
    if o.deliveryCrew == Some(uid) then o.(deliveryCrew := None) else o
  }

  function Unassign(os: seq<Order>, uid: UserId): seq<Order> {
    seq(|os|, k requires 0 <= k < |os| => Unassigned(os[k], uid))
  }

  function OrdersOf(os: seq<Order>, uid: UserId): set<nat> {
    set o | o in os && o.user == uid :: o.id
  }

  /** Deleting a user cascades to their cart rows, their orders and those
      orders' items (OrderItem.order is `on_delete=CASCADE`), drops them
      from both rosters, and nulls the crew of the orders they deliver. */
  function DeleteUser(t: Tables, uid: UserId): (r: Result<Tables>)
    ensures r == Refused(Missing) <==> uid !in t.users
    ensures r.Deleted? ==>
      && r.value.users == t.users - {uid}
      && r.value.managers == t.managers - {uid}
      && r.value.crew == t.crew - {uid}
      && (forall c :: c in r.value.cart <==> c in t.cart && c.user != uid)
      && (forall i :: i in r.value.orderItems <==> i in t.orderItems && i.order !in OrdersOf(t.orders, uid))
      && r.value.categories == t.categories && r.value.menu == t.menu
  {
    if uid !in t.users then Refused(Missing)
    else
      Deleted(Tables(
        t.users - {uid}, t.managers - {uid}, t.crew - {uid},
        t.categories, t.menu,
        Filter(t.cart, KeepCartOf(uid)),
        Unassign(Filter(t.orders, KeepOrderOf(uid)), uid),
        Filter(t.orderItems, KeepOrderItem(OrdersOf(t.orders, uid)))))
  }

  function KeepOrder(oid: nat): Order -> bool {
    (o: Order) => o.id != oid
  }

  /** Deleting an order cascades to its items. */
  function DeleteOrder(t: Tables, oid: nat): (r: Result<Tables>)
    ensures r == Refused(Missing) <==> oid !in OrderIds(t.orders)
    ensures r.Deleted? ==>
      && (forall o :: o in r.value.orders <==> o in t.orders && o.id != oid)
      && (forall i :: i in r.value.orderItems <==> i in t.orderItems && i.order != oid)
      && r.value == t.(orders := r.value.orders, orderItems := r.value.orderItems)
  {
    if oid !in OrderIds(t.orders) then Refused(Missing)
    else Deleted(t.(orders := Filter(t.orders, KeepOrder(oid)),
               orderItems := Filter(t.orderItems, KeepOrderItem({oid}))))
  }

  // ---- Facts about the constraints ----

  lemma MenuIdsUnique(ms: seq<MenuItem>, a: MenuItem, b: MenuItem)
    requires Pairwise(ms, MenuOrder)
    requires a in ms && b in ms && a != b
    ensures a.id != b.id
  {
    var i :| 0 <= i < |ms| && ms[i] == a;
    var j :| 0 <= j < |ms| && ms[j] == b;
    if i < j { assert MenuOrder(ms[i], ms[j]); }
    if j < i { assert MenuOrder(ms[j], ms[i]); }
  }

  lemma OrderIdsUnique(os: seq<Order>, a: Order, b: Order)
    requires Pairwise(os, OrderOrder)
    requires a in os && b in os && a != b
    ensures a.id != b.id
  {
    var i :| 0 <= i < |os| && os[i] == a;
    var j :| 0 <= j < |os| && os[j] == b;
    if i < j { assert OrderOrder(os[i], os[j]); }
    if j < i { assert OrderOrder(os[j], os[i]); }
  }

  lemma MenuIdsAfterRemove(ms: seq<MenuItem>, ids: set<nat>)
    ensures MenuIds(Filter(ms, KeepItem(ids))) == MenuIds(ms) - ids
  {
    var f := Filter(ms, KeepItem(ids));
    forall x | x in MenuIds(ms) - ids ensures x in MenuIds(f) {
      var m :| m in ms && m.id == x;
      assert m in f;
    }
  }

  lemma CategoryIdsAfterRemove(cs: seq<Category>, cid: nat)
    ensures CategoryIds(Filter(cs, KeepCategory(cid))) == CategoryIds(cs) - {cid}
  {
    var f := Filter(cs, KeepCategory(cid));
    forall x | x in CategoryIds(cs) - {cid} ensures x in CategoryIds(f) {
      var c :| c in cs && c.id == x;
      assert c in f;
    }
  }

  lemma OrderIdsAfterRemove(os: seq<Order>, oid: nat)
    ensures OrderIds(Filter(os, KeepOrder(oid))) == OrderIds(os) - {oid}
  {
    var f := Filter(os, KeepOrder(oid));
    forall x | x in OrderIds(os) - {oid} ensures x in OrderIds(f) {
      var o :| o in os && o.id == x;
      assert o in f;
    }
  }

  /** Removing menu items keeps the database consistent as long as no
      order item refers to them. */
  lemma RemoveItemsKeepsValid(t: Tables, ids: set<nat>)
    requires Valid(t)
    requires !Referenced(t.orderItems, ids)
    ensures Valid(RemoveItems(t, ids))
  {
    var u := RemoveItems(t, ids);
    FilterPairwise(t.menu, KeepItem(ids), MenuOrder);
    FilterPairwise(t.cart, KeepCartRow(ids), CartOrder);
    MenuIdsAfterRemove(t.menu, ids);
    forall r | r in u.cart ensures CartRowValid(r, u.users, u.menu) {
      assert CartRowValid(r, t.users, t.menu);
    }
    forall i | i in u.orderItems ensures i.menuitem in MenuIds(u.menu) {
      assert i.menuitem in MenuIds(t.menu);
    }
  }

  lemma {:induction false} DeleteMenuItemKeepsValid(t: Tables, id: nat)
    requires Valid(t) && DeleteMenuItem(t, id).Deleted?
    ensures Valid(DeleteMenuItem(t, id).value)
  {
    RemoveItemsKeepsValid(t, {id});
  }

  /** On a consistent database, deleting a category deletes exactly the
      menu items of that category. */
  lemma DeleteCategoryCascades(t: Tables, cid: nat)
    requires Valid(t) && DeleteCategory(t, cid).Deleted?
    ensures forall m :: m in DeleteCategory(t, cid).value.menu <==> m in t.menu && m.category != cid
  {
    var ids := ItemsOf(t.menu, cid);
    forall m | m in t.menu && m.id in ids ensures m.category == cid {
      var m' :| m' in t.menu && m'.category == cid && m'.id == m.id;
      if m != m' { MenuIdsUnique(t.menu, m, m'); }
    }
  }

  lemma DeleteCategoryKeepsValid(t: Tables, cid: nat)
    requires Valid(t) && DeleteCategory(t, cid).Deleted?
    ensures Valid(DeleteCategory(t, cid).value)
  {
    var ids := ItemsOf(t.menu, cid);
    RemoveItemsKeepsValid(t, ids);
    var u := RemoveItems(t, ids);
    var cs := Filter(t.categories, KeepCategory(cid));
    FilterPairwise(t.categories, KeepCategory(cid), CategoryOrder);
    CategoryIdsAfterRemove(t.categories, cid);
    forall m | m in u.menu ensures m.category in CategoryIds(cs) {
      assert m.id !in ids;
    }
  }

  lemma DeleteOrderKeepsValid(t: Tables, oid: nat)
    requires Valid(t) && DeleteOrder(t, oid).Deleted?
    ensures Valid(DeleteOrder(t, oid).value)
  {
    FilterPairwise(t.orders, KeepOrder(oid), OrderOrder);
    OrderIdsAfterRemove(t.orders, oid);
  }

  lemma UnassignKeepsIds(os: seq<Order>, uid: UserId)
    requires Pairwise(os, OrderOrder)
    ensures Pairwise(Unassign(os, uid), OrderOrder)
    ensures OrderIds(Unassign(os, uid)) == OrderIds(os)
    ensures forall o :: o in Unassign(os, uid) ==> o.deliveryCrew != Some(uid)
    ensures |Unassign(os, uid)| == |os|
    ensures forall k :: 0 <= k < |os| ==>
              && Unassign(os, uid)[k].(deliveryCrew := os[k].deliveryCrew) == os[k]
              && (os[k].deliveryCrew != Some(uid) ==> Unassign(os, uid)[k] == os[k])
  {
    var u := Unassign(os, uid);
    forall x | x in OrderIds(os) ensures x in OrderIds(u) {
      var o :| o in os && o.id == x;
      var k :| 0 <= k < |os| && os[k] == o;
      assert u[k] in u;
    }
    forall x | x in OrderIds(u) ensures x in OrderIds(os) {
      var o :| o in u && o.id == x;
      var k :| 0 <= k < |u| && u[k] == o;
      assert os[k] in os;
    }
  }

  /** The orders left after deleting user `uid`: theirs are gone, the
      others keep their keys and lose `uid` as their crew. */
  lemma DeleteUserOrders(t: Tables, uid: UserId)
    requires Valid(t) && uid in t.users
    ensures var os := DeleteUser(t, uid).value.orders;
      && OrdersValid(os, t.users - {uid})
      && OrderIds(os) == OrderIds(t.orders) - OrdersOf(t.orders, uid)
      && (forall o :: o in os ==> o.user != uid && o.deliveryCrew != Some(uid))
      && (forall o :: o in t.orders && o.user != uid ==> Unassigned(o, uid) in os)
      && (forall o' :: o' in os ==> exists o :: o in t.orders && o.user != uid && o' == Unassigned(o, uid))
  {
    var kept := Filter(t.orders, KeepOrderOf(uid));
    var os := Unassign(kept, uid);
    var users := t.users - {uid};
    FilterPairwise(t.orders, KeepOrderOf(uid), OrderOrder);
    UnassignKeepsIds(kept, uid);
    var gone := OrdersOf(t.orders, uid);
    forall x | x in OrderIds(t.orders) - gone ensures x in OrderIds(kept) {
      var o :| o in t.orders && o.id == x;
      assert o in kept;
    }
    forall o | o in os ensures OrderValid(o, users) && o.user != uid
      && exists o0 :: o0 in t.orders && o0.user != uid && o == Unassigned(o0, uid)
    {
      var k :| 0 <= k < |kept| && os[k] == o;
      assert kept[k] in t.orders;
      assert OrderValid(kept[k], t.users);
    }
    forall o | o in t.orders && o.user != uid ensures Unassigned(o, uid) in os {
      assert o in kept;
      var k :| 0 <= k < |kept| && kept[k] == o;
      assert os[k] == Unassigned(o, uid);
    }
  }

  /** Deleting a user removes their orders, keeps every other order (with
      the crew set to null where it was them), and keeps the database
      consistent. */
  lemma DeleteUserKeepsValid(t: Tables, uid: UserId)
    requires Valid(t) && DeleteUser(t, uid).Deleted?
    ensures var r := DeleteUser(t, uid).value;
      && Valid(r)
      && OrderIds(r.orders) == OrderIds(t.orders) - OrdersOf(t.orders, uid)
      && (forall o :: o in r.orders ==> o.user != uid && o.deliveryCrew != Some(uid))
      && (forall o :: o in t.orders && o.user != uid ==> Unassigned(o, uid) in r.orders)
      && (forall o' :: o' in r.orders ==> exists o :: o in t.orders && o.user != uid && o' == Unassigned(o, uid))
  {
    var r := DeleteUser(t, uid).value;
    DeleteUserOrders(t, uid);
    FilterPairwise(t.cart, KeepCartOf(uid), CartOrder);
    forall c | c in r.cart ensures CartRowValid(c, r.users, r.menu) {
      assert CartRowValid(c, t.users, t.menu);
    }
    forall i | i in r.orderItems ensures i.order in OrderIds(r.orders) {
      assert i.order in OrderIds(t.orders);
    }
  }

  // ---- Looking up a menu item by primary key ----

  /** Index of the menu item with primary key `id`, if there is one. */
  function FindItem(ms: seq<MenuItem>, id: nat): (r: Option<nat>)
    ensures r.Some? ==> r.value < |ms| && ms[r.value].id == id
    ensures r.None? <==> id !in MenuIds(ms)
    decreases |ms|
  {
    if ms == [] then None
    else if ms[0].id == id then Some(0)
    else match FindItem(ms[1..], id)
      case None => None
      case Some(k) => Some(k + 1)
  }

  /** With strictly increasing ids, the index FindItem returns is the only
      position holding that id. */
  lemma FindItemUnique(ms: seq<MenuItem>, j: nat)
    requires Pairwise(ms, MenuOrder) && j < |ms|
    ensures FindItem(ms, ms[j].id) == Some(j)
  {
  }

  /** Two versions of the menu table that differ only in the columns a
      view may update in place (inventory, featured). */
  predicate SameKeys(a: seq<MenuItem>, b: seq<MenuItem>) {
    && |a| == |b|
    && forall j :: 0 <= j < |a| ==>
         a[j] == b[j].(inventory := a[j].inventory, featured := a[j].featured)
  }

  lemma SameKeysKeepMenu(a: seq<MenuItem>, b: seq<MenuItem>, cs: seq<Category>)
    requires SameKeys(a, b) && MenuValid(a, cs)
    ensures MenuValid(b, cs) && MenuIds(a) == MenuIds(b)
  {
    SameKeysKeepIds(a, b);
    forall m | m in b ensures m.category in CategoryIds(cs) {
      var j :| 0 <= j < |b| && b[j] == m;
      assert a[j] in a;
    }
  }

  lemma SameKeysKeepIds(a: seq<MenuItem>, b: seq<MenuItem>)
    requires SameKeys(a, b) && Pairwise(a, MenuOrder)
    ensures Pairwise(b, MenuOrder) && MenuIds(a) == MenuIds(b)
  {
    forall i, j | 0 <= i < j < |b| ensures MenuOrder(b[i], b[j]) {
      assert MenuOrder(a[i], a[j]);
    }
    forall m | m in b ensures m.id in MenuIds(a) {
      var j :| 0 <= j < |b| && b[j] == m;
      assert a[j] in a;
    }
    forall x | x in MenuIds(a) ensures x in MenuIds(b) {
      var m :| m in a && m.id == x;
      var j :| 0 <= j < |a| && a[j] == m;
      assert b[j] in b;
    }
  }
}
