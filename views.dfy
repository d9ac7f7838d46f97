/** The view sets of LittleLemonAPI/views.py over one database held in
    place. Each endpoint is a method of `Store`: it applies the permission
    classes, looks its objects up the way `get_object_or_404` and
    `get_object` do, and updates the tables as the view's ORM calls do.
    Each method's new state is stated through the functions of Models,
    MenuRules, CartRules and OrderRules, whose properties are proved
    there. */
module Views {
  import opened Rows
  import opened Models
  import opened Http
  import Permissions
  import MenuRules
  import CartRules
  import OrderRules

  /** The two group rosters: Manager (kept by admins) and Delivery crew
      (kept by managers). */
  datatype Roster = ManagerRoster | CrewRoster

  // ---- The item-of-the-day action as dispatched ----

  /** `/menu-items/featured/` as the framework runs it. The permission
      check comes first and is the view's method-based one; OPTIONS is
      answered by the framework's metadata handler; the route binds GET
      and PATCH, and HEAD to the GET action, and has no handler for any
      other method. The action's body tests only for GET, so a HEAD runs
      the clear-then-set of a PATCH. `mid` is the body's `menuitem_id`,
      None when it is absent. */
  function FeaturedAsWritten(p: Permissions.Principal, m: Permissions.HttpMethod, mid: Option<nat>,
                             ms: seq<MenuItem>): (r: (Response, seq<MenuItem>))
    requires Pairwise(ms, MenuOrder)
    ensures !Permissions.CatalogAllows(p, m) ==> r == (Forbidden, ms)
    ensures r.1 != ms ==> m in {Permissions.Head, Permissions.Patch} && Permissions.CatalogAllows(p, m)
    ensures Permissions.CatalogAllows(p, m) && m !in {Permissions.Get, Permissions.Head,
                                                     Permissions.Patch, Permissions.Options} ==>
      r == (MethodNotAllowed, ms)
    ensures m == Permissions.Get ==> r.1 == ms && (r.0 == NoContent <==> forall x :: x in ms ==> !x.featured)
    ensures m == Permissions.Get ==> r.0 == NoContent || r.0 == Ok
    ensures (&& m in {Permissions.Head, Permissions.Patch} && Permissions.CatalogAllows(p, m)
             && (mid.None? || mid.value !in MenuIds(ms))) ==>
      r == (NotFound, ms)
    ensures (&& m in {Permissions.Head, Permissions.Patch} && Permissions.CatalogAllows(p, m)
             && mid.Some? && mid.value in MenuIds(ms)) ==>
      && r.0 == Ok && SameKeys(ms, r.1)
      && forall j :: 0 <= j < |r.1| ==> (r.1[j].featured <==> r.1[j].id == mid.value)
  {
    if !Permissions.CatalogAllows(p, m) then (Forbidden, ms)
    else if m == Permissions.Options then (Ok, ms)
    else if m == Permissions.Get then
      (if MenuRules.FirstFeatured(ms).None? then NoContent else Ok, ms)
    else if m != Permissions.Head && m != Permissions.Patch then (MethodNotAllowed, ms)
    else if mid.None? || FindItem(ms, mid.value).None? then (NotFound, ms)
    else
      var k := FindItem(ms, mid.value).value;
      MenuRules.FeatureExactlyOne(ms, k);
      MenuRules.FeatureById(ms, mid.value);
      (Ok, MenuRules.Feature(ms, k))
  }

  /** The action as its decorator declares it: managers only, GET and HEAD
      both read, and only PATCH sets the item of the day. */
  function FeaturedIntended(p: Permissions.Principal, m: Permissions.HttpMethod, mid: Option<nat>,
                            ms: seq<MenuItem>): (r: (Response, seq<MenuItem>))
    requires Pairwise(ms, MenuOrder)
    ensures !Permissions.FeaturedAllows(p, m) ==> r == (Forbidden, ms)
    ensures r.1 != ms ==> m == Permissions.Patch && Permissions.IsManager(p)
    ensures m in {Permissions.Get, Permissions.Head} && Permissions.FeaturedAllows(p, m) ==>
      r.1 == ms && (r.0 == NoContent <==> forall x :: x in ms ==> !x.featured)
    ensures m == Permissions.Patch && Permissions.FeaturedAllows(p, m) && mid.Some? && mid.value in MenuIds(ms) ==>
      && r.0 == Ok && SameKeys(ms, r.1)
      && forall j :: 0 <= j < |r.1| ==> (r.1[j].featured <==> r.1[j].id == mid.value)
  {
    if !Permissions.FeaturedAllows(p, m) then (Forbidden, ms)
    else if m == Permissions.Options then (Ok, ms)
    else if m == Permissions.Get || m == Permissions.Head then
      (if MenuRules.FirstFeatured(ms).None? then NoContent else Ok, ms)
    else if m != Permissions.Patch then (MethodNotAllowed, ms)
    else if mid.None? || FindItem(ms, mid.value).None? then (NotFound, ms)
    else
      var k := FindItem(ms, mid.value).value;
      MenuRules.FeatureExactlyOne(ms, k);
      MenuRules.FeatureById(ms, mid.value);
      (Ok, MenuRules.Feature(ms, k))
  }

  /** An anonymous HEAD with `{"menuitem_id": 2}` moves the item of the day
      from item 1 to item 2 as written, where the declared action refuses
      it; and a HEAD without a body gets 404 where the GET gets 200. */
  lemma AnonymousHeadSetsFeatured()
    ensures var ms := [MenuItem(1, "Lasagne", 1250, 3, 1, true), MenuItem(2, "Greek salad", 950, 5, 1, false)];
      && FeaturedAsWritten(Permissions.ANONYMOUS, Permissions.Head, Some(2), ms)
         == (Ok, [ms[0].(featured := false), ms[1].(featured := true)])
      && FeaturedIntended(Permissions.ANONYMOUS, Permissions.Head, Some(2), ms) == (Forbidden, ms)
      && FeaturedAsWritten(Permissions.ANONYMOUS, Permissions.Head, None, ms).0 == NotFound
      && FeaturedAsWritten(Permissions.ANONYMOUS, Permissions.Get, None, ms).0 == Ok
  {
    var ms := [MenuItem(1, "Lasagne", 1250, 3, 1, true), MenuItem(2, "Greek salad", 950, 5, 1, false)];
    assert FindItem(ms, 2) == Some(1) by {
      assert ms[1..] == [ms[1]];
    }
    assert MenuRules.FirstFeatured(ms) == Some(0);
    var f := MenuRules.Feature(ms, 1);
    assert f == [ms[0].(featured := false), ms[1].(featured := true)] by {
      assert |f| == 2 && f[0] == ms[0].(featured := false) && f[1] == ms[1].(featured := true);
    }
  }

  class Store {
    var users: map<UserId, User>
    var managers: set<UserId>
    var crew: set<UserId>
    var categories: seq<Category>
    var menu: seq<MenuItem>
    var cart: seq<CartItem>
    var orders: seq<Order>
    var orderItems: seq<OrderItem>
    /** The primary key the next order gets. */
    var nextOrderId: nat

    function Db(): Tables
      reads this
    {
      Tables(users, managers, crew, categories, menu, cart, orders, orderItems)
    }

    ghost predicate Valid()
      reads this
    {
      && Models.Valid(Db())
      && forall o :: o in orders ==> o.id < nextOrderId
    }

    /** A store over any consistent database. */
    constructor (t: Tables, next: nat)
      requires Models.Valid(t)
      requires forall o :: o in t.orders ==> o.id < next
      ensures Valid() && Db() == t && nextOrderId == next
    {
      users := t.users;
      managers := t.managers;
      crew := t.crew;
      categories := t.categories;
      menu := t.menu;
      cart := t.cart;
      orders := t.orders;
      orderItems := t.orderItems;
      nextOrderId := next;
    }

    /** The requester as the permission classes see them: `None` is the
        anonymous user; a signed-in user carries the groups of the rosters
        they are on. */
    function PrincipalOf(who: Option<UserId>): Permissions.Principal
      reads this
      requires who.Some? ==> who.value in users
    {
      match who
      case None => Permissions.ANONYMOUS
      case Some(u) =>
        var groups := (if u in managers then {Permissions.MANAGER} else {})
                    + (if u in crew then {Permissions.DELIVERY_CREW} else {});
        Permissions.Principal(true, users[u].isStaff, groups)
    }

    /** The requester as the order views see them (they ask the groups
        table directly). */
    function ActorOf(u: UserId): OrderRules.Actor
      reads this
      requires u in users
    {
      OrderRules.Actor(u, users[u].isStaff, u in managers, u in crew)
    }

    /** The permission classes and the order views' direct group queries
        agree on a signed-in user's roles. */
    lemma RolesAgree(u: UserId)
      requires u in users
      ensures var p := PrincipalOf(Some(u));
        var a := ActorOf(u);
        && (Permissions.IsAdmin(p) <==> a.isStaff)
        && (Permissions.IsManager(p) <==> a.isStaff || a.isManager)
        && (Permissions.IsDeliveryCrew(p) <==> a.isStaff || a.isCrew)
    {
      assert Permissions.MANAGER != Permissions.DELIVERY_CREW;
    }

    predicate MayManage(who: Option<UserId>, roster: Roster)
      reads this
      requires who.Some? ==> who.value in users
    {
      match roster
      case ManagerRoster => Permissions.IsAdmin(PrincipalOf(who))
      case CrewRoster => Permissions.IsManager(PrincipalOf(who))
    }

    // ---- Group rosters ----

    /** POST to a roster: the user named `username` joins it. */
    method AddMember(who: Option<UserId>, roster: Roster, username: string) returns (res: Response)
      requires Valid() && (who.Some? ==> who.value in users)
      modifies this`managers, this`crew
      ensures Valid()
      ensures !old(MayManage(who, roster)) ==> res == Forbidden && unchanged(this)
      ensures old(MayManage(who, roster)) && (forall u :: u in users ==> users[u].username != username) ==>
        res == NotFound && unchanged(this)
      ensures old(MayManage(who, roster)) ==> forall u :: u in users && users[u].username == username ==>
        && res == Created
        && managers == (if roster == ManagerRoster then old(managers) + {u} else old(managers))
        && crew == (if roster == CrewRoster then old(crew) + {u} else old(crew))
    {
      if !MayManage(who, roster) {
        return Forbidden;
      }
      if u :| u in users && users[u].username == username {
        if roster == ManagerRoster {
          managers := managers + {u};
        } else {
          crew := crew + {u};
        }
        res := Created;
      } else {
        res := NotFound;
      }
    }

    /** DELETE on a roster: user `pk` leaves it (whether or not they were
        on it). */
    method RemoveMember(who: Option<UserId>, roster: Roster, pk: UserId) returns (res: Response)
      requires Valid() && (who.Some? ==> who.value in users)
      modifies this`managers, this`crew
      ensures Valid()
      ensures !old(MayManage(who, roster)) ==> res == Forbidden && unchanged(this)
      ensures old(MayManage(who, roster)) && pk !in users ==> res == NotFound && unchanged(this)
      ensures old(MayManage(who, roster)) && pk in users ==>
        && res == NoContent
        && managers == (if roster == ManagerRoster then old(managers) - {pk} else old(managers))
        && crew == (if roster == CrewRoster then old(crew) - {pk} else old(crew))
    {
      if !MayManage(who, roster) {
        return Forbidden;
      }
      if pk !in users {
        return NotFound;
      }
      if roster == ManagerRoster {
        managers := managers - {pk};
      } else {
        crew := crew - {pk};
      }
      res := NoContent;
    }

    // ---- Item of the day ----

    /** GET featured: the featured item with the lowest key, if any. The
        gate is ReadOnly, which every GET passes, anonymous or not
        (Permissions.FeaturedAllowsAsWritten), so the response does not
        depend on the requester. */
    method GetFeatured() returns (res: Response, item: Option<MenuItem>)
      requires Valid()
      ensures res == NoContent <==> forall m :: m in menu ==> !m.featured
      ensures res == NoContent || res == Ok
      ensures res == NoContent ==> item == None
      ensures res == Ok ==> item.Some? && item.value in menu && item.value.featured
                            && forall m :: m in menu && m.featured ==> item.value.id <= m.id
    {
      var k := MenuRules.FirstFeatured(menu);
      if k.None? {
        return NoContent, None;
      }
      var first := menu[k.value];
      forall m | m in menu && m.featured ensures first.id <= m.id {
        var j :| 0 <= j < |menu| && menu[j] == m;
        if k.value < j {
          assert MenuOrder(menu[k.value], menu[j]);
        }
      }
      res, item := Ok, Some(first);
    }

    /** PATCH featured: clear every flag, then set the requested item's.
        The gate is the view's get_permissions, which sends PATCH through
        IsAdmin (Permissions.FeaturedAllowsAsWritten). */
    method SetFeatured(who: Option<UserId>, mid: nat) returns (res: Response)
      requires Valid() && (who.Some? ==> who.value in users)
      modifies this`menu
      ensures Valid()
      ensures !Permissions.FeaturedAllowsAsWritten(PrincipalOf(who), Permissions.Patch) ==>
        res == Forbidden && menu == old(menu)
      ensures Permissions.FeaturedAllowsAsWritten(PrincipalOf(who), Permissions.Patch) && mid !in MenuIds(old(menu)) ==>
        res == NotFound && menu == old(menu)
      ensures Permissions.FeaturedAllowsAsWritten(PrincipalOf(who), Permissions.Patch) && mid in MenuIds(old(menu)) ==>
        && res == Ok
        && menu == MenuRules.Feature(old(menu), FindItem(old(menu), mid).value)
        && SameKeys(old(menu), menu)
        && forall j :: 0 <= j < |menu| ==> (menu[j].featured <==> menu[j].id == mid)
    {
      if !Permissions.FeaturedAllowsAsWritten(PrincipalOf(who), Permissions.Patch) {
        return Forbidden;
      }
      var k := FindItem(menu, mid);
      if k.None? {
        return NotFound;
      }
      ghost var before := menu;
      var item := menu[k.value];
      menu := MenuRules.ClearFeatured(menu);
      menu := menu[k.value := item.(featured := true)];
      MenuRules.FeatureExactlyOne(before, k.value);
      MenuRules.FeatureById(before, mid);
      SameKeysKeepMenu(before, menu, categories);
      assert CartValid(cart, users, menu) by {
        forall r | r in cart ensures CartRowValid(r, users, menu) {
          assert CartRowValid(r, users, before);
        }
      }
      res := Ok;
    }

    // ---- Cart ----

    /** POST to the cart: 404 for an unknown item; otherwise the user's row
        for the item is created or merged into, and returned. */
    method AddToCart(u: UserId, mid: nat, q: nat) returns (res: Response, row: Option<CartItem>)
      requires Valid() && u in users
      modifies this`cart
      ensures Valid()
      ensures mid !in MenuIds(menu) ==> res == NotFound && row == None && cart == old(cart)
      ensures mid in MenuIds(menu) ==>
        && res == Created
        && cart == CartRules.AddToCart(old(cart), u, menu[FindItem(menu, mid).value], q)
        && row.Some? && CartRules.RowsFor(cart, u, mid) == [row.value]
    {
      var k := FindItem(menu, mid);
      if k.None? {
        return NotFound, None;
      }
      var item := menu[k.value];
      ghost var before := cart;
      CartRules.AddToCartSpec(cart, u, item, q);
      CartRules.AddToCartKeepsValid(cart, users, menu, u, item, q);
      var j := CartRules.FindRow(cart, u, mid);
      if j.None? {
        FilterNone(cart, CartRules.ForPair(u, mid));
        var created := CartRules.NewRow(u, item, q);
        cart := cart + [created];
        row := Some(created);
      } else {
        CartRules.RowsForUnique(cart, u, mid, j.value);
        var merged := CartRules.Merge(cart[j.value], q);
        assert CartRules.RowsFor(before, u, mid) == [before[j.value]];
        cart := cart[j.value := merged];
        row := Some(merged);
      }
      res := Created;
    }

    /** DELETE on the cart: the requester's rows go, nobody else's. */
    method ClearCart(u: UserId) returns (res: Response)
      requires Valid() && u in users
      modifies this`cart
      ensures Valid()
      ensures res == NoContent && cart == CartRules.ClearCart(old(cart), u)
      ensures CartRules.RowsOf(cart, u) == []
      ensures forall v :: v != u ==> CartRules.RowsOf(cart, v) == CartRules.RowsOf(old(cart), v)
    {
      ghost var before := cart;
      cart := CartRules.ClearCart(cart, u);
      CartRules.ClearCartKeepsValid(before, users, menu, u);
      CartRules.ClearCartSpec(before, u, u);
      forall v ensures v != u ==> CartRules.RowsOf(cart, v) == CartRules.RowsOf(before, v) {
        CartRules.ClearCartSpec(before, u, v);
      }
      res := NoContent;
    }

    // ---- Orders ----

    /** POST to orders: 400 on an empty cart; otherwise a new order with
        the cart's total, one order item per cart row, the stock of each
        ordered item lowered (not below zero), and the cart emptied. */
    method PlaceOrder(u: UserId) returns (res: Response, order: Option<Order>)
      requires Valid() && u in users
      modifies this`menu, this`cart, this`orders, this`orderItems, this`nextOrderId
      ensures Valid()
      ensures CartRules.RowsOf(old(cart), u) == [] ==> res == BadRequest && order == None && unchanged(this)
      ensures CartRules.RowsOf(old(cart), u) != [] ==>
        && res == Created
        && order == Some(OrderRules.NewOrder(old(nextOrderId), u, CartRules.RowsOf(old(cart), u)))
        && Db() == OrderRules.Place(old(Db()), old(nextOrderId), u)
        && nextOrderId == old(nextOrderId) + 1
    {
      var rows := CartRules.RowsOf(cart, u);
      if rows == [] {
        return BadRequest, None;
      }
      ghost var t := Db();
      OrderRules.PlaceKeepsValid(t, nextOrderId, u);
      var oid := nextOrderId;
      var o := DefaultOrder(oid, u).(total := OrderRules.Total(rows));
      orders := orders + [o];
      nextOrderId := nextOrderId + 1;
      var bulk := CopyAndReduce(oid, rows);
      orderItems := orderItems + bulk;
      cart := CartRules.ClearCart(cart, u);
      ghost var placed := OrderRules.Place(t, oid, u);
      assert orders == placed.orders && orderItems == placed.orderItems;
      assert Db() == placed;
      forall o' | o' in orders ensures o'.id < nextOrderId {
        if o' != o {
          assert o' in t.orders;
        }
      }
      res, order := Created, Some(o);
    }

    /** The loop of `create`: one order item per cart row into `bulk`, and
        each row's menu item saved with its stock lowered by the row's
        quantity, not below zero. */
    method CopyAndReduce(oid: nat, rows: seq<CartItem>) returns (bulk: seq<OrderItem>)
      modifies this`menu
      ensures bulk == OrderRules.Snapshot(oid, rows)
      ensures menu == OrderRules.DecrementAll(old(menu), rows)
    {
      bulk := [];
      var i := 0;
      while i < |rows|
        invariant 0 <= i <= |rows|
        invariant bulk == OrderRules.Snapshot(oid, rows[..i])
        invariant menu == OrderRules.DecrementAll(old(menu), rows[..i])
      {
        var ci := rows[i];
        bulk := bulk + [OrderRules.ToOrderItem(oid, ci)];
        var k := FindItem(menu, ci.menuitem);
        if k.Some? {
          var item := menu[k.value];
          menu := menu[k.value := item.(inventory := Floor0(item.inventory - ci.quantity))];
        }
        assert rows[..i + 1][..i] == rows[..i];
        i := i + 1;
      }
      assert rows[..i] == rows;
    }

    /** `get_object` on the order view: the order with key `oid` among
        those the requester may see. */
    function FindVisible(u: UserId, oid: nat): (r: Option<nat>)
      reads this
      requires Valid() && u in users
      ensures r.Some? ==> r.value < |orders| && orders[r.value].id == oid
                          && OrderRules.CanSee(ActorOf(u), orders[r.value])
      ensures r.None? <==> forall o :: o in orders && o.id == oid ==> !OrderRules.CanSee(ActorOf(u), o)
    {
      var k := OrderRules.FindOrder(orders, oid);
      if k.Some? && OrderRules.CanSee(ActorOf(u), orders[k.value]) then k
      else
        assert forall j :: 0 <= j < |orders| && orders[j].id == oid ==> k == Some(j) by {
          forall j | 0 <= j < |orders| && orders[j].id == oid ensures k == Some(j) {
            OrderRules.FindOrderUnique(orders, j);
          }
        }
        None
    }

    /** PATCH on an order: 404 unless the requester can see it, then the
        role rules of partial_update decide the response and the saved
        order. The Store has no PUT endpoint; the framework's PUT is
        OrderRules.PutAsWritten. */
    method PatchOrder(u: UserId, oid: nat, p: OrderRules.Patch) returns (res: Response)
      requires Valid() && u in users
      modifies this`orders
      ensures Valid()
      ensures old(FindVisible(u, oid)).None? ==> res == NotFound && orders == old(orders)
      ensures old(FindVisible(u, oid)).Some? ==>
        var k := old(FindVisible(u, oid)).value;
        var (r, o') := OrderRules.PatchOrder(ActorOf(u), old(orders)[k], p, users);
        res == r && orders == old(orders)[k := o']
    {
      var k := FindVisible(u, oid);
      if k.None? {
        return NotFound;
      }
      var (r, o') := OrderRules.PatchOrder(ActorOf(u), orders[k.value], p, users);
      OrderRules.PatchKeepsOrderValid(ActorOf(u), orders[k.value], p, users);
      assert orders[k.value] in orders;
      if r == Ok {
        OrderRules.ReplaceOrderKeepsValid(Db(), k.value, o');
        orders := orders[k.value := o'];
      } else {
        assert orders[k.value := o'] == orders;
      }
      res := r;
    }

    /** DELETE on an order: 404 unless the requester can see it; otherwise
        the order and its items go. */
    method DestroyOrder(u: UserId, oid: nat) returns (res: Response)
      requires Valid() && u in users
      modifies this`orders, this`orderItems
      ensures Valid()
      ensures old(FindVisible(u, oid)).None? ==> res == NotFound && unchanged(this)
      ensures old(FindVisible(u, oid)).Some? ==>
        res == NoContent && Db() == DeleteOrder(old(Db()), oid).value
    {
      var k := FindVisible(u, oid);
      if k.None? {
        return NotFound;
      }
      assert orders[k.value] in orders;
      var d := DeleteOrder(Db(), oid);
      DeleteOrderKeepsValid(Db(), oid);
      orders, orderItems := d.value.orders, d.value.orderItems;
      res := NoContent;
    }

    // ---- Catalogue deletes ----

    /** DELETE on a menu item: admins only; 404 for an unknown key; a 500
        when an order item protects it; otherwise it and its cart rows go. */
    method DestroyMenuItem(who: Option<UserId>, id: nat) returns (res: Response)
      requires Valid() && (who.Some? ==> who.value in users)
      modifies this`menu, this`cart
      ensures Valid()
      ensures !Permissions.CatalogAllows(PrincipalOf(who), Permissions.Delete) ==> res == Forbidden && unchanged(this)
      ensures Permissions.CatalogAllows(PrincipalOf(who), Permissions.Delete) ==>
        match DeleteMenuItem(old(Db()), id)
        case Refused(Missing) => res == NotFound && unchanged(this)
        case Refused(Protected) => res == ServerError && unchanged(this)
        case Deleted(t) => res == NoContent && Db() == t
    {
      if !Permissions.CatalogAllows(PrincipalOf(who), Permissions.Delete) {
        return Forbidden;
      }
      match DeleteMenuItem(Db(), id)
      case Refused(Missing) =>
        res := NotFound;
      case Refused(Protected) =>
        res := ServerError;
      case Deleted(t) =>
        DeleteMenuItemKeepsValid(Db(), id);
        menu, cart := t.menu, t.cart;
        res := NoContent;
    }

    /** DELETE on a category: admins only; 404 for an unknown key; a 500
        when an order item protects one of its items; otherwise it, its
        items and their cart rows go. */
    method DestroyCategory(who: Option<UserId>, cid: nat) returns (res: Response)
      requires Valid() && (who.Some? ==> who.value in users)
      modifies this`categories, this`menu, this`cart
      ensures Valid()
      ensures !Permissions.CatalogAllows(PrincipalOf(who), Permissions.Delete) ==> res == Forbidden && unchanged(this)
      ensures Permissions.CatalogAllows(PrincipalOf(who), Permissions.Delete) ==>
        match DeleteCategory(old(Db()), cid)
        case Refused(Missing) => res == NotFound && unchanged(this)
        case Refused(Protected) => res == ServerError && unchanged(this)
        case Deleted(t) => res == NoContent && Db() == t
    {
      if !Permissions.CatalogAllows(PrincipalOf(who), Permissions.Delete) {
        return Forbidden;
      }
      match DeleteCategory(Db(), cid)
      case Refused(Missing) =>
        res := NotFound;
      case Refused(Protected) =>
        res := ServerError;
      case Deleted(t) =>
        DeleteCategoryKeepsValid(Db(), cid);
        categories, menu, cart := t.categories, t.menu, t.cart;
        res := NoContent;
    }
  }
}
