/** The cart view of LittleLemonAPI/views.py (CartViewSet) as functions on
    the cart table: adding an item merges into the user's existing row,
    and clearing removes the user's rows only. */
module CartRules {
  import opened Rows
  import opened Models

  function OwnedBy(u: UserId): CartItem -> bool {
    (r: CartItem) => r.user == u
  }

  function NotOwnedBy(u: UserId): CartItem -> bool {
    (r: CartItem) => r.user != u
  }

  function ForPair(u: UserId, mid: nat): CartItem -> bool {
    (r: CartItem) => r.user == u && r.menuitem == mid
  }

  /** `CartItem.objects.filter(user=u)`: the GET listing, and the rows an
      order is placed from. */
  function RowsOf(rows: seq<CartItem>, u: UserId): seq<CartItem> {
    Filter(rows, OwnedBy(u))
  }

  /** The rows held for one (user, menu item) pair. */
  function RowsFor(rows: seq<CartItem>, u: UserId, mid: nat): seq<CartItem> {
    Filter(rows, ForPair(u, mid))
  }

  /** The lookup half of `get_or_create(user=u, menuitem=...)`. */
  function FindRow(rows: seq<CartItem>, u: UserId, mid: nat): (r: Option<nat>)
    ensures r.Some? ==> r.value < |rows| && rows[r.value].user == u && rows[r.value].menuitem == mid
    ensures r.None? <==> forall x :: x in rows ==> !(x.user == u && x.menuitem == mid)
    decreases |rows|
  {
    if rows == [] then None
    else if rows[0].user == u && rows[0].menuitem == mid then Some(0)
    else match FindRow(rows[1..], u, mid)
      case None => None
      case Some(k) => Some(k + 1)
  }

  /** A row created by the first add: the unit price is the menu item's
      price at that moment. */
  function NewRow(u: UserId, item: MenuItem, q: nat): CartItem {
    CartItem(u, item.id, q, item.price, q * item.price)
  }

  /** A repeated add: the quantity grows and the price is recomputed from
      the unit price stored in the row. */
  function Merge(row: CartItem, q: nat): CartItem {
    var quantity := row.quantity + q;
    row.(quantity := quantity, price := quantity * row.unitPrice)
  }

  /** POST /cart/menu-items once the menu item has been found. */
  function AddToCart(rows: seq<CartItem>, u: UserId, item: MenuItem, q: nat): seq<CartItem> {
    match FindRow(rows, u, item.id)
    case None => rows + [NewRow(u, item, q)]
    case Some(k) => rows[k := Merge(rows[k], q)]
  }

  /** DELETE /cart/menu-items: `CartItem.objects.filter(user=u).delete()`. */
  function ClearCart(rows: seq<CartItem>, u: UserId): seq<CartItem> {
    Filter(rows, NotOwnedBy(u))
  }

  /** With (user, menuitem) unique, a pair has at most one row. */
  lemma RowsForUnique(rows: seq<CartItem>, u: UserId, mid: nat, k: nat)
    requires Pairwise(rows, CartOrder)
    requires k < |rows| && rows[k].user == u && rows[k].menuitem == mid
    ensures RowsFor(rows, u, mid) == [rows[k]]
  {
    var p := ForPair(u, mid);
    FilterUpdate(rows, k, rows[k], p);
    assert rows[k := rows[k]] == rows;
    forall x | x in rows[..k] ensures !p(x) {
      var i :| 0 <= i < k && rows[..k][i] == x;
      assert CartOrder(rows[i], rows[k]);
    }
    FilterNone(rows[..k], p);
    forall x | x in rows[k + 1..] ensures !p(x) {
      var i :| 0 <= i < |rows| - k - 1 && rows[k + 1..][i] == x;
      assert CartOrder(rows[k], rows[k + 1 + i]);
    }
    FilterNone(rows[k + 1..], p);
  }

  /** Adding keeps one row per (user, menu item): a new pair gets a fresh
      row priced from the menu item, a known pair has its quantity raised
      and its price recomputed from the stored unit price, and every other
      pair's rows stay as they were. */
  lemma {:induction false} AddToCartSpec(rows: seq<CartItem>, u: UserId, item: MenuItem, q: nat)
    requires Pairwise(rows, CartOrder)
    ensures var r := AddToCart(rows, u, item, q);
      && Pairwise(r, CartOrder)
      && (RowsFor(rows, u, item.id) == [] ==> RowsFor(r, u, item.id) == [NewRow(u, item, q)])
      && (forall old_ :: RowsFor(rows, u, item.id) == [old_] ==> RowsFor(r, u, item.id) == [Merge(old_, q)])
      && (forall v, mid :: v != u || mid != item.id ==> RowsFor(r, v, mid) == RowsFor(rows, v, mid))
  {
    var r := AddToCart(rows, u, item, q);
    match FindRow(rows, u, item.id)
    case None =>
      var x := NewRow(u, item, q);
      AppendPairwise(rows, x, CartOrder);
      FilterNone(rows, ForPair(u, item.id));
      forall v, mid ensures RowsFor(r, v, mid) == RowsFor(rows, v, mid) + RowsFor([x], v, mid) {
        FilterConcat(rows, [x], ForPair(v, mid));
      }
    case Some(k) =>
      var y := Merge(rows[k], q);
      RowsForUnique(rows, u, item.id, k);
      forall i, j | 0 <= i < j < |r| ensures CartOrder(r[i], r[j]) {
        assert CartOrder(rows[i], rows[j]);
      }
      RowsForUnique(r, u, item.id, k);
      forall v, mid | v != u || mid != item.id ensures RowsFor(r, v, mid) == RowsFor(rows, v, mid) {
        FilterUpdate(rows, k, y, ForPair(v, mid));
      }
  }

  /** The scenario of adding the same item twice to a cart without it: one
      row whose quantity is the sum and whose price uses the unit price of
      the first add, even if the menu price changed in between. */
  lemma AddTwice(rows: seq<CartItem>, u: UserId, first: MenuItem, second: MenuItem, q1: nat, q2: nat)
    requires Pairwise(rows, CartOrder)
    requires first.id == second.id && RowsFor(rows, u, first.id) == []
    ensures RowsFor(AddToCart(AddToCart(rows, u, first, q1), u, second, q2), u, first.id)
         == [CartItem(u, first.id, q1 + q2, first.price, (q1 + q2) * first.price)]
  {
    AddToCartSpec(rows, u, first, q1);
    AddToCartSpec(AddToCart(rows, u, first, q1), u, second, q2);
  }

  /** Clearing empties the requester's cart and leaves every other user's
      rows, in order, as they were. */
  lemma {:induction false} ClearCartSpec(rows: seq<CartItem>, u: UserId, v: UserId)
    ensures RowsOf(ClearCart(rows, u), u) == []
    ensures v != u ==> RowsOf(ClearCart(rows, u), v) == RowsOf(rows, v)
    decreases |rows|
  {
    if rows != [] {
      ClearCartSpec(rows[1..], u, v);
    }
  }

  lemma AddToCartKeepsValid(rows: seq<CartItem>, users: map<UserId, User>, ms: seq<MenuItem>,
                            u: UserId, item: MenuItem, q: nat)
    requires CartValid(rows, users, ms) && u in users && item in ms
    ensures CartValid(AddToCart(rows, u, item, q), users, ms)
  {
    AddToCartSpec(rows, u, item, q);
    var r := AddToCart(rows, u, item, q);
    forall x | x in r ensures CartRowValid(x, users, ms) {
      if x !in rows {
        match FindRow(rows, u, item.id)
        case None =>
        case Some(k) =>
          assert CartRowValid(rows[k], users, ms);
      }
    }
  }

  lemma ClearCartKeepsValid(rows: seq<CartItem>, users: map<UserId, User>, ms: seq<MenuItem>, u: UserId)
    requires CartValid(rows, users, ms)
    ensures CartValid(ClearCart(rows, u), users, ms)
  {
    FilterPairwise(rows, NotOwnedBy(u), CartOrder);
  }
}
