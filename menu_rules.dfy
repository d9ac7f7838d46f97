/** The menu-item views of LittleLemonAPI/views.py as functions on the
    menu table: the listing filter of MenuItemViewSet.get_queryset and the
    item of the day of MenuItemViewSet.featured. */
module MenuRules {
  import opened Rows
  import opened Models

  // ---- Item of the day ----

  /** `MenuItem.objects.filter(featured=True).first()`: the featured item
      with the lowest primary key, as an index into the menu table. */
  function FirstFeatured(ms: seq<MenuItem>): (r: Option<nat>)
    ensures r.Some? ==> r.value < |ms| && ms[r.value].featured
    ensures r.Some? ==> forall k :: 0 <= k < r.value ==> !ms[k].featured
    ensures r.None? <==> forall k :: 0 <= k < |ms| ==> !ms[k].featured
    decreases |ms|
  {
    if ms == [] then None
    else if ms[0].featured then Some(0)
    else match FirstFeatured(ms[1..])
      case None => None
      case Some(k) => Some(k + 1)
  }

  /** `filter(featured=True).update(featured=False)`. */
  function ClearFeatured(ms: seq<MenuItem>): seq<MenuItem> {
    seq(|ms|, j requires 0 <= j < |ms| => ms[j].(featured := false))
  }

  /** PATCH featured: every flag is cleared, then the item at index `k`
      (looked up before the clear) is saved with its flag set. */
  function Feature(ms: seq<MenuItem>, k: nat): seq<MenuItem>
    requires k < |ms|
  {
    var cleared := ClearFeatured(ms);
    cleared[k := ms[k].(featured := true)]
  }

  /** Afterwards exactly one item is featured, the requested one, nothing
      but the flags changed, and a GET returns that item. */
  lemma FeatureExactlyOne(ms: seq<MenuItem>, k: nat)
    requires k < |ms|
    ensures SameKeys(ms, Feature(ms, k))
    ensures forall j :: 0 <= j < |ms| ==> (Feature(ms, k)[j].featured <==> j == k)
    ensures forall j :: 0 <= j < |ms| ==> Feature(ms, k)[j].inventory == ms[j].inventory
    ensures FirstFeatured(Feature(ms, k)) == Some(k)
  {
  }

  /** Featuring the item with primary key `mid`: afterwards an item is
      featured iff its key is `mid`. */
  lemma FeatureById(ms: seq<MenuItem>, mid: nat)
    requires Pairwise(ms, MenuOrder) && mid in MenuIds(ms)
    ensures var f := Feature(ms, FindItem(ms, mid).value);
      forall j :: 0 <= j < |f| ==> (f[j].featured <==> f[j].id == mid)
  {
    var k := FindItem(ms, mid).value;
    FeatureExactlyOne(ms, k);
    forall j | 0 <= j < |ms| ensures ms[j].id == mid <==> j == k {
      FindItemUnique(ms, j);
    }
  }

  // ---- Listing: ?category=<id or slug>&search=<title>&ordering=price ----

  /** The query string; an absent parameter and an empty one are both
      falsy in the source and are both "". */
  datatype Query = Query(category: string, search: string, ordering: string)

  predicate IsDigit(c: char) {
    '0' <= c <= '9'
  }

  function DecimalValue(s: string): nat
    requires forall i :: 0 <= i < |s| ==> IsDigit(s[i])
    decreases |s|
  {
    if s == [] then 0
    else
      var last := s[|s| - 1];
      assert IsDigit(last);
      10 * DecimalValue(s[..|s| - 1]) + (last as int - '0' as int)
  }

  /** The integer a primary-key lookup makes of the parameter, when it is
      a run of decimal digits. */
  function ParseId(s: string): (r: Option<nat>)
    ensures r.Some? <==> s != [] && forall i :: 0 <= i < |s| ==> IsDigit(s[i])
  {
    if s != [] && forall i :: 0 <= i < |s| ==> IsDigit(s[i]) then Some(DecimalValue(s)) else None
  }

  function LowerChar(c: char): char {
    if 'A' <= c <= 'Z' then (c as int - 'A' as int + 'a' as int) as char else c
  }

  function Lower(s: string): (r: string)
    ensures |r| == |s|
  {
    seq(|s|, i requires 0 <= i < |s| => LowerChar(s[i]))
  }

  predicate OccursAt(needle: string, hay: string, i: int) {
    0 <= i && i + |needle| <= |hay| && hay[i..i + |needle|] == needle
  }

  predicate IsSubstring(needle: string, hay: string) {
    exists i :: 0 <= i <= |hay| && OccursAt(needle, hay, i)
  }

  /** `title__icontains`. */
  predicate ContainsIgnoreCase(title: string, search: string) {
    IsSubstring(Lower(search), Lower(title))
  }

  /** `filter(category__id=key) | filter(category__slug=key)`. */
  predicate CategoryMatches(m: MenuItem, cs: seq<Category>, key: string) {
    || (ParseId(key).Some? && m.category == ParseId(key).value)
    || exists c :: c in cs && c.id == m.category && c.slug == key
  }

  function ByCategory(cs: seq<Category>, key: string): MenuItem -> bool {
    (m: MenuItem) => CategoryMatches(m, cs, key)
  }

  function BySearch(search: string): MenuItem -> bool {
    (m: MenuItem) => ContainsIgnoreCase(m.title, search)
  }

  /** Non-strict order of two items by price, ascending or descending. */
  predicate PriceOrder(a: MenuItem, b: MenuItem, desc: bool) {
    if desc then a.price >= b.price else a.price <= b.price
  }

  ghost predicate SortedByPrice(s: seq<MenuItem>, desc: bool) {
    forall i, j :: 0 <= i < j < |s| ==> PriceOrder(s[i], s[j], desc)
  }

  function Insert(x: MenuItem, s: seq<MenuItem>, desc: bool): (r: seq<MenuItem>)
    ensures multiset(r) == multiset(s) + multiset{x}
    decreases |s|
  {
    if s == [] then [x]
    else if PriceOrder(x, s[0], desc) then [x] + s
    else
      assert s == [s[0]] + s[1..];
      [s[0]] + Insert(x, s[1..], desc)
  }

  /** A bound below every row and below `x` is a bound below every row
      after inserting `x`. */
  lemma {:induction false} InsertLowerBound(z: MenuItem, x: MenuItem, s: seq<MenuItem>, desc: bool)
    requires PriceOrder(z, x, desc)
    requires forall i :: 0 <= i < |s| ==> PriceOrder(z, s[i], desc)
    ensures forall i :: 0 <= i < |Insert(x, s, desc)| ==> PriceOrder(z, Insert(x, s, desc)[i], desc)
    decreases |s|
  {
    if s != [] && !PriceOrder(x, s[0], desc) {
      InsertLowerBound(z, x, s[1..], desc);
    }
  }

  lemma {:induction false} InsertSorted(x: MenuItem, s: seq<MenuItem>, desc: bool)
    requires SortedByPrice(s, desc)
    ensures SortedByPrice(Insert(x, s, desc), desc)
    decreases |s|
  {
    if s != [] && !PriceOrder(x, s[0], desc) {
      var tail := s[1..];
      assert SortedByPrice(tail, desc) by {
        forall i, j | 0 <= i < j < |tail| ensures PriceOrder(tail[i], tail[j], desc) {
          assert tail[i] == s[i + 1] && tail[j] == s[j + 1];
        }
      }
      InsertSorted(x, tail, desc);
      assert forall i :: 0 <= i < |tail| ==> PriceOrder(s[0], tail[i], desc) by {
        forall i | 0 <= i < |tail| ensures PriceOrder(s[0], tail[i], desc) {
          assert tail[i] == s[i + 1];
        }
      }
      InsertLowerBound(s[0], x, tail, desc);
    }
  }

  /** `order_by("price")` or `order_by("-price")`, as an insertion sort;
      the database leaves the order of equal prices open, and this is one
      of the orders it may produce. */
  function SortByPrice(s: seq<MenuItem>, desc: bool): (r: seq<MenuItem>)
    ensures multiset(r) == multiset(s)
    ensures SortedByPrice(r, desc)
    decreases |s|
  {
    if s == [] then []
    else
      var rest := SortByPrice(s[1..], desc);
      InsertSorted(s[0], rest, desc);
      assert s == [s[0]] + s[1..];
      Insert(s[0], rest, desc)
  }

  /** The category filter (when given), then the search filter (when
      given), then the price ordering (when it is one of the two allowed
      values); otherwise rows stay in primary-key order. */
  function ListMenu(ms: seq<MenuItem>, cs: seq<Category>, q: Query): seq<MenuItem> {
    var byCategory := if q.category != "" then Filter(ms, ByCategory(cs, q.category)) else ms;
    var bySearch := if q.search != "" then Filter(byCategory, BySearch(q.search)) else byCategory;
    if q.ordering == "price" then SortByPrice(bySearch, false)
    else if q.ordering == "-price" then SortByPrice(bySearch, true)
    else bySearch
  }

  /** An item is listed iff it is on the menu, matches the category by id
      or by slug, and its title contains the search text ignoring case,
      and then it is listed exactly once; the rows come sorted by price
      when asked, in id order otherwise. */
  lemma ListMenuSpec(ms: seq<MenuItem>, cs: seq<Category>, q: Query)
    requires Pairwise(ms, MenuOrder)
    ensures forall m :: m in ListMenu(ms, cs, q) <==>
      && m in ms
      && (q.category == "" || CategoryMatches(m, cs, q.category))
      && (q.search == "" || ContainsIgnoreCase(m.title, q.search))
    ensures forall m ::
              multiset(ListMenu(ms, cs, q))[m] ==
                if m in ms
                   && (q.category == "" || CategoryMatches(m, cs, q.category))
                   && (q.search == "" || ContainsIgnoreCase(m.title, q.search))
                then 1 else 0
    ensures q.ordering == "price" ==> SortedByPrice(ListMenu(ms, cs, q), false)
    ensures q.ordering == "-price" ==> SortedByPrice(ListMenu(ms, cs, q), true)
    ensures q.ordering != "price" && q.ordering != "-price" ==> Pairwise(ListMenu(ms, cs, q), MenuOrder)
  {
    var byCategory := if q.category != "" then Filter(ms, ByCategory(cs, q.category)) else ms;
    var bySearch := if q.search != "" then Filter(byCategory, BySearch(q.search)) else byCategory;
    if q.category != "" { FilterPairwise(ms, ByCategory(cs, q.category), MenuOrder); }
    if q.search != "" { FilterPairwise(byCategory, BySearch(q.search), MenuOrder); }
    var r := ListMenu(ms, cs, q);
    assert multiset(r) == multiset(bySearch);
    forall m ensures m in r <==> m in bySearch {
      assert m in r <==> m in multiset(r);
      assert m in bySearch <==> m in multiset(bySearch);
    }
    PairwiseOnce(bySearch, MenuOrder);
  }

  // ---- The category filter as written ----

  datatype Listing = Listed(items: seq<MenuItem>) | Crashed

  /** As written, `filter(category__id=key)` converts the key to an integer
      before either filter runs, so a key that is not a number raises
      ValueError and the request fails with a server error: the slug
      branch of the union is reached only for slugs that are numbers. */
  function ListMenuAsWritten(ms: seq<MenuItem>, cs: seq<Category>, q: Query): (r: Listing)
    ensures q.category == "" || ParseId(q.category).Some? ==> r == Listed(ListMenu(ms, cs, q))
    ensures r.Crashed? <==> q.category != "" && ParseId(q.category).None?
  {
    if q.category != "" && ParseId(q.category).None? then Crashed
    else Listed(ListMenu(ms, cs, q))
  }

  /** `?category=mains` for a category whose slug is "mains": the intended
      listing holds its item, the listing as written crashes. */
  lemma SlugFilterCrashes()
    ensures var cs := [Category(1, "Mains", "mains")];
      var ms := [MenuItem(1, "Lasagne", 1250, 3, 1, false)];
      var q := Query("mains", "", "");
      && ListMenu(ms, cs, q) == ms
      && ListMenuAsWritten(ms, cs, q) == Crashed
  {
    var cs := [Category(1, "Mains", "mains")];
    var ms := [MenuItem(1, "Lasagne", 1250, 3, 1, false)];
    assert !IsDigit('m');
    assert CategoryMatches(ms[0], cs, "mains") by {
      assert cs[0] in cs;
    }
    assert Filter(ms, ByCategory(cs, "mains")) == ms by {
      assert ms == [ms[0]] + ms[1..];
    }
  }
}
