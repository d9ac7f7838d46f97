/** Role predicates (LittleLemonAPI/permissions.py). Each is a pure boolean
    function of the requesting identity and the request method. */
module Permissions {

  const MANAGER := "Manager"
  const DELIVERY_CREW := "Delivery crew"

  /** The request's user as the permission classes see it: Django's
      anonymous user is unauthenticated, not staff and in no group. */
  datatype Principal = Principal(isAuthenticated: bool, isStaff: bool, groups: set<string>)

  const ANONYMOUS := Principal(false, false, {})

  datatype HttpMethod = Get | Head | Options | Post | Put | Patch | Delete

  /** Django REST framework's SAFE_METHODS. */
  predicate IsSafe(m: HttpMethod) {
    m == Get || m == Head || m == Options
  }

  /** Membership counts only for an authenticated user. */
  predicate InGroup(p: Principal, name: string) {
    p.isAuthenticated && name in p.groups
  }

  predicate IsAdmin(p: Principal) {
    p.isStaff
  }

  predicate IsManager(p: Principal) {
    InGroup(p, MANAGER) || p.isStaff
  }

  predicate IsDeliveryCrew(p: Principal) {
    InGroup(p, DELIVERY_CREW) || p.isStaff
  }

  /** Depends on the method only; the principal is part of the request. */
  predicate ReadOnly(p: Principal, m: HttpMethod) {
    IsSafe(m)
  }

  /** Category and menu-item endpoints: the write verbs need IsAdmin,
      every other verb needs ReadOnly (views.py get_permissions). */
  function CatalogAllows(p: Principal, m: HttpMethod): (r: bool)
    ensures r <==> IsSafe(m) || IsAdmin(p)
    ensures !IsSafe(m) ==> (r <==> p.isStaff)
  {
    if m in {Post, Put, Patch, Delete} then IsAdmin(p) else ReadOnly(p, m)
  }

  /** Every principal, anonymous included, may read the catalogue. */
  lemma CatalogReadsOpen(p: Principal, m: HttpMethod)
    requires IsSafe(m)
    ensures CatalogAllows(p, m)
  {
  }

  // ---- The gate of the item-of-the-day action ----

  /** As written, the action's own `permission_classes=[IsManager]` is never
      consulted, because MenuItemViewSet.get_permissions decides by method
      alone: GET goes through ReadOnly, PATCH through IsAdmin. */
  function FeaturedAllowsAsWritten(p: Principal, m: HttpMethod): (r: bool)
    ensures m == Get ==> r
    ensures m == Patch ==> (r <==> p.isStaff)
  {
    CatalogAllows(p, m)
  }

  /** The gate the action declares: managers and admins, for both verbs. */
  function FeaturedAllows(p: Principal, m: HttpMethod): (r: bool)
    ensures r <==> p.isStaff || (p.isAuthenticated && MANAGER in p.groups)
  {
    IsManager(p)
  }

  /** A signed-in manager who is not staff: as written their PATCH is
      refused although the action is declared for managers; and the
      anonymous user may read the item of the day although the action is
      declared for managers only. */
  lemma FeaturedGateDiffers()
    ensures var manager := Principal(true, false, {MANAGER});
      && !FeaturedAllowsAsWritten(manager, Patch) && FeaturedAllows(manager, Patch)
      && FeaturedAllowsAsWritten(ANONYMOUS, Get) && !FeaturedAllows(ANONYMOUS, Get)
  {
  }

  lemma IsAdminIffStaff(p: Principal)
    ensures IsAdmin(p) <==> p.isStaff
  {
  }

  lemma IsManagerIff(p: Principal)
    ensures IsManager(p) <==> p.isStaff || (p.isAuthenticated && MANAGER in p.groups)
  {
  }

  lemma IsDeliveryCrewIff(p: Principal)
    ensures IsDeliveryCrew(p) <==> p.isStaff || (p.isAuthenticated && DELIVERY_CREW in p.groups)
  {
  }

  /** Group data of an unauthenticated principal is never consulted. */
  lemma InGroupNeedsAuthentication(p: Principal, name: string)
    requires !p.isAuthenticated
    ensures !InGroup(p, name)
  {
  }

  lemma ReadOnlyIffSafe(p: Principal, q: Principal, m: HttpMethod)
    ensures ReadOnly(p, m) <==> m in {Get, Head, Options}
    ensures ReadOnly(p, m) == ReadOnly(q, m)
  {
  }

  lemma AdminIsManagerAndCrew(p: Principal)
    requires IsAdmin(p)
    ensures IsManager(p) && IsDeliveryCrew(p)
  {
  }

  /** Anonymous requests pass none of the three role predicates, whatever
      group data they carry. */
  lemma AnonymousHasNoRole(groups: set<string>)
    ensures var p := ANONYMOUS.(groups := groups);
      !IsAdmin(p) && !IsManager(p) && !IsDeliveryCrew(p)
  {
  }
}
