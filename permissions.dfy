/**
 * The role and ownership checks applied before the services run. A
 * request's user is the account authentication resolved, or the
 * anonymous user when it resolved none.
 */
module Permissions {

  import opened Common
  import opened AccountModels
  import Authentication

  datatype RequestUser = AnonymousUser | Member(pk: nat, role: Role)

  /** The request user once authentication has settled (a failure never gets this far). */
  function UserOf(outcome: Authentication.AuthResult): (u: RequestUser)
    requires !outcome.Failed?
    ensures u.Member? <==> outcome.Authenticated?
    ensures u.Member? ==> u.pk == outcome.user.pk && u.role == outcome.user.role
  {
    match outcome
    case Anonymous => AnonymousUser
    case Authenticated(user, _) => Member(user.pk, user.role)
  }

  /** The inherited `IsAuthenticated` check: every real user is authenticated. */
  predicate IsAuthenticated(u: RequestUser) {
    u.Member?
  }

  predicate BuyerAllowedOnly(u: RequestUser) {
    IsAuthenticated(u) && u.role == Buyer
  }

  predicate SellerAllowedOnly(u: RequestUser) {
    IsAuthenticated(u) && u.role == Seller
  }

  /** `IsSellerProductOwner` inherits its request-level check from `SellerAllowedOnly`. */
  predicate SellerProductOwnerRequest(u: RequestUser) {
    SellerAllowedOnly(u)
  }

  /** The object-level check: the request user is the product's seller (same key). */
  predicate SellerProductOwnerObject(u: RequestUser, sellerPk: nat) {
    u.Member? && u.pk == sellerPk
  }

  /** No request passes both role checks. */
  lemma RolesExclusive(u: RequestUser)
    ensures !(BuyerAllowedOnly(u) && SellerAllowedOnly(u))
    ensures IsAuthenticated(u) ==> BuyerAllowedOnly(u) != SellerAllowedOnly(u)
  {
  }

  /** Anonymous requests pass no check. */
  lemma AnonymousDenied(sellerPk: nat)
    ensures !BuyerAllowedOnly(AnonymousUser) && !SellerAllowedOnly(AnonymousUser)
    ensures !SellerProductOwnerObject(AnonymousUser, sellerPk)
  {
  }

  /**
   * Both checks of `IsSellerProductOwner` pass exactly for a seller whose
   * key is the product's seller key: buyers and other sellers are refused.
   */
  lemma OwnerAccessIffOwningSeller(u: RequestUser, sellerPk: nat)
    ensures SellerProductOwnerRequest(u) && SellerProductOwnerObject(u, sellerPk)
      <==> u == Member(sellerPk, Seller)
  {
  }

  /**
   * A request that passes the buyer-only check after authentication
   * carries a token naming an active buyer account of the directory.
   */
  lemma BuyerRequestComesFromActiveBuyer(header: Option<seq<Authentication.byte>>,
                                         allowed: set<seq<Authentication.byte>>,
                                         decode: seq<Authentication.byte> -> Authentication.DecodeResult,
                                         users: map<string, Account>)
    requires DirectoryConsistent(users)
    requires !Authentication.Authenticate(header, allowed, decode, users).Failed?
    requires BuyerAllowedOnly(UserOf(Authentication.Authenticate(header, allowed, decode, users)))
    ensures var r := Authentication.Authenticate(header, allowed, decode, users);
      r.Authenticated? && r.user.role == Buyer && r.user.isActive
      && r.user in users.Values && "username" in r.token && r.user.username == r.token["username"]
  {
  }
}
