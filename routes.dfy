/**
 * The two query routes that sit behind `verifyJWT` (index.js:179 and
 * index.js:192), and properties that span several handlers: a registered
 * user can log in, the login token opens the gate and `/api/getUserData`,
 * an added bill is found by searching its email, and deleting it removes
 * it from the search.
 *
 * The mutating bill routes (`/api/add-billing`, `/api/update-billing/:id`,
 * `/api/delete-billing/:id`) are not behind the gate in the source.
 */
module Routes {
  import opened Wrappers
  import opened Text
  import opened Auth
  import opened Accounts
  import opened Bills
  import opened Query

  /** A gated route either answers with the gate's refusal or serves the handler's reply. */
  datatype Routed<T> = Denied(status: nat, message: string) | Served(value: T)

  /** `app.get("/api/billing-list", verifyJWT, ...)`. */
  function GetBillingList(req: Request, verify: string -> Option<Claims>,
                          bills: seq<Bill>, page: nat, size: nat): (r: Routed<ListReply>)
    ensures r.Served? ==> !HeaderMissing(req.authorization) && r.value == BillingList(bills, page, size)
    ensures HeaderMissing(req.authorization) ==> r == Denied(UnauthorizedStatus, UnauthorizedMessage)
    ensures r.Denied? <==> Gate(req, verify).Reply?
    ensures r.Denied? ==> Gate(req, verify) == Reply(r.status, r.message)
  {
    match Gate(req, verify)
    case Reply(status, message) => Denied(status, message)
    case Next(_) => Served(BillingList(bills, page, size))
  }

  /** `app.get("/api/billing-list/:search", verifyJWT, ...)`. */
  function GetBillingSearch(req: Request, verify: string -> Option<Claims>,
                            bills: seq<Bill>, term: string, page: nat, size: nat): (r: Routed<SearchReply>)
    ensures r.Served? ==> !HeaderMissing(req.authorization) && r.value == BillingSearch(bills, term, page, size)
    ensures HeaderMissing(req.authorization) ==> r == Denied(UnauthorizedStatus, UnauthorizedMessage)
    ensures r.Denied? <==> Gate(req, verify).Reply?
    ensures r.Denied? ==> Gate(req, verify) == Reply(r.status, r.message)
  {
    match Gate(req, verify)
    case Reply(status, message) => Denied(status, message)
    case Next(_) => Served(BillingSearch(bills, term, page, size))
  }

  /**
   * Registering a new email and logging in with the same password yields a
   * token signed for that email; any password the compare oracle rejects
   * against the stored digest yields the invalid-password reply.
   */
  lemma RegisterThenLogin(users: seq<User>, firstName: string, lastName: string, email: string,
                          password: string, wrong: string, hash: string -> string,
                          compare: (string, string) -> bool, sign: Claims -> string)
    requires forall u :: u in users ==> u.email != email
    requires compare(password, hash(password))
    requires !compare(wrong, hash(password))
    ensures var after := RegisterUser(users, firstName, lastName, email, password, hash).users;
            && LoginUser(after, email, password, compare, sign) == LoginOk(sign(Claims(email)))
            && LoginUser(after, email, wrong, compare, sign) == InvalidPassword
  {
    var u := User(firstName, lastName, email, hash(password));
    FindByEmailAppend(users, u, email);
  }

  /**
   * A login token the verify oracle accepts for its own claims opens the
   * gate as `Bearer <token>` with exactly `{email}` attached, and
   * `/api/getUserData` with it returns the logged-in user.
   */
  lemma LoginTokenOpensGate(users: seq<User>, email: string, password: string,
                            compare: (string, string) -> bool, sign: Claims -> string,
                            verify: string -> Option<Claims>)
    requires LoginUser(users, email, password, compare, sign).LoginOk?
    requires var t := LoginUser(users, email, password, compare, sign).token;
             ' ' !in t && t != "" && verify(t) == Some(Claims(email))
    ensures var t := LoginUser(users, email, password, compare, sign).token;
            var req := Request(Some("Bearer " + t), None);
            && Gate(req, verify) == Next(Request(Some("Bearer " + t), Some(Claims(email))))
            && GetUserData(users, Some(t), verify) == UserData(FindByEmail(users, email))
            && FindByEmail(users, email).Some?
  {
    var t := LoginUser(users, email, password, compare, sign).token;
    GateAdmitsVerifiedBearer(Request(Some("Bearer " + t), None), t, verify, Claims(email));
  }

  /** The lower-cased email occurs in itself, so a search for a bill's email matches it. */
  lemma EmailMatchesItself(b: Bill)
    ensures BillMatches(b, b.email)
  {
    ContainsSelf(Lower(b.email));
  }

  /**
   * After add-billing, searching for the new bill's email on page 0 returns
   * it and counts it, whenever every match fits on that page (or there is
   * no limit, `size == 0`).
   */
  lemma AddedBillIsFound(bills: seq<Bill>, key: nat, generatingId: string, body: BillFields, size: nat)
    requires var b := NewBill(key, generatingId, body);
             size == 0 || |SearchResults(bills + [b], body.email)| <= size
    ensures var b := NewBill(key, generatingId, body);
            var r := BillingSearch(bills + [b], body.email, 0, size);
            b in r.bills && r.count >= 1
  {
    var b := NewBill(key, generatingId, body);
    EmailMatchesItself(b);
    SearchResultsComplete(bills + [b], body.email);
    FirstPageHoldsAll(bills + [b], body.email, size);
  }

  /** Removing one matching document shortens the filtered sequence by one. */
  lemma FilterWithout(bills: seq<Bill>, k: nat, term: string)
    requires k < |bills| && BillMatches(bills[k], term)
    ensures |FilterMatching(bills[..k] + bills[k + 1..], term)| + 1 == |FilterMatching(bills, term)|
  {
    assert bills == bills[..k] + [bills[k]] + bills[k + 1..];
    FilterAppend(bills[..k] + [bills[k]], bills[k + 1..], term);
    FilterAppend(bills[..k], [bills[k]], term);
    FilterAppend(bills[..k], bills[k + 1..], term);
    assert FilterMatching([bills[k]], term) == [bills[k]];
  }

  /**
   * Deleting a matching bill by its `_id` lowers the count of the page-0
   * search by exactly one, and the bill is no longer among the results,
   * whenever every match fits on that page (or there is no limit).
   */
  lemma DeleteShrinksSearch(bills: seq<Bill>, key: nat, term: string, size: nat)
    requires UniqueKeys(bills)
    requires IndexOfKey(bills, key).Some?
    requires BillMatches(bills[IndexOfKey(bills, key).value], term)
    requires size == 0 || |SearchResults(bills, term)| <= size
    ensures var before := BillingSearch(bills, term, 0, size);
            var after := BillingSearch(DeleteFirst(bills, key), term, 0, size);
            && after.count + 1 == before.count
            && forall b :: b in after.bills ==> b.key != key
  {
    var k := IndexOfKey(bills, key).value;
    var rest := DeleteFirst(bills, key);
    assert |SearchResults(rest, term)| + 1 == |SearchResults(bills, term)| by {
      DeleteFirstRemovesIndex(bills, key);
      FilterWithout(bills, k, term);
      MatchingIsFilter(bills, term);
      MatchingIsFilter(rest, term);
    }
    assert forall b :: b in SearchResults(rest, term) ==> b.key != key by {
      DeleteOnlyTarget(bills, key);
      SearchResultsSound(rest, term);
    }
    FirstPageHoldsAll(bills, term, size);
    FirstPageHoldsAll(rest, term, size);
  }
}
