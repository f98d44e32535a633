# Coin marketplace ledger — Dafny model

A model of the money-and-stock rules of a small marketplace backend, plus
the two checks that guard them. BUYER accounts hold a coin deposit. SELLER
accounts list products with a cost and a stock count. Buyers spend their
deposit on product units and get the rest back as change.

What is modelled:

- **Coin policy** (`Coins`). A deposit amount or product cost is accepted
  only when it is a multiple of 5 and lies in 0..100.
- **Account services** (`AccountServices`). Deposit validation, deposit,
  reset and username update. The mutating operations are methods over a
  `User` object or the `UserTable`, with `modifies` clauses.
- **Product services** (`ProductServices`). Cost validation, product
  creation and update, purchase validation and purchase. The mutating
  operations are methods over `Product` and `User` objects.
- **Ledger** (`Ledger`). A reference semantics for deposit, reset and
  purchase on plain values. The service methods are proved to implement it.
  Its lemmas are about whole runs of operations: soundness is kept
  (non-negative balance made of whole coins, non-negative stock, valid
  cost), stock is conserved, coins are conserved and nothing is oversold.
- **Authentication** (`Authentication`). Splitting the Authorization header
  and extracting the raw token. The anonymous / failure / success flow of
  `authenticate`. Resolving a decoded payload to an active user.
- **Permissions** (`Permissions`). The buyer-only, seller-only and
  seller-owns-product checks.

Upstream request bounds become `requires` clauses:

- the deposit amount is 1..1000 (apps/accounts/views.py:154);
- the purchase quantity is 1..1000 (apps/products/views.py:137);
- the stock on create and update is non-negative (apps/products/views.py:24, :50).

`User.deposit` is a signed integer column. Its non-negativity is proved
from the operations; its type does not give it.

Behaviour of the code that the model keeps as written:

- A product update overwrites only *truthy* arguments. A supplied cost of
  0, stock of 0 or empty name leaves that field unchanged.
- A cost of 0 is accepted by the cost validator.
- A purchase saves the product and then the buyer, with no transaction. The
  model is one sequential update. Atomicity and rollback are not claimed.
- `authenticate` also fails when the decoder returns an *empty* payload,
  because an empty dict is falsy. That failure carries no detail
  (`InvalidToken(None)`).
- The ledger has no separate debit / availability / decrement / delete
  operations. The code only has the purchase, which does both checks and
  both updates.

## Model

| member | source | states |
|---|---|---|
| `Decimal.NatToDecimal` | apps/products/services.py:92-96 | the rendering of a count in a message is a non-empty string of decimal digits without a leading zero, and the digits denote the count (`DecimalValue`) |
| `Decimal.IntToDecimal` | apps/products/services.py:92-96 | `str(i)` is non-empty and starts with a minus sign iff `i` is negative |
| `Decimal.IntToDecimalValue` | apps/products/services.py:92-96 | the digits of `str(i)`, after the sign of a negative value, denote the magnitude of `i` |
| `Decimal.NatToDecimalInjective` | apps/products/services.py:92-96 | different counts render to different digit strings |
| `Decimal.IntToDecimalInjective` | apps/products/services.py:92-96 | different integers, signs included, render differently |
| `Ledger.Deposit` | apps/accounts/services.py:58-64 | a deposit adds the amount exactly when the coin policy accepts it, otherwise the balance is unchanged |
| `Ledger.Reset` | apps/accounts/services.py:82 | a reset sets the balance to 0 |
| `Ledger.CanPurchase` | apps/products/services.py:91-94 | the balance covers cost times quantity and the stock holds the quantity |
| `Ledger.Purchase` | apps/products/services.py:72-76 | an admissible purchase debits cost times quantity and removes the units, keeping the cost; otherwise nothing changes |
| `Ledger.StepPreservesSound` | apps/products/services.py:57-85 | one admissible deposit, reset or purchase keeps balance and stock non-negative, the balance a multiple of 5 and the cost valid |
| `Ledger.RunPreservesSound` | apps/products/services.py:57-85 | every run of admissible operations from a sound state ends in a sound state |
| `Ledger.RunKeepsCost` | apps/products/services.py:72-78 | no buyer operation changes a product's cost |
| `Ledger.RunConservesStock` | apps/products/services.py:72-76 | final stock plus units sold equals the initial stock |
| `Ledger.RunConservesCoins` | apps/products/services.py:72-76 | without resets, final balance plus cost times units sold equals initial balance plus accepted deposits |
| `Ledger.NeverOversold` | apps/products/services.py:88-97 | successful purchases never hand over more units than were in stock |
| `Ledger.SecondPurchaseOfWholeStockRefused` | apps/products/services.py:94-96 | after buying the whole stock, stock is 0 and the same purchase again changes nothing |
| `Ledger.ResetIdempotent` | apps/accounts/services.py:81-88 | resetting twice gives the same balance, 0, as resetting once |
| `AccountServices.ValidateUserDeposit` | apps/accounts/services.py:72-78 | no message iff the amount is a multiple of 5 in 0..100; the multiple-of-5 message iff not a multiple; the range message iff out of range; both in that order when both fail |
| `AccountServices.DepositAmount` | apps/accounts/services.py:53-69 | a valid amount is added to the deposit and the new deposit is returned with no errors; otherwise the deposit is unchanged, no response, and the validator's messages are under "amount"; the username is untouched |
| `AccountServices.ResetDeposit` | apps/accounts/services.py:81-88 | the deposit becomes 0 whatever it was, and `{"deposit": 0}` is returned |
| `AccountServices.UpdateUser` | apps/accounts/services.py:27-39 | a name held by another user gives the "already taken" error and no change; otherwise no error and the user holds the new name (own current name: nothing changes); usernames stay unique |
| `AccountServices.DepositOfThirteenRejected` | apps/accounts/tests/views.py:226-236 | depositing 13 yields only the multiple-of-5 message and leaves the balance unchanged |
| `AccountServices.DepositOfZeroAccepted` | apps/accounts/services.py:72-78 | 0 passes deposit validation |
| `ProductServices.ValidateProductCost` | apps/products/services.py:48-54 | no message iff the cost is a multiple of 5 in 0..100 (0 included); each message iff its rule fails; multiple-of-5 message first when both fail |
| `ProductServices.CreateProduct` | apps/products/services.py:7-23 | a valid cost creates a fresh product with exactly the given name, cost, stock and seller and no errors; an invalid cost creates nothing and reports the validator's messages under "cost" |
| `ProductServices.UpdateProduct` | apps/products/services.py:26-45 | validates the supplied cost, or the current one when the supplied cost is 0; on failure no field changes and no product is returned; on success only truthy arguments overwrite, and the resulting cost is valid |
| `ProductServices.FundsMessage` | apps/products/services.py:92-93 | the funds message is the fixed text with the total cost rendered by `str` |
| `ProductServices.StockMessage` | apps/products/services.py:95-96 | the stock message is the fixed text with the available count rendered by `str` |
| `ProductServices.CostToValidate` | apps/products/services.py:32 | the cost an update validates: the supplied one when truthy, else the current one |
| `ProductServices.ValidateBuy` | apps/products/services.py:88-97 | no message iff the deposit covers cost times quantity and the stock holds the quantity; the funds message iff the deposit is short; the stock message iff the stock is short; funds first when both |
| `ProductServices.BuyProduct` | apps/products/services.py:57-85 | succeeds iff funds and stock suffice; on success the deposit is debited by cost times quantity, the stock is decremented, both stay non-negative, and change, product name and total cost are returned; on failure nothing changes and the messages are under "details" |
| `ProductServices.FundsMessageNamesTotal` | apps/products/services.py:91-93 | the funds message determines the total cost it names |
| `ProductServices.StockMessageNamesStock` | apps/products/services.py:94-96 | the stock message determines the stock count it names |
| `ProductServices.FundsShortfallReportedAlone` | apps/products/tests/views.py:210-227 | with enough stock but too little deposit, the funds message is the only error |
| `ProductServices.StockShortfallReportedAlone` | apps/products/tests/views.py:192-208 | with enough deposit but too little stock, the stock message is the only error |
| `ProductServices.OverStockPurchaseReportsStockOnly` | apps/products/tests/views.py:192-208 | cost 10, stock 2, deposit 100, quantity 3: only the stock message, naming 2 |
| `ProductServices.ExactPurchaseLeavesNoChange` | apps/products/tests/views.py:229-251 | cost 10, stock 2, deposit 20, quantity 2: accepted, change 0, stock 0 |
| `AccountModels.User.constructor` | apps/accounts/models.py:7-11 | a new user has deposit 0 |
| `ProductModels.Product.constructor` | apps/products/models.py:4-10 | a product holds the given name, seller, cost and stock; with unsigned cost and stock it is valid |
| `AccountModels.UserTable.constructor` | apps/accounts/models.py:7-11 | a table loaded from rows with unique usernames holds them and is valid |
| `Authentication.SplitFrom` | apps/accounts/authentication.py:59 | splitting yields non-empty whitespace-free parts that hold every non-whitespace byte in order |
| `Authentication.Split` | apps/accounts/authentication.py:59 | `bytes.split()`: non-empty whitespace-free parts whose concatenation is the header without its whitespace |
| `Authentication.SplitEmptyIffBlank` | apps/accounts/authentication.py:59-63 | the header splits into no parts iff it is empty or all whitespace |
| `Authentication.IsWhitespace` | apps/accounts/authentication.py:59 | the bytes `bytes.split()` splits on: space and ASCII 9..13 (tab, newline, vertical tab, form feed, carriage return) |
| `Authentication.SplitLayout` | apps/accounts/authentication.py:59 | optional leading whitespace, whitespace-free parts separated by non-empty whitespace runs, optional trailing whitespace: splitting gives back exactly the parts |
| `Authentication.LayoutOf` | apps/accounts/authentication.py:59 | every header is such a layout of the parts `bytes.split()` returns, so the layout lemmas cover every header |
| `Authentication.GetRawTokenOfLayout` | apps/accounts/authentication.py:54-72 | over any layout: no parts gives None, a first part that is not an allowed scheme gives None, an allowed scheme with other than two parts fails, and two parts give the second |
| `Authentication.GetRawToken` | apps/accounts/authentication.py:54-72 | a blank header gives None; a returned token is one whitespace-free part, and the header is an allowed scheme followed by it |
| `Authentication.TwoPartHeaderYieldsToken` | apps/accounts/authentication.py:69-72 | an allowed scheme and a token separated by any whitespace run, with any leading or trailing whitespace, returns exactly the token |
| `Authentication.OtherSchemeIgnored` | apps/accounts/authentication.py:65-67 | any whitespace layout whose first part is not an allowed scheme gives None |
| `Authentication.WrongPartCountRejected` | apps/accounts/authentication.py:69-70 | any whitespace layout with an allowed scheme first and a part count other than 2 fails |
| `Authentication.GetUser` | apps/accounts/authentication.py:92-113 | no username claim, unknown user and inactive user are three distinct failures, in that order, each iff its condition is the first to hold; otherwise the active user with that username |
| `Authentication.Authenticate` | apps/accounts/authentication.py:20-34 | anonymous iff no header or no raw token; a malformed header fails; a decoding failure fails with its reason after "Authentication failed: "; an empty payload fails with no detail; any other payload gives exactly `GetUser`'s outcome, the user together with the payload on success |
| `Permissions.UserOf` | apps/accounts/authentication.py:34 | the request user is the authenticated account (key and role), or anonymous |
| `Permissions.IsAuthenticated` | apps/accounts/permissions.py:1-7 | the inherited check: the request user is an account, not the anonymous user |
| `Permissions.BuyerAllowedOnly` | apps/accounts/permissions.py:7-13 | authenticated and the account's role is BUYER |
| `Permissions.SellerAllowedOnly` | apps/accounts/permissions.py:16-22 | authenticated and the account's role is SELLER |
| `Permissions.SellerProductOwnerRequest` | apps/accounts/permissions.py:25 | the request-level check of the owner permission is the inherited seller-only check |
| `Permissions.SellerProductOwnerObject` | apps/accounts/permissions.py:27-32 | the request user is the account whose key is the product's seller key |
| `Permissions.RolesExclusive` | apps/accounts/permissions.py:9-22 | no request passes both the buyer-only and the seller-only check; an authenticated one passes exactly one |
| `Permissions.AnonymousDenied` | apps/accounts/permissions.py:7-32 | an anonymous request passes no check |
| `Permissions.OwnerAccessIffOwningSeller` | apps/accounts/permissions.py:25-32 | the request and object checks of the owner permission both pass iff the user is a seller whose key is the product's seller key |
| `Permissions.BuyerRequestComesFromActiveBuyer` | apps/accounts/permissions.py:9-13 | a request that passes the buyer-only check after authentication carries a token naming an active buyer account |

## Left out

- Persistence (`save()`): an update is a field assignment. Database errors are not modelled.
- BuyProduct: the product and the buyer are saved one after the other with no transaction or locking. The model is one sequential update and claims no atomicity, rollback or race-freedom. `Ledger.SecondPurchaseOfWholeStockRefused` covers only two purchases run one after the other.
- Token decoding (signature, algorithm, expiry) is the `decode` parameter of `Authenticate`. The exception's message is its `reason`.
- The allowed header schemes come from settings. They are the `allowed` parameter.
- `get_header` is left out. Reading `HTTP_AUTHORIZATION` and encoding a `str` header to ISO-8859-1 bytes happen before the model, whose header is already `Option<seq<byte>>`.
- Authentication: the DRF exception classes, their default messages and HTTP status codes become the `AuthError` constructors.
- Authentication.GetUser: payload claims are strings. A non-string `username` claim is not modelled.
- Username lookup is exact string equality. Database collation is not modelled.
- AccountServices.UpdateUser: returns the user's username, not the user object.
- AccountServices.UpdateUser: `User.objects.get(pk=pk)` raising for a missing key is excluded by `requires`. Its caller always passes the logged-in user's key.
- ProductServices.UpdateProduct: a field left out of a partial update is absent from the serializer's validated data (apps/products/views.py:49-51), and `update_product` takes keyword-only parameters without defaults (apps/products/services.py:26-30), so the call at apps/products/views.py:117-119 raises `TypeError` instead of updating. That path is not modelled; the model takes every argument as supplied, and only falsy values (0, "") leave a field unchanged.
- Column widths (`PositiveSmallIntegerField` up to 32767, `max_length` of names) are not modelled. Integers are unbounded, as in Python.
- `create_user`, `change_password`, `obtain_jwt_token` and `generate_jwt_token` are not part of this model. They are Django authentication and JWT library calls with nothing to state beyond the library.
- Product deletion and listing are done by the framework's generic view, not by a service. They are not part of this model.
- Views, serializers, URL routing and admin are HTTP plumbing. Only the serializer bounds above are kept, as preconditions.
