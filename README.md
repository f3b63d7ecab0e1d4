# Cart and order lifecycle of the shop

This project models the data-access layer (`dao.py`) of a small web shop and the
cart route handlers (`web/web_router.py`) that run on it. The shop is a FastAPI
application over SQLAlchemy. Four tables are involved: users, products, orders
and order lines (OrderProduct). Each user has at most one open order, the cart.
A cart holds at most one line per product, with a quantity and the price last
charged. Closing a non-empty cart closes the order and queues a confirmation
mail. The next cart access then opens a fresh order.

Modules:

- `Table` (table.dfy) gives SQL semantics over tables held as sequences.
  - It covers `SELECT … WHERE p`, `UPDATE … SET f WHERE p`, `DELETE … WHERE p` and
    `scalar_one_or_none`.
  - `scalar_one_or_none` returns no row, one row, or raises `MultipleResultsFound`.
  - It also proves facts about unique keys.
- `Models` (models.dfy) holds the records and a snapshot `Tables` of the whole
  database.
  - `WellFormed` covers the constraints the database enforces: primary keys,
    autoincrement counters and the unique email.
  - `Consistent` covers the two cart invariants that no constraint enforces:
    one open order per user, and one line per (order, product).
- `Dao` (dao.dfy) models every query as a function over the tables, and every
  mutator as a transition from the tables before to the tables after.
- `Store` (store.dfy) is the database as an object whose tables are updated in
  place.
  - There is one method per dao.py mutation, plus the two commits the handlers
    make of changed rows. The queries stay pure `Dao` functions.
  - Each postcondition ties the new state to the `Dao` transition.
- `CartSpec` (cart_spec.dfy) models each cart route as a function from the tables
  (and the current user, if any) to a reply and the new tables. It holds the
  lemmas about the routes' effects and invariants.
- `WebRouter` (web_router.dfy) contains three things:
  - the route handlers as methods over a `Store.Database`, each proved to perform
    its `CartSpec` transition;
  - `UserCreateForm`, whose `IsValid` appends its error messages step by step;
  - the name under which an uploaded product image is stored.

Some behaviour of the code that a reader might not expect, all of it modelled as
written:

- Adding to the cart overwrites the line's price with the product's current
  price on every add (web/web_router.py:419), not only on the first one.
- `get_product` does not filter on `deleted_at`. A soft-deleted product can
  therefore still be added to a cart, although `fetch_products` no longer lists it.
- The upload extension check is case-sensitive: `photo.JPG` is refused.
- `get_order_product` matches the line's own id, not its product. The cart
  routes' `cart_product_id` is therefore a line id, and so is the key
  `delete_order_product` deletes by.
- In `delete_product_in_cart` the line is deleted in a separate session. The
  handler's later `session.add` and commit of the unchanged line write nothing.

Prices are exact reals. Shipping is exactly 5% of the subtotal.

## Model

| member | source | states |
|---|---|---|
| Dao.IsSubstringAt | dao.py:187-188 | the substring test holds exactly when some window of the title spells the query |
| Dao.ContainsIgnoreCaseAt | dao.py:188 | `icontains` holds exactly when, at some position of the title, every character of q equals the title's character there once both are lower-cased |
| Dao.ContainsIgnoreCaseUpper | dao.py:188 | `icontains` ignores letter case: upper-casing the query or the title does not change the outcome |
| Table.OneOrNone | dao.py:49 | `scalar_one_or_none`: no row exactly for an empty result, one row exactly for a single match (and then that match), "many rows" otherwise |
| Dao.IsFirstUser | dao.py:39-43 | true exactly when the users table is empty |
| Dao.GetUserByEmail | dao.py:46-49 | never "many rows" while emails are unique; a row found has that email; no row exactly when no user has it |
| Dao.GetUserByUuid | dao.py:52-55 | a row found has that uuid; no row exactly when no user has it |
| Dao.GetProduct | dao.py:197-200 | never "many rows" while ids are unique; a row found has that id, deleted or not; no row exactly when no product has it |
| Dao.FetchProducts | dao.py:185-194 | the page is the listed rows from position offset on, at most limit of them; each is stored, not deleted and, for a non-empty q, matches q ignoring case |
| Dao.Listed | dao.py:185-192 | the rows fetch_products pages through: a product is among them exactly when it is stored, not deleted and, for a non-empty q, matches q ignoring case |
| Dao.GetOpenOrder | dao.py:255-260 | never "many rows" under one-open-order-per-user; a row found is an open order of that user; no row exactly when the user has no open order |
| Dao.FetchOrderProducts | dao.py:216-221 | exactly the lines of that order with quantity > 0 and price > 0, each with its multiplicity in the table |
| Dao.GetOrderProduct | dao.py:224-230 | matches the line's own id together with its order, not its product; none exactly when no line has both |
| Dao.FindOrInsert | dao.py:203-213 | raises exactly when more than one row matches; on a hit returns the single match and inserts nothing; on a miss returns the new row, appended once |
| Dao.GetOnly | dao.py:203-208 | the only_get form: raises exactly when more than one row matches; none exactly when nothing matches; otherwise the single match |
| Dao.GetOnlyAgrees | dao.py:203-213 | only_get and the inserting form agree on errors and hits; where only_get finds nothing, the inserting form appends the new row |
| Dao.FindOrInsertIdempotent | dao.py:203-213 | the row returned matches the criteria and is in the table; a second call returns the same row and leaves the table as it is |
| Dao.FindOrInsertOrder | dao.py:203-213 | get_or_create(Order): keeps the constraints; cannot raise for an open order under one-open-order-per-user; touches only orders |
| Dao.FindOrInsertLine | dao.py:203-213 | get_or_create(OrderProduct): keeps the constraints; cannot raise under one-line-per-(order, product); touches only lines |
| Dao.FindOrInsertOrderIdempotent | dao.py:203-213 | a second get_or_create(Order) with the same criteria returns the same order and inserts nothing |
| Dao.FindOrInsertLineIdempotent | dao.py:203-213 | a second get_or_create(OrderProduct) with the same criteria returns the same line and inserts nothing |
| Dao.SaveLine | web/web_router.py:105-108 | committing a changed line keeps the constraints and touches only the lines table |
| Dao.SaveOrder | web/web_router.py:164-166 | committing a changed order keeps the constraints and touches only the orders table |
| Dao.DeleteOrderProduct | dao.py:248-252 | the lines left are exactly those with another id; keeps the constraints; other tables untouched |
| Dao.DeleteOrderProductExact | dao.py:248-252 | removes exactly the row with that id, keeping the others in order; an unknown id changes nothing |
| Dao.DeleteProduct | dao.py:99-103 | soft delete: same rows in the same order, the one with that id stamped with the time and nothing else changed |
| Dao.DeletedProductStillFound | dao.py:197-200 | after the soft delete, get_product still finds the row (now stamped), while fetch_products no longer lists it |
| Dao.CreateUser | dao.py:13-36 | fails exactly when the email is taken, then with 403 and the email in the detail, the tables rolled back; otherwise appends the one new, unverified user |
| Dao.ActivateUserAccount | dao.py:58-72 | an unknown uuid gives 400 and no change; a success returns the verified user with that uuid, present in the table; only users changes, and keeps its length |
| Dao.ActivateCases | dao.py:58-72 | unknown uuid: 400 and no change; already verified: returned, nothing changed; otherwise exactly that row gets verified set |
| Dao.ActivateIdempotent | dao.py:58-72 | a second activation with the same uuid returns the same user and changes nothing |
| Dao.UpdateUser | dao.py:90-96 | empty values change nothing; the rows with that id get the given columns, every other row and table is unchanged; keeps the constraints |
| Store.Database.GetOrCreateOrder | dao.py:203-213 | with only_get the result is the lookup and the store is unchanged; otherwise the store performs get_or_create(Order) |
| Store.Database.GetOrCreateOrderProduct | dao.py:203-213 | with only_get the result is the lookup and the store is unchanged; otherwise the store performs get_or_create(OrderProduct) |
| Store.Database.CreateUser | dao.py:13-36 | the store performs create_user, including its rollback on a taken email |
| Store.Database.ActivateUserAccount | dao.py:58-72 | the store performs activate_user_account |
| Store.Database.UpdateUser | dao.py:90-96 | the store performs update_user |
| Store.Database.DeleteProduct | dao.py:99-103 | the store performs the soft delete |
| Store.Database.DeleteOrderProduct | dao.py:248-252 | the store performs delete_order_product |
| Store.Database.SaveOrderProduct | web/web_router.py:105-108 | the store commits the changed line |
| Store.Database.SaveOrder | web/web_router.py:164-166 | the store commits the changed order |
| CartSpec.SubtotalAppend | web/web_router.py:77 | the subtotal of two carts together is the sum of their subtotals |
| CartSpec.SubtotalPermutation | web/web_router.py:77 | the subtotal does not depend on the order the lines are fetched in |
| CartSpec.SubtotalPositive | web/web_router.py:77 | for the fetched lines (quantity and price positive) the subtotal is ≥ 0, and > 0 exactly when the cart is non-empty |
| CartSpec.Subtotal | web/web_router.py:77 | the sum of price × quantity over the lines; never negative when no line's amount is negative |
| CartSpec.Totals | web/web_router.py:77-85 | the page shows the cart and its subtotal; shipping is 1/20 of the subtotal; total is subtotal + shipping, i.e. 21/20 of the subtotal |
| CartSpec.TotalsExample | web/web_router.py:77-85 | two at 10.0 and one at 5.0 give subtotal 25, shipping 1.25, total 26.25 |
| CartSpec.OpenOrder | web/web_router.py:74 | get_or_create(Order, is_closed=False): keeps the constraints; cannot raise under one-open-order-per-user; the order returned is an open order of that user; only orders change |
| CartSpec.ViewCart | web/web_router.py:70-93 | redirects to the index exactly when nobody is logged in, then changing nothing; a page carries the subtotal of its cart and the total; only orders can change |
| CartSpec.IncreaseQuantity | web/web_router.py:96-111 | replies with the redirect to the cart unless it raises; with nobody logged in nothing changes; users and products are never touched |
| CartSpec.DecreaseQuantity | web/web_router.py:114-132 | replies with the redirect to the cart unless it raises; with nobody logged in nothing changes; users and products are never touched |
| CartSpec.DeleteLine | web/web_router.py:135-150 | replies with the redirect to the cart unless it raises; with nobody logged in nothing changes; no line is added or altered; users and products are never touched |
| CartSpec.CloseOrder | web/web_router.py:153-177 | replies with the redirect to the index unless it raises; a mail is queued only for the logged-in user, to their email, about a closed order of theirs with a non-empty cart; users, products and lines are never touched |
| CartSpec.AddToCart | web/web_router.py:403-426 | redirects to the login exactly when nobody is logged in, then changing nothing; an unknown product redirects to the index and changes nothing; users and products are never touched |
| CartSpec.OpenOrderKeeps | web/web_router.py:74 | get_or_create of the open order cannot fail under the invariants, keeps them, returns the user's open order if there is one and otherwise appends a fresh one |
| CartSpec.OpenOrderFound | web/web_router.py:415 | an open order of the user is exactly what get_or_create returns, with no insert |
| CartSpec.OpenLineKeeps | web/web_router.py:416-417 | get_or_create of the line cannot fail under the invariants, keeps them, returns the existing line or appends one with default quantity and price |
| CartSpec.SaveLineKeeps | web/web_router.py:105-108 | saving a line that keeps its id, order and product rewrites exactly its own row and keeps the invariants |
| CartSpec.DeleteOrderProductKeeps | dao.py:248-252 | deleting a line keeps both constraints and cart invariants |
| CartSpec.CloseKeeps | web/web_router.py:164-166 | closing an order rewrites exactly its own row and keeps the invariants |
| CartSpec.NoUserNoChange | web/web_router.py:73-93 | with no current user every cart route (view, increase, decrease, delete, close, add) leaves the tables unchanged and only redirects |
| CartSpec.ViewCartKeeps | web/web_router.py:70-93 | the page cannot crash and keeps the invariants; it lists exactly the open order's lines with positive quantity and price, with the correct subtotal, 5% shipping and total |
| CartSpec.IncreaseKeeps | web/web_router.py:102-108 | increase cannot crash and keeps the invariants |
| CartSpec.IncreaseEffect | web/web_router.py:102-108 | only the line with that id in the open order gains exactly 1; with no such line nothing beyond getting the open order changes |
| CartSpec.DecreaseKeeps | web/web_router.py:120-129 | decrease cannot crash and keeps the invariants |
| CartSpec.DecreaseEffect | web/web_router.py:120-129 | a matching line above 1 loses exactly 1; at 1 it is deleted; at ≤ 0, or with no match, nothing changes |
| CartSpec.DeleteLineKeeps | web/web_router.py:141-147 | delete cannot crash and keeps the invariants |
| CartSpec.DeleteLineEffect | web/web_router.py:141-147 | removes exactly the line with that id in the open order; with no such line nothing changes |
| CartSpec.CloseOrderKeeps | web/web_router.py:160-174 | close cannot crash and keeps the invariants |
| CartSpec.CloseOrderEffect | web/web_router.py:160-174 | a non-empty cart: exactly that order is closed, exactly one notice for it queued, and the user has no open order left; an empty cart: nothing closed, nothing queued |
| CartSpec.ReopenAfterClose | web/web_router.py:160-174 | after closing a non-empty cart, the next cart access creates a fresh open order with a new id |
| CartSpec.AddToCartKeeps | web/web_router.py:407-421 | add cannot crash and keeps the invariants; an unknown product changes nothing |
| CartSpec.AddToCartEffect | web/web_router.py:412-421 | the one line for (open order, product) gains exactly 1 and takes the product's current price; other lines and tables are kept; without a line one is appended with quantity 1 |
| CartSpec.AddToCartHit | web/web_router.py:412-421 | with an existing line for (open order, product), exactly that line gains 1 and takes the current price |
| CartSpec.AddToCartMiss | web/web_router.py:412-421 | with no line for (open order, product), exactly one line is appended, with quantity 1 and the current price |
| CartSpec.AddToCartTwiceHit | web/web_router.py:412-421 | adding the same product twice raises its existing line by exactly 2 |
| CartSpec.AddToCartTwiceMiss | web/web_router.py:412-421 | adding a new product twice leaves one line for it, with quantity 2 |
| WebRouter.Cart | web/web_router.py:70-93 | the handler performs the cart-view transition, replying with the page it computes |
| WebRouter.IncreaseProductQuantityInCart | web/web_router.py:96-111 | the handler performs the increase transition |
| WebRouter.DecreaseProductQuantityInCart | web/web_router.py:114-132 | the handler performs the decrease transition |
| WebRouter.DeleteProductInCart | web/web_router.py:135-150 | the handler performs the delete transition |
| WebRouter.CloseOrder | web/web_router.py:153-177 | the handler performs the close transition and hands over exactly the notice it describes |
| WebRouter.AddProduct | web/web_router.py:403-426 | the handler performs the add-to-cart transition |
| WebRouter.Check | web/web_router.py:51-64 | a check contributes its message once when it fails and nothing otherwise |
| WebRouter.UserCreateForm.constructor | web/web_router.py:32-40 | a new form has no errors, no fields and an empty avatar |
| WebRouter.UserCreateForm.LoadData | web/web_router.py:42-48 | the fields are the posted values; a missing or empty name becomes the empty string |
| WebRouter.UserCreateForm.Report | web/web_router.py:51-64 | one check appends its message exactly when it failed |
| WebRouter.UserCreateForm.IsValid | web/web_router.py:50-67 | appends the messages of exactly the failing checks, in order, to the errors; returns true exactly when no error was ever recorded |
| WebRouter.Messages | web/web_router.py:50-67 | there are as many messages as failing checks |
| WebRouter.FormErrors | web/web_router.py:50-67 | no message exactly when the email (if checked) is present with an '@', no user has the email, the name has at least 3 characters, the password at least 8, and it equals its confirmation; at most five messages |
| WebRouter.MessagesEmptyIff | web/web_router.py:50-67 | no message exactly when every check passed |
| WebRouter.MessagesEach | web/web_router.py:51-64 | each failing check contributes its message exactly once, and a passing one never |
| WebRouter.MessagesMembers | web/web_router.py:51-64 | a message is present exactly when its check failed, and no other message appears |
| WebRouter.MessagesDistinct | web/web_router.py:53-64 | the five messages are pairwise different |
| WebRouter.FormErrorsWithoutEmailCheck | web/web_router.py:51-57 | check_email=False drops only the '@' check's message; the taken-email message still appears when the email is taken |
| WebRouter.EmailLookup | web/web_router.py:55-57 | with unique emails the lookup finds a user exactly when the email is taken |
| WebRouter.EmailTakenIff | web/web_router.py:55-57 | an email is taken exactly when some user has it |
| WebRouter.LastSegment | web/web_router.py:379 | the result has no '.', is a suffix of the name, and is the whole name or follows a '.' |
| WebRouter.LastSegmentUnique | web/web_router.py:379 | any dot-free suffix that is the whole name or follows a '.' is the last segment |
| WebRouter.LastSegmentAfterDot | web/web_router.py:379 | the last segment of stem.ext, for a dot-free ext, is ext |
| WebRouter.SavedFileName | web/web_router.py:377-381 | a name is stored exactly when a file came whose last segment is jpg, png or jpeg; it is then the token, a dot and that extension |
| WebRouter.SavedFileNameSpec | web/web_router.py:377-381 | the stored name is empty unless a file came whose last segment is jpg, png or jpeg; then it is the token, a dot and that extension |
| WebRouter.SavedFileNameExamples | web/web_router.py:377-381 | "a.b.png" is stored as token.png, and no file gives the empty name |
| WebRouter.SavedFileNameUpperCase | web/web_router.py:379-380 | the extension check is case-sensitive: "photo.JPG" is refused |

## Left out

- main.py (app wiring, static mounts, Sentry) and library/render.py (template rendering) are not part of this model. The schema migration is not part of it either.
- Login, logout and cookie refresh (`SecurityHandler`) are left out. The current user is a parameter that may be absent.
- Password hashing (`PasswordEncrypt`) is left out. The hashed password is a parameter.
- Email sending is left out. The confirmation mail is only a `Notice` value returned by the close handler.
- Template rendering and redirect responses are left out. A redirect is modelled as a `Route` value and the cart page as its computed values.
- `download_file` and writing the uploaded bytes to disk are left out. They are file I/O.
- The clock and uuid4 are left out. The deletion time (`now`), the user uuid and the upload token are parameters.
- The refresh-token functions, `add_product`, `add_comment`, `fetch_users` and `fetch_comments` in dao.py are left out. They are not part of the cart lifecycle.
- `decrease_product_quantity_in_order` is left out. Its filter compares against the `Order.id` and `Product.id` columns, not its parameters, and no handler calls it.
- The handlers `web_register`, `update_user_data`, `admin_delete_product` and `add_product_post` are left out, except for the dao operations they call, the form validator and the upload file name.
- Sessions, async execution and races between concurrent requests are left out. Every operation is one atomic update of one store; in particular, the separate sessions of `delete_order_product`, `delete_product` and `update_user` are not modelled.
- Dao.FetchProducts: the queries have no ORDER BY, so the order of their rows is up to the database. The model takes it to be the table's order. The offset/limit page of `fetch_products`, the order of the cart from `fetch_order_products` and of the cart in the mail depend on that choice. The subtotal does not: CartSpec.SubtotalPermutation proves it independent of the order.
- Floating-point rounding is left out. Prices are exact reals.
- In `fetch_products`, with SQL `LIKE` semantics, the wildcards `%` and `_` in q would match anything. The model treats them as ordinary characters. Case folding only covers ASCII letters.
- The models module is not part of this model. The OrderProduct defaults (quantity 0, price 0.0) are assumed, and so is a unique email column.
- `verified_at` is modelled as a boolean flag, `User.verified`. Its column is assumed to accept the `True` that `activate_user_account` stores in it (dao.py:68).
- Only the email and the primary keys are modelled as constraints. Foreign keys are not enforced.
- update_user models only the three columns the profile form sets. A NULL avatar is not modelled.
- A request that raises keeps what was committed before the failure. Rollback of uncommitted session changes is not modelled.
- WebRouter.UserCreateForm.IsValid: requires the store's constraints (unique emails). Without them `get_user_by_email` could raise `MultipleResultsFound`, which the model does not follow.
- Store.Database.GetOrCreateOrder: only the users, products, orders and lines tables are modelled, so get_or_create is modelled for Order and OrderProduct only.
