/**
  The rows of the store (users, products, orders, order lines), the snapshot of
  all tables with their autoincrement counters, and the invariants over them.
  The ORM model definitions are not part of this model; the columns below are
  the ones the data-access layer and the route handlers read or write.
*/
module Models {
  import opened Table

  datatype User = User(
    id: int,
    uuid: string,
    email: string,
    name: string,
    hashedPassword: string,
    isAdmin: bool,
    avatar: string,
    verified: bool)

  /** The deletion timestamp of a product: absent while the product is listed. */
  datatype DeletedAt = Active | DeletedOn(at: int)

  datatype Product = Product(
    id: int,
    title: string,
    price: real,
    imageUrl: string,
    imageFile: string,
    deletedAt: DeletedAt)

  datatype Order = Order(id: int, userId: int, isClosed: bool)

  /** One line of an order: a product, how many, and the price recorded for it. */
  datatype OrderProduct = OrderProduct(id: int, orderId: int, productId: int, quantity: int, price: real)

  /** Failures that abort a request. */
  datatype Failure =
    | MultipleResultsFound                      // scalar_one_or_none saw two or more rows
    | HttpError(status: int, detail: string)    // an HTTPException raised to the client

  datatype Result<T> = Ok(value: T) | Err(failure: Failure)

  /** Column defaults of a freshly inserted order line. */
  const DefaultQuantity: int := 0
  const DefaultPrice: real := 0.0

  function UserId(u: User): int { u.id }
  function UserEmail(u: User): string { u.email }
  function ProductId(p: Product): int { p.id }
  function OrderId(o: Order): int { o.id }
  function LineId(l: OrderProduct): int { l.id }
  function LinePair(l: OrderProduct): (int, int) { (l.orderId, l.productId) }

  /** Every table at one instant, with the next value of each autoincrement id. */
  datatype Tables = Tables(
    users: seq<User>,
    products: seq<Product>,
    orders: seq<Order>,
    lines: seq<OrderProduct>,
    nextUserId: int,
    nextOrderId: int,
    nextLineId: int)
  {
    /** The constraints the database itself enforces: primary keys, autoincrement, unique email. */
    ghost predicate WellFormed()
    {
      && UniqueKeys(users, UserId) && KeysBelow(users, UserId, nextUserId)
      && UniqueKeys(users, UserEmail)
      && UniqueKeys(products, ProductId)
      && UniqueKeys(orders, OrderId) && KeysBelow(orders, OrderId, nextOrderId)
      && UniqueKeys(lines, LineId) && KeysBelow(lines, LineId, nextLineId)
    }

    /** The cart invariants no constraint enforces: one open order per user, one line per (order, product). */
    ghost predicate Consistent()
    {
      OneOpenOrderPerUser(orders) && UniqueKeys(lines, LinePair)
    }
  }

  ghost predicate OneOpenOrderPerUser(orders: seq<Order>)
  {
    forall i, j :: 0 <= i < j < |orders| && orders[i].userId == orders[j].userId ==>
      orders[i].isClosed || orders[j].isClosed
  }
}
