/**
  The store the data-access layer works on: one object whose tables are
  updated in place. Each method is one dao.py operation with its commit; its
  postcondition ties the new tables to the corresponding transition of module
  Dao, so that everything proved about those transitions holds of the store.
*/
module Store {
  import opened Table
  import opened Models
  import Dao

  class Database {
    var users: seq<User>
    var products: seq<Product>
    var orders: seq<Order>
    var lines: seq<OrderProduct>
    var nextUserId: int
    var nextOrderId: int
    var nextLineId: int

    /** The tables as one value, to state transitions against. */
    function State(): Tables
      reads this
    {
      Tables(users, products, orders, lines, nextUserId, nextOrderId, nextLineId)
    }

    /** The primary keys, autoincrement counters and unique email hold. */
    ghost predicate Valid()
      reads this
    {
      State().WellFormed()
    }

    constructor (initial: Tables)
      requires initial.WellFormed()
      ensures Valid() && State() == initial
    {
      users, products, orders, lines := initial.users, initial.products, initial.orders, initial.lines;
      nextUserId, nextOrderId, nextLineId := initial.nextUserId, initial.nextOrderId, initial.nextLineId;
    }

    /**
      get_or_create(Order, user_id=userId, is_closed=isClosed): look the order up,
      return it (or nothing, with onlyGet), and otherwise insert and return a new one.
    */
    method GetOrCreateOrder(userId: int, isClosed: bool, onlyGet: bool) returns (r: Result<Option<Order>>)
      requires Valid()
      modifies this
      ensures Valid()
      ensures onlyGet ==> r == Dao.GetOnly(old(orders), Dao.OrderFilter(userId, isClosed)) && State() == old(State())
      ensures !onlyGet ==>
        var (o, t) := Dao.FindOrInsertOrder(old(State()), userId, isClosed);
        State() == t && r == (if o.Ok? then Ok(Some(o.value)) else Err(o.failure))
    {
      r := Dao.GetOnly(orders, Dao.OrderFilter(userId, isClosed));
      if r.Err? || r.value.Some? || onlyGet {
        return;
      }
      var row := Order(nextOrderId, userId, isClosed);
      orders := orders + [row];
      nextOrderId := nextOrderId + 1;
      r := Ok(Some(row));
    }

    /** get_or_create(OrderProduct, order_id=orderId, product_id=productId). */
    method GetOrCreateOrderProduct(orderId: int, productId: int, onlyGet: bool) returns (r: Result<Option<OrderProduct>>)
      requires Valid()
      modifies this
      ensures Valid()
      ensures onlyGet ==> r == Dao.GetOnly(old(lines), Dao.LineFilter(orderId, productId)) && State() == old(State())
      ensures !onlyGet ==>
        var (l, t) := Dao.FindOrInsertLine(old(State()), orderId, productId);
        State() == t && r == (if l.Ok? then Ok(Some(l.value)) else Err(l.failure))
    {
      r := Dao.GetOnly(lines, Dao.LineFilter(orderId, productId));
      if r.Err? || r.value.Some? || onlyGet {
        return;
      }
      var row := OrderProduct(nextLineId, orderId, productId, DefaultQuantity, DefaultPrice);
      lines := lines + [row];
      nextLineId := nextLineId + 1;
      r := Ok(Some(row));
    }

    /** create_user: the insert is committed unless the unique email rejects it. */
    method CreateUser(name: string, email: string, hashedPassword: string, isAdmin: bool, avatar: string, uuid: string)
      returns (r: Result<User>)
      requires Valid()
      modifies this
      ensures Valid()
      ensures (r, State()) == Dao.CreateUser(old(State()), name, email, hashedPassword, isAdmin, avatar, uuid)
    {
      var row := User(nextUserId, uuid, email, name, hashedPassword, isAdmin, avatar, false);
      if !Dao.GetUserByEmail(users, email).NoRow? {
        return Err(HttpError(403, Dao.EmailTakenDetail(email)));
      }
      users := users + [row];
      nextUserId := nextUserId + 1;
      r := Ok(row);
    }

    /** activate_user_account. */
    method ActivateUserAccount(uuid: string) returns (r: Result<User>)
      requires Valid()
      modifies this
      ensures Valid()
      ensures (r, State()) == Dao.ActivateUserAccount(old(State()), uuid)
    {
      var found := Dao.GetUserByUuid(users, uuid);
      if found.ManyRows? {
        return Err(MultipleResultsFound);
      }
      if found.NoRow? {
        return Err(Dao.ActivationRejected);
      }
      var user := found.row;
      if user.verified {
        return Ok(user);
      }
      var s := Dao.ActivateUserAccount(State(), uuid);
      users := s.1.users;
      r := Ok(Dao.MarkVerified(user));
    }

    /** update_user. */
    method UpdateUser(userId: int, values: Dao.UserValues)
      requires Valid()
      modifies this
      ensures Valid()
      ensures State() == Dao.UpdateUser(old(State()), userId, values)
    {
      if values.IsEmpty() {
        return;
      }
      users := Dao.UpdateUser(State(), userId, values).users;
    }

    /** delete_product: the soft delete stamped with the clock reading now. */
    method DeleteProduct(productId: int, now: int)
      requires Valid()
      modifies this
      ensures Valid()
      ensures State() == Dao.DeleteProduct(old(State()), productId, now)
    {
      products := Dao.DeleteProduct(State(), productId, now).products;
    }

    /** delete_order_product. */
    method DeleteOrderProduct(lineId: int)
      requires Valid()
      modifies this
      ensures Valid()
      ensures State() == Dao.DeleteOrderProduct(old(State()), lineId)
    {
      lines := Dao.DeleteOrderProduct(State(), lineId).lines;
    }

    /** Committing a changed order line held by the session. */
    method SaveOrderProduct(row: OrderProduct)
      requires Valid()
      modifies this
      ensures Valid()
      ensures State() == Dao.SaveLine(old(State()), row)
    {
      lines := Dao.SaveLine(State(), row).lines;
    }

    /** Committing a changed order held by the session. */
    method SaveOrder(row: Order)
      requires Valid()
      modifies this
      ensures Valid()
      ensures State() == Dao.SaveOrder(old(State()), row)
    {
      orders := Dao.SaveOrder(State(), row).orders;
    }
  }
}
