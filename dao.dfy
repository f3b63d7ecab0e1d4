/**
  The data-access layer (dao.py): the queries as functions over the tables, each
  statement that changes the tables as a function from one snapshot to the next,
  and the class Database whose methods perform those changes in place.
*/
module Dao {
  import opened Table
  import opened Models

  // ---------------------------------------------------------------------------
  // Filters (the WHERE / filter_by criteria of the queries)
  // ---------------------------------------------------------------------------

  function UserUuid(u: User): string { u.uuid }

  /** filter_by(user_id=userId, is_closed=isClosed) on orders. */
  function OrderFilter(userId: int, isClosed: bool): Order -> bool
  {
    (o: Order) => o.userId == userId && o.isClosed == isClosed
  }

  /** filter_by(order_id=orderId, product_id=productId) on order lines. */
  function LineFilter(orderId: int, productId: int): OrderProduct -> bool
  {
    (l: OrderProduct) => l.orderId == orderId && l.productId == productId
  }

  /** The filter of fetch_order_products: the order's lines with positive quantity and price. */
  function CartFilter(orderId: int): OrderProduct -> bool
  {
    (l: OrderProduct) => l.orderId == orderId && l.quantity > 0 && l.price > 0.0
  }

  /** The filter of get_order_product: the line's own id within the order. */
  function LineInOrder(orderId: int, lineId: int): OrderProduct -> bool
  {
    (l: OrderProduct) => l.orderId == orderId && l.id == lineId
  }

  /** A product not soft-deleted. */
  function IsListed(p: Product): bool
  {
    p.deletedAt.Active?
  }

  /** Product.title.icontains(q) together with deleted_at IS NULL. */
  function TitleMatch(q: string): Product -> bool
  {
    (p: Product) => ContainsIgnoreCase(p.title, q) && IsListed(p)
  }

  // ---------------------------------------------------------------------------
  // Case-insensitive substring (SQL lower(title) LIKE '%' || lower(q) || '%')
  // ---------------------------------------------------------------------------

  function LowerChar(c: char): char
  {
    if 'A' <= c <= 'Z' then (c as int - 'A' as int + 'a' as int) as char else c
  }

  function Lower(s: string): string
  {
    seq(|s|, i requires 0 <= i < |s| => LowerChar(s[i]))
  }

  /** needle occurs in hay at some position. */
  predicate IsSubstring(needle: string, hay: string)
    decreases |hay|
  {
    needle <= hay || (hay != [] && IsSubstring(needle, hay[1..]))
  }

  predicate ContainsIgnoreCase(title: string, q: string)
  {
    IsSubstring(Lower(q), Lower(title))
  }

  /** The window of hay starting at position k spells needle. */
  ghost predicate OccursAt(needle: string, hay: string, k: int)
  {
    0 <= k <= |hay| - |needle| && hay[k..k + |needle|] == needle
  }

  /** IsSubstring is exactly "some window of hay equals needle". */
  lemma {:induction false} IsSubstringAt(needle: string, hay: string)
    ensures IsSubstring(needle, hay) <==> exists k :: OccursAt(needle, hay, k)
  {
    if needle <= hay {
      assert hay[0..|needle|] == needle;
      assert OccursAt(needle, hay, 0);
    } else if hay == [] {
    } else {
      var tail := hay[1..];
      IsSubstringAt(needle, tail);
      if k :| OccursAt(needle, tail, k) {
        OccursAtTail(needle, hay, k);
      }
      if k :| OccursAt(needle, hay, k) {
        assert k != 0;
        OccursAtTail(needle, hay, k - 1);
      }
    }
  }

  /** A window of hay[1..] is the window of hay one position further on. */
  lemma OccursAtTail(needle: string, hay: string, k: int)
    requires hay != [] && 0 <= k
    ensures OccursAt(needle, hay[1..], k) <==> OccursAt(needle, hay, k + 1)
  {
    if k <= |hay| - 1 - |needle| {
      var a, b := hay[1..][k..k + |needle|], hay[k + 1..k + 1 + |needle|];
      forall i | 0 <= i < |needle|
        ensures a[i] == b[i]
      {
        assert a[i] == hay[k + 1 + i];
      }
      assert a == b;
    }
  }

  /** q matches title at position k, letter by letter, ignoring case. */
  ghost predicate MatchesAt(title: string, q: string, k: int)
  {
    0 <= k <= |title| - |q| && forall i :: 0 <= i < |q| ==> LowerChar(title[k + i]) == LowerChar(q[i])
  }

  /** The title search holds exactly when q matches the title at some position, character by character. */
  lemma ContainsIgnoreCaseAt(title: string, q: string)
    ensures ContainsIgnoreCase(title, q) <==> exists k :: MatchesAt(title, q, k)
  {
    var lq, lt := Lower(q), Lower(title);
    IsSubstringAt(lq, lt);
    forall k | 0 <= k <= |title| - |q|
      ensures OccursAt(lq, lt, k) <==> MatchesAt(title, q, k)
    {
      var w := lt[k..k + |q|];
      if OccursAt(lq, lt, k) {
        forall i | 0 <= i < |q|
          ensures LowerChar(title[k + i]) == LowerChar(q[i])
        {
          assert w[i] == lq[i];
        }
      }
      if MatchesAt(title, q, k) {
        forall i | 0 <= i < |q|
          ensures w[i] == lq[i]
        {
          assert w[i] == lt[k + i];
        }
        assert w == lq;
      }
    }
  }

  function UpperChar(c: char): char
  {
    if 'a' <= c <= 'z' then (c as int - 'a' as int + 'A' as int) as char else c
  }

  function Upper(s: string): string
  {
    seq(|s|, i requires 0 <= i < |s| => UpperChar(s[i]))
  }

  /** Upper-casing the query or the title does not change what the search finds. */
  lemma ContainsIgnoreCaseUpper(title: string, q: string)
    ensures ContainsIgnoreCase(title, Upper(q)) == ContainsIgnoreCase(title, q)
    ensures ContainsIgnoreCase(Upper(title), q) == ContainsIgnoreCase(title, q)
  {
    assert forall c :: LowerChar(UpperChar(c)) == LowerChar(c);
    assert Lower(Upper(q)) == Lower(q);
    assert Lower(Upper(title)) == Lower(title);
  }

  // ---------------------------------------------------------------------------
  // Queries
  // ---------------------------------------------------------------------------

  /** is_first_user: the first row of `SELECT users LIMIT 1`, if any, decides. */
  function IsFirstUser(users: seq<User>): (first: bool)
    ensures first <==> users == []
  {
    var top := if |users| < 1 then users else users[..1];
    OneOrNone(top).NoRow?
  }

  function GetUserByEmail(users: seq<User>, email: string): (r: Lookup<User>)
    ensures UniqueKeys(users, UserEmail) ==> !r.ManyRows?
    ensures r.OneRow? ==> r.row in users && r.row.email == email
    ensures r.NoRow? <==> forall u :: u in users ==> u.email != email
  {
    var matches := Select(users, HasKey(UserEmail, email));
    assert UniqueKeys(users, UserEmail) ==> |matches| <= 1 by {
      if UniqueKeys(users, UserEmail) {
        UniqueKeysAtMostOne(users, UserEmail, email);
        SelectAtMostOne(users, HasKey(UserEmail, email));
      }
    }
    SelectHasKey(users, UserEmail, email);
    assert matches != [] ==> matches[0] in matches;
    OneOrNone(matches)
  }

  function GetUserByUuid(users: seq<User>, uuid: string): (r: Lookup<User>)
    ensures r.OneRow? ==> r.row in users && r.row.uuid == uuid
    ensures r.NoRow? <==> forall u :: u in users ==> u.uuid != uuid
  {
    var matches := Select(users, HasKey(UserUuid, uuid));
    SelectHasKey(users, UserUuid, uuid);
    assert matches != [] ==> matches[0] in matches;
    OneOrNone(matches)
  }

  /** get_product: by id only, whether or not the product is soft-deleted. */
  function GetProduct(products: seq<Product>, productId: int): (r: Lookup<Product>)
    ensures UniqueKeys(products, ProductId) ==> !r.ManyRows?
    ensures r.OneRow? ==> r.row in products && r.row.id == productId
    ensures r.NoRow? <==> forall p :: p in products ==> p.id != productId
  {
    var matches := Select(products, HasKey(ProductId, productId));
    assert UniqueKeys(products, ProductId) ==> |matches| <= 1 by {
      if UniqueKeys(products, ProductId) {
        UniqueKeysAtMostOne(products, ProductId, productId);
        SelectAtMostOne(products, HasKey(ProductId, productId));
      }
    }
    SelectHasKey(products, ProductId, productId);
    assert matches != [] ==> matches[0] in matches;
    OneOrNone(matches)
  }

  /** The rows fetch_products pages through: not deleted and, for a non-empty q, matching it. */
  function Listed(products: seq<Product>, q: string): (r: seq<Product>)
    ensures |r| <= |products|
    ensures forall p :: p in r <==>
      p in products && p.deletedAt == Active && (q != [] ==> ContainsIgnoreCase(p.title, q))
  {
    var matches := if q != [] then TitleMatch(q) else IsListed;
    assert forall p :: p in Select(products, matches) <==> p in products && matches(p);
    Select(products, matches)
  }

  function Min(a: int, b: int): int { if a <= b then a else b }

  /** fetch_products: the listed rows from position offset on, at most limit of them. */
  function FetchProducts(products: seq<Product>, offset: nat, limit: nat, q: string): (page: seq<Product>)
    ensures |page| == Min(limit, if offset <= |Listed(products, q)| then |Listed(products, q)| - offset else 0)
    ensures forall i :: 0 <= i < |page| ==> page[i] == Listed(products, q)[offset + i]
    ensures forall p :: p in page ==> p in products && p.deletedAt == Active
    ensures forall p :: p in page && q != [] ==> ContainsIgnoreCase(p.title, q)
  {
    var listed := Listed(products, q);
    var from := Min(offset, |listed|);
    var to := Min(offset + limit, |listed|);
    listed[from..to]
  }

  /** get_open_order: the user's order that is not closed. */
  function GetOpenOrder(orders: seq<Order>, userId: int): (r: Lookup<Order>)
    ensures OneOpenOrderPerUser(orders) ==> !r.ManyRows?
    ensures r.OneRow? ==> r.row in orders && r.row.userId == userId && !r.row.isClosed
    ensures r.NoRow? <==> forall o :: o in orders ==> o.userId != userId || o.isClosed
  {
    var matches := Select(orders, OrderFilter(userId, false));
    assert OneOpenOrderPerUser(orders) ==> |matches| <= 1 by {
      if OneOpenOrderPerUser(orders) {
        SelectAtMostOne(orders, OrderFilter(userId, false));
      }
    }
    assert forall o :: o in matches <==> o in orders && o.userId == userId && !o.isClosed;
    assert matches != [] ==> matches[0] in matches;
    OneOrNone(matches)
  }

  /** fetch_order_products: the order's lines with positive quantity and price. */
  function FetchOrderProducts(lines: seq<OrderProduct>, orderId: int): (cart: seq<OrderProduct>)
    ensures forall l :: l in cart <==> l in lines && l.orderId == orderId && l.quantity > 0 && l.price > 0.0
    ensures forall l :: multiset(cart)[l] == if CartFilter(orderId)(l) then multiset(lines)[l] else 0
  {
    SelectCount(lines, CartFilter(orderId));
    var cart := Select(lines, CartFilter(orderId));
    assert forall l :: l in cart <==> l in lines && CartFilter(orderId)(l);
    cart
  }

  /** get_order_product: matches the line's own id (not its product id) within the order. */
  function GetOrderProduct(lines: seq<OrderProduct>, orderId: int, lineId: int): (r: Lookup<OrderProduct>)
    ensures UniqueKeys(lines, LineId) ==> !r.ManyRows?
    ensures r.OneRow? ==> r.row in lines && r.row.orderId == orderId && r.row.id == lineId
    ensures r.NoRow? <==> forall l :: l in lines ==> l.orderId != orderId || l.id != lineId
  {
    var matches := Select(lines, LineInOrder(orderId, lineId));
    assert UniqueKeys(lines, LineId) ==> |matches| <= 1 by {
      if UniqueKeys(lines, LineId) {
        UniqueKeysAtMostOne(lines, LineId, lineId);
        SelectAtMostOne(lines, LineInOrder(orderId, lineId));
      }
    }
    assert forall l :: l in matches <==> l in lines && l.orderId == orderId && l.id == lineId;
    assert matches != [] ==> matches[0] in matches;
    OneOrNone(matches)
  }

  // ---------------------------------------------------------------------------
  // Statements that change the tables
  // ---------------------------------------------------------------------------

  /**
    get_or_create with only_get left False: the one row matching p if there is
    one; otherwise newRow, which is inserted. Two or more matches raise.
  */
  function FindOrInsert<T(!new)>(table: seq<T>, p: T -> bool, newRow: T): (res: (Result<T>, seq<T>))
    ensures res.0.Err? <==> |Select(table, p)| > 1
    ensures res.0.Err? ==> res.0.failure == MultipleResultsFound && res.1 == table
    ensures res.0.Ok? && Select(table, p) != [] ==> Select(table, p) == [res.0.value] && res.1 == table
    ensures Select(table, p) == [] ==> res.0 == Ok(newRow) && res.1 == table + [newRow]
  {
    var matches := Select(table, p);
    match OneOrNone(matches)
    case ManyRows => (Err(MultipleResultsFound), table)
    case OneRow(row) => (Ok(row), table)
    case NoRow => (Ok(newRow), table + [newRow])
  }

  /** get_or_create with only_get=True: the one row matching p, if any; nothing is inserted. */
  function GetOnly<T(!new)>(table: seq<T>, p: T -> bool): (r: Result<Option<T>>)
    ensures r.Err? <==> |Select(table, p)| > 1
    ensures r.Err? ==> r.failure == MultipleResultsFound
    ensures r == Ok(None) <==> forall x :: x in table ==> !p(x)
    ensures r.Ok? && r.value.Some? ==> Select(table, p) == [r.value.value] && r.value.value in table && p(r.value.value)
  {
    var matches := Select(table, p);
    assert forall x :: x in matches <==> x in table && p(x);
    assert matches != [] ==> matches[0] in matches;
    match OneOrNone(matches)
    case ManyRows => Err(MultipleResultsFound)
    case OneRow(row) => Ok(Some(row))
    case NoRow => Ok(None)
  }

  /** With or without only_get, get_or_create returns the same row on a hit and fails alike. */
  lemma GetOnlyAgrees<T(!new)>(table: seq<T>, p: T -> bool, newRow: T)
    ensures GetOnly(table, p).Err? <==> FindOrInsert(table, p, newRow).0.Err?
    ensures GetOnly(table, p).Ok? && GetOnly(table, p).value.Some? ==>
      FindOrInsert(table, p, newRow) == (Ok(GetOnly(table, p).value.value), table)
    ensures GetOnly(table, p) == Ok(None) ==> FindOrInsert(table, p, newRow) == (Ok(newRow), table + [newRow])
  {
  }

  /** A found or inserted row matches the criteria, and a second call finds it and inserts nothing. */
  lemma FindOrInsertIdempotent<T(!new)>(table: seq<T>, p: T -> bool, newRow: T, newRow2: T)
    requires p(newRow)
    requires FindOrInsert(table, p, newRow).0.Ok?
    ensures p(FindOrInsert(table, p, newRow).0.value)
    ensures FindOrInsert(table, p, newRow).0.value in FindOrInsert(table, p, newRow).1
    ensures var (r, t1) := FindOrInsert(table, p, newRow);
      FindOrInsert(t1, p, newRow2) == (r, t1)
  {
    var (r, t1) := FindOrInsert(table, p, newRow);
    if Select(table, p) == [] {
      SelectAppend(table, [newRow], p);
      assert Select(t1, p) == [newRow];
    } else {
      assert r.value in Select(table, p);
    }
  }

  /** get_or_create(Order, user_id=userId, is_closed=isClosed). */
  function FindOrInsertOrder(t: Tables, userId: int, isClosed: bool): (res: (Result<Order>, Tables))
    ensures t.WellFormed() ==> res.1.WellFormed()
    ensures OneOpenOrderPerUser(t.orders) && !isClosed ==> res.0.Ok?
    ensures res.0.Ok? ==> res.0.value.userId == userId && res.0.value.isClosed == isClosed
    ensures res.1.users == t.users && res.1.products == t.products && res.1.lines == t.lines
    ensures res.1.nextUserId == t.nextUserId && res.1.nextLineId == t.nextLineId
  {
    var newRow := Order(t.nextOrderId, userId, isClosed);
    assert FindOrInsert(t.orders, OrderFilter(userId, isClosed), newRow).0.Ok? ==>
      OrderFilter(userId, isClosed)(FindOrInsert(t.orders, OrderFilter(userId, isClosed), newRow).0.value) by {
      var (r, _) := FindOrInsert(t.orders, OrderFilter(userId, isClosed), newRow);
      if r.Ok? && Select(t.orders, OrderFilter(userId, isClosed)) != [] {
        assert r.value in Select(t.orders, OrderFilter(userId, isClosed));
      }
    }
    assert OneOpenOrderPerUser(t.orders) && !isClosed ==> |Select(t.orders, OrderFilter(userId, isClosed))| <= 1 by {
      if OneOpenOrderPerUser(t.orders) && !isClosed {
        SelectAtMostOne(t.orders, OrderFilter(userId, isClosed));
      }
    }
    var (r, orders) := FindOrInsert(t.orders, OrderFilter(userId, isClosed), newRow);
    assert t.WellFormed() && orders != t.orders ==> UniqueKeys(orders, OrderId) && KeysBelow(orders, OrderId, t.nextOrderId + 1) by {
      if t.WellFormed() && orders != t.orders {
        AppendFreshKey(t.orders, newRow, OrderId, t.nextOrderId);
      }
    }
    (r, t.(orders := orders, nextOrderId := t.nextOrderId + |orders| - |t.orders|))
  }

  /** get_or_create(OrderProduct, order_id=orderId, product_id=productId). */
  function FindOrInsertLine(t: Tables, orderId: int, productId: int): (res: (Result<OrderProduct>, Tables))
    ensures t.WellFormed() ==> res.1.WellFormed()
    ensures UniqueKeys(t.lines, LinePair) ==> res.0.Ok?
    ensures res.1.users == t.users && res.1.products == t.products && res.1.orders == t.orders
    ensures res.1.nextUserId == t.nextUserId && res.1.nextOrderId == t.nextOrderId
  {
    var newRow := OrderProduct(t.nextLineId, orderId, productId, DefaultQuantity, DefaultPrice);
    assert UniqueKeys(t.lines, LinePair) ==> |Select(t.lines, LineFilter(orderId, productId))| <= 1 by {
      if UniqueKeys(t.lines, LinePair) {
        var p := LineFilter(orderId, productId);
        forall i, j | 0 <= i < j < |t.lines| && p(t.lines[i])
          ensures !p(t.lines[j])
        {
          assert LinePair(t.lines[i]) != LinePair(t.lines[j]);
        }
        SelectAtMostOne(t.lines, p);
      }
    }
    var (r, lines) := FindOrInsert(t.lines, LineFilter(orderId, productId), newRow);
    assert t.WellFormed() && lines != t.lines ==> UniqueKeys(lines, LineId) && KeysBelow(lines, LineId, t.nextLineId + 1) by {
      if t.WellFormed() && lines != t.lines {
        AppendFreshKey(t.lines, newRow, LineId, t.nextLineId);
      }
    }
    (r, t.(lines := lines, nextLineId := t.nextLineId + |lines| - |t.lines|))
  }

  /** A second get_or_create(Order) with the same criteria returns the same order and inserts nothing. */
  lemma FindOrInsertOrderIdempotent(t: Tables, userId: int, isClosed: bool)
    requires FindOrInsertOrder(t, userId, isClosed).0.Ok?
    ensures var (r, t1) := FindOrInsertOrder(t, userId, isClosed);
      FindOrInsertOrder(t1, userId, isClosed) == (r, t1)
  {
    var (r, t1) := FindOrInsertOrder(t, userId, isClosed);
    FindOrInsertIdempotent(t.orders, OrderFilter(userId, isClosed),
      Order(t.nextOrderId, userId, isClosed), Order(t1.nextOrderId, userId, isClosed));
  }

  /** A second get_or_create(OrderProduct) with the same criteria returns the same line and inserts nothing. */
  lemma FindOrInsertLineIdempotent(t: Tables, orderId: int, productId: int)
    requires FindOrInsertLine(t, orderId, productId).0.Ok?
    ensures var (r, t1) := FindOrInsertLine(t, orderId, productId);
      FindOrInsertLine(t1, orderId, productId) == (r, t1)
  {
    var (r, t1) := FindOrInsertLine(t, orderId, productId);
    FindOrInsertIdempotent(t.lines, LineFilter(orderId, productId),
      OrderProduct(t.nextLineId, orderId, productId, DefaultQuantity, DefaultPrice),
      OrderProduct(t1.nextLineId, orderId, productId, DefaultQuantity, DefaultPrice));
  }

  /** Flushing a changed order line: UPDATE order_products SET ... WHERE id = row.id. */
  function SaveLine(t: Tables, row: OrderProduct): (r: Tables)
    ensures t.WellFormed() ==> r.WellFormed()
    ensures r.users == t.users && r.products == t.products && r.orders == t.orders
  {
    UpdateKeepsKeys(t.lines, HasKey(LineId, row.id), Put(row), LineId);
    t.(lines := Update(t.lines, HasKey(LineId, row.id), Put(row)))
  }

  /** Flushing a changed order: UPDATE orders SET ... WHERE id = row.id. */
  function SaveOrder(t: Tables, row: Order): (r: Tables)
    ensures t.WellFormed() ==> r.WellFormed()
    ensures r.users == t.users && r.products == t.products && r.lines == t.lines
  {
    UpdateKeepsKeys(t.orders, HasKey(OrderId, row.id), Put(row), OrderId);
    t.(orders := Update(t.orders, HasKey(OrderId, row.id), Put(row)))
  }

  /** delete_order_product: DELETE FROM order_products WHERE id = lineId. */
  function DeleteOrderProduct(t: Tables, lineId: int): (r: Tables)
    ensures t.WellFormed() ==> r.WellFormed()
    ensures forall l :: l in r.lines <==> l in t.lines && l.id != lineId
    ensures r.users == t.users && r.products == t.products && r.orders == t.orders
  {
    var lines := Delete(t.lines, HasKey(LineId, lineId));
    assert t.WellFormed() ==> UniqueKeys(lines, LineId) && KeysBelow(lines, LineId, t.nextLineId) by {
      if t.WellFormed() {
        SelectKeepsUniqueKeys(t.lines, Not(HasKey(LineId, lineId)), LineId);
        SelectKeepsKeysBelow(t.lines, Not(HasKey(LineId, lineId)), LineId, t.nextLineId);
      }
    }
    t.(lines := lines)
  }

  /** The row with that id, and that row only, is gone; without such a row nothing changes. */
  lemma DeleteOrderProductExact(t: Tables, lineId: int)
    requires t.WellFormed()
    ensures forall k :: 0 <= k < |t.lines| && t.lines[k].id == lineId ==>
      DeleteOrderProduct(t, lineId).lines == t.lines[..k] + t.lines[k + 1..]
    ensures (forall l :: l in t.lines ==> l.id != lineId) ==> DeleteOrderProduct(t, lineId) == t
  {
    UniqueKeysAtMostOne(t.lines, LineId, lineId);
    forall k | 0 <= k < |t.lines| && t.lines[k].id == lineId
      ensures DeleteOrderProduct(t, lineId).lines == t.lines[..k] + t.lines[k + 1..]
    {
      DeleteOnly(t.lines, HasKey(LineId, lineId), k);
    }
    if forall l :: l in t.lines ==> l.id != lineId {
      DeleteNothing(t.lines, HasKey(LineId, lineId));
    }
  }

  function StampDeleted(now: int): Product -> Product
  {
    (p: Product) => p.(deletedAt := DeletedOn(now))
  }

  /** delete_product: UPDATE products SET deleted_at = now WHERE id = productId; the row stays. */
  function DeleteProduct(t: Tables, productId: int, now: int): (r: Tables)
    ensures |r.products| == |t.products|
    ensures forall i :: 0 <= i < |t.products| ==>
      r.products[i] == if t.products[i].id == productId then t.products[i].(deletedAt := DeletedOn(now)) else t.products[i]
    ensures r.users == t.users && r.orders == t.orders && r.lines == t.lines
    ensures t.WellFormed() ==> r.WellFormed()
  {
    UpdateKeepsKeys(t.products, HasKey(ProductId, productId), StampDeleted(now), ProductId);
    t.(products := Update(t.products, HasKey(ProductId, productId), StampDeleted(now)))
  }

  /** After delete_product the product is still found by id, and no longer listed. */
  lemma DeletedProductStillFound(t: Tables, productId: int, now: int, q: string)
    requires t.WellFormed()
    requires exists p :: p in t.products && p.id == productId
    ensures GetProduct(DeleteProduct(t, productId, now).products, productId).OneRow?
    ensures GetProduct(DeleteProduct(t, productId, now).products, productId).row.deletedAt == DeletedOn(now)
    ensures forall p :: p in Listed(DeleteProduct(t, productId, now).products, q) ==> p.id != productId
  {
    var r := DeleteProduct(t, productId, now);
    var p :| p in t.products && p.id == productId;
    var k :| 0 <= k < |t.products| && t.products[k] == p;
    assert r.products[k] in r.products;
    assert UniqueKeys(r.products, ProductId);
    forall x | x in r.products && x.id == productId
      ensures x.deletedAt == DeletedOn(now)
    {
      var i :| 0 <= i < |r.products| && r.products[i] == x;
    }
  }

  /** The message create_user raises on a taken email. */
  function EmailTakenDetail(email: string): string
  {
    "User with email " + email + " probably already exists"
  }

  /** create_user: insert, or roll back with 403 when the email is taken. */
  function CreateUser(t: Tables, name: string, email: string, hashedPassword: string,
                      isAdmin: bool, avatar: string, uuid: string): (res: (Result<User>, Tables))
    ensures res.0.Err? <==> exists u :: u in t.users && u.email == email
    ensures res.0.Err? ==> res.0 == Err(HttpError(403, EmailTakenDetail(email))) && res.1 == t
    ensures res.0.Ok? ==>
      && res.0.value == User(t.nextUserId, uuid, email, name, hashedPassword, isAdmin, avatar, false)
      && res.1 == t.(users := t.users + [res.0.value], nextUserId := t.nextUserId + 1)
    ensures t.WellFormed() ==> res.1.WellFormed()
  {
    var taken := Select(t.users, HasKey(UserEmail, email));
    SelectHasKey(t.users, UserEmail, email);
    if taken != [] then
      assert taken[0] in taken;
      (Err(HttpError(403, EmailTakenDetail(email))), t)
    else
      var u := User(t.nextUserId, uuid, email, name, hashedPassword, isAdmin, avatar, false);
      assert t.WellFormed() ==> UniqueKeys(t.users + [u], UserEmail) && UniqueKeys(t.users + [u], UserId) by {
        if t.WellFormed() {
          AppendNewKey(t.users, u, UserEmail);
          AppendFreshKey(t.users, u, UserId, t.nextUserId);
        }
      }
      (Ok(u), t.(users := t.users + [u], nextUserId := t.nextUserId + 1))
  }

  /** The one column activation sets. */
  function MarkVerified(u: User): User { u.(verified := true) }

  /** The error activate_user_account raises for an unknown uuid. */
  const ActivationRejected: Failure := HttpError(400, "Data for account activation is not correct")

  /** activate_user_account: set verified on the user with that uuid, unless already set. */
  function ActivateUserAccount(t: Tables, uuid: string): (res: (Result<User>, Tables))
    ensures (forall u :: u in t.users ==> u.uuid != uuid) ==> res == (Err(ActivationRejected), t)
    ensures res.0.Ok? ==> res.0.value.uuid == uuid && res.0.value.verified && res.0.value in res.1.users
    ensures res.1.products == t.products && res.1.orders == t.orders && res.1.lines == t.lines
    ensures res.1.nextUserId == t.nextUserId && |res.1.users| == |t.users|
    ensures t.WellFormed() ==> res.1.WellFormed()
  {
    match GetUserByUuid(t.users, uuid)
    case ManyRows => (Err(MultipleResultsFound), t)
    case NoRow => (Err(ActivationRejected), t)
    case OneRow(u) =>
      if u.verified then (Ok(u), t)
      else
        var v := MarkVerified(u);
        UpdateKeepsKeys(t.users, HasKey(UserId, u.id), MarkVerified, UserId);
        UpdateKeepsKeys(t.users, HasKey(UserId, u.id), MarkVerified, UserEmail);
        var users := Update(t.users, HasKey(UserId, u.id), MarkVerified);
        assert v in users by {
          var k :| 0 <= k < |t.users| && t.users[k] == u;
          assert users[k] == v;
        }
        (Ok(v), t.(users := users))
  }

  /** A second activation with the same uuid returns the same user and changes nothing. */
  lemma ActivateIdempotent(t: Tables, uuid: string)
    requires t.WellFormed()
    requires ActivateUserAccount(t, uuid).0.Ok?
    ensures var (r, t1) := ActivateUserAccount(t, uuid);
      ActivateUserAccount(t1, uuid) == (r, t1)
  {
    var u := GetUserByUuid(t.users, uuid).row;
    if !u.verified {
      var k :| 0 <= k < |t.users| && t.users[k] == u;
      ActivateCases(t, uuid);
      AtMostOneSelected(t.users, HasKey(UserUuid, uuid));
      MarkedStillFound(t.users, uuid, k);
    }
  }

  /** Marking the one user with a uuid verified leaves that user the one found by the uuid. */
  lemma MarkedStillFound(users: seq<User>, uuid: string, k: int)
    requires 0 <= k < |users| && users[k].uuid == uuid
    requires AtMostOneMatch(users, HasKey(UserUuid, uuid))
    ensures GetUserByUuid(users[k := MarkVerified(users[k])], uuid) == OneRow(MarkVerified(users[k]))
  {
    var p := HasKey(UserUuid, uuid);
    var marked := users[k := MarkVerified(users[k])];
    assert forall i :: 0 <= i < |users| ==> p(marked[i]) == p(users[i]);
    SelectOnly(marked, p, k);
  }

  /** An unknown uuid is refused, a verified user is returned as is, an unverified one is marked. */
  lemma ActivateCases(t: Tables, uuid: string)
    requires t.WellFormed()
    ensures GetUserByUuid(t.users, uuid).NoRow? ==> ActivateUserAccount(t, uuid) == (Err(ActivationRejected), t)
    ensures GetUserByUuid(t.users, uuid).OneRow? && GetUserByUuid(t.users, uuid).row.verified ==>
      ActivateUserAccount(t, uuid) == (Ok(GetUserByUuid(t.users, uuid).row), t)
    ensures GetUserByUuid(t.users, uuid).OneRow? && !GetUserByUuid(t.users, uuid).row.verified ==>
      var u := GetUserByUuid(t.users, uuid).row;
      forall k :: 0 <= k < |t.users| && t.users[k] == u ==>
        ActivateUserAccount(t, uuid) == (Ok(u.(verified := true)), t.(users := t.users[k := u.(verified := true)]))
  {
    var found := GetUserByUuid(t.users, uuid);
    if found.OneRow? {
      var u := found.row;
      UniqueKeysAtMostOne(t.users, UserId, u.id);
      forall k | 0 <= k < |t.users| && t.users[k] == u
        ensures Update(t.users, HasKey(UserId, u.id), MarkVerified) == t.users[k := MarkVerified(u)]
      {
        UpdateOnly(t.users, HasKey(UserId, u.id), MarkVerified, k);
      }
    }
  }

  /** The values update_user may set; a field left None is not in the dictionary. */
  datatype UserValues = UserValues(hashedPassword: Option<string>, avatar: Option<string>, name: Option<string>)
  {
    predicate IsEmpty()
    {
      hashedPassword.None? && avatar.None? && name.None?
    }
  }

  function Assign(values: UserValues): User -> User
  {
    (u: User) => u.(
      hashedPassword := if values.hashedPassword.Some? then values.hashedPassword.value else u.hashedPassword,
      avatar := if values.avatar.Some? then values.avatar.value else u.avatar,
      name := if values.name.Some? then values.name.value else u.name)
  }

  /** update_user: UPDATE users SET values WHERE id = userId, skipped for empty values. */
  function UpdateUser(t: Tables, userId: int, values: UserValues): (r: Tables)
    ensures values.IsEmpty() ==> r == t
    ensures r.products == t.products && r.orders == t.orders && r.lines == t.lines
    ensures |r.users| == |t.users|
    ensures forall i :: 0 <= i < |t.users| && t.users[i].id != userId ==> r.users[i] == t.users[i]
    ensures forall i :: 0 <= i < |t.users| && t.users[i].id == userId ==> r.users[i] == Assign(values)(t.users[i])
    ensures t.WellFormed() ==> r.WellFormed()
  {
    if values.IsEmpty() then t
    else
      UpdateKeepsKeys(t.users, HasKey(UserId, userId), Assign(values), UserId);
      UpdateKeepsKeys(t.users, HasKey(UserId, userId), Assign(values), UserEmail);
      t.(users := Update(t.users, HasKey(UserId, userId), Assign(values)))
  }
}
