/**
  What each cart route of web/web_router.py does to the tables, as a function
  from the tables before the request to the reply and the tables after it.
  A request that raises keeps whatever was committed before the failure. The
  lemmas state the effects of each route and the invariants every route keeps.
*/
module CartSpec {
  import opened Table
  import opened Models
  import opened Dao

  /** Where a route redirects to. */
  datatype Route = Index | CartView | Login

  /** The values the cart page shows. */
  datatype CartPage = CartPage(cart: seq<OrderProduct>, subtotal: real, shipping: real, total: real)

  datatype Reply = Redirect(to: Route) | Page(page: CartPage) | Crash(failure: Failure)

  /** The order-confirmation mail queued as a background task, as an event. */
  datatype Notice = Notice(email: string, name: string, order: Order, cart: seq<OrderProduct>)

  // ---------------------------------------------------------------------------
  // The cart page values
  // ---------------------------------------------------------------------------

  /** What one line costs: its price times its quantity. */
  function Amount(l: OrderProduct): real
  {
    l.price * (l.quantity as real)
  }

  /** sum(price * quantity) over the lines. */
  function Subtotal(cart: seq<OrderProduct>): (r: real)
    ensures (forall i :: 0 <= i < |cart| ==> Amount(cart[i]) >= 0.0) ==> r >= 0.0
  {
    if cart == [] then 0.0 else Amount(cart[0]) + Subtotal(cart[1..])
  }

  const ShippingRate: real := 0.05

  /** The cart page: shipping is 5% of the subtotal and the total adds it. */
  function Totals(cart: seq<OrderProduct>): (r: CartPage)
    ensures r.cart == cart && r.subtotal == Subtotal(cart)
    ensures r.shipping * 20.0 == r.subtotal
    ensures r.total == r.subtotal + r.shipping
    ensures r.total * 20.0 == r.subtotal * 21.0
  {
    var subtotal := Subtotal(cart);
    CartPage(cart, subtotal, subtotal * ShippingRate, subtotal + subtotal * ShippingRate)
  }

  lemma {:induction false} SubtotalAppend(a: seq<OrderProduct>, b: seq<OrderProduct>)
    ensures Subtotal(a + b) == Subtotal(a) + Subtotal(b)
  {
    if a == [] {
      assert a + b == b;
    } else {
      assert (a + b)[1..] == a[1..] + b;
      SubtotalAppend(a[1..], b);
    }
  }

  /** Taking one line out of a cart takes its amount out of the subtotal. */
  lemma {:induction false} SubtotalRemove(b: seq<OrderProduct>, i: int)
    requires 0 <= i < |b|
    ensures multiset(b) == multiset(b[..i] + b[i + 1..]) + multiset{b[i]}
    ensures Subtotal(b) == Subtotal(b[..i] + b[i + 1..]) + Amount(b[i])
  {
    var x, pre, post := b[i], b[..i], b[i + 1..];
    assert b == pre + [x] + post;
    SubtotalAppend(pre + [x], post);
    SubtotalAppend(pre, [x]);
    SubtotalAppend(pre, post);
    assert [x][1..] == [];
    assert Subtotal([x]) == Amount(x);
  }

  /** The subtotal does not depend on the order the lines are fetched in. */
  lemma {:induction false} SubtotalPermutation(a: seq<OrderProduct>, b: seq<OrderProduct>)
    requires multiset(a) == multiset(b)
    ensures Subtotal(a) == Subtotal(b)
    decreases |a|
  {
    if a != [] {
      var x := a[0];
      assert a == [x] + a[1..];
      assert x in multiset(b);
      var i :| 0 <= i < |b| && b[i] == x;
      var rest := b[..i] + b[i + 1..];
      SubtotalRemove(b, i);
      assert multiset(a[1..]) == multiset(a) - multiset{x};
      assert multiset(rest) == multiset(b) - multiset{x};
      SubtotalPermutation(a[1..], rest);
    }
  }

  /** Lines with positive price and quantity (what fetch_order_products keeps) give a positive subtotal exactly when there is one. */
  lemma {:induction false} SubtotalPositive(cart: seq<OrderProduct>)
    requires forall l :: l in cart ==> l.quantity > 0 && l.price > 0.0
    ensures Subtotal(cart) >= 0.0
    ensures Subtotal(cart) > 0.0 <==> cart != []
  {
    if cart != [] {
      assert cart[0] in cart;
      assert forall l :: l in cart[1..] ==> l in cart;
      SubtotalPositive(cart[1..]);
      assert Amount(cart[0]) > 0.0;
    }
  }

  /** Two of A at 10.0 and one of B at 5.0: subtotal 25, shipping 1.25, total 26.25. */
  lemma TotalsExample()
    ensures var cart := [OrderProduct(1, 7, 1, 2, 10.0), OrderProduct(2, 7, 2, 1, 5.0)];
      Totals(cart) == CartPage(cart, 25.0, 1.25, 26.25)
  {
    var cart := [OrderProduct(1, 7, 1, 2, 10.0), OrderProduct(2, 7, 2, 1, 5.0)];
    assert cart[1..] == [OrderProduct(2, 7, 2, 1, 5.0)];
    assert cart[1..][1..] == [];
  }

  // ---------------------------------------------------------------------------
  // The routes
  // ---------------------------------------------------------------------------

  /** The order every cart route starts from: get_or_create(Order, user_id, is_closed=False). */
  function OpenOrder(t: Tables, u: User): (res: (Result<Order>, Tables))
    ensures t.WellFormed() ==> res.1.WellFormed()
    ensures OneOpenOrderPerUser(t.orders) ==> res.0.Ok?
    ensures res.0.Ok? ==> res.0.value.userId == u.id && !res.0.value.isClosed
    ensures res.1.users == t.users && res.1.products == t.products && res.1.lines == t.lines
  {
    FindOrInsertOrder(t, u.id, false)
  }

  /** GET /cart. */
  function ViewCart(t: Tables, user: Option<User>): (r: (Reply, Tables))
    ensures r.0.Redirect? <==> user.None?
    ensures r.0.Redirect? ==> r.0.to == Index && r.1 == t
    ensures r.0.Page? ==> r.0.page.subtotal == Subtotal(r.0.page.cart) && r.0.page.total == r.0.page.subtotal + r.0.page.shipping
    ensures r.1.users == t.users && r.1.products == t.products && r.1.lines == t.lines
  {
    if user.None? then (Redirect(Index), t)
    else
      var (o, t1) := OpenOrder(t, user.value);
      if o.Err? then (Crash(o.failure), t1)
      else (Page(Totals(FetchOrderProducts(t1.lines, o.value.id))), t1)
  }

  /** POST /cart/increase_quantity/{lineId}. */
  function IncreaseQuantity(t: Tables, user: Option<User>, lineId: int): (r: (Reply, Tables))
    ensures r.0 == Redirect(CartView) || r.0.Crash?
    ensures user.None? ==> r.1 == t
    ensures r.1.users == t.users && r.1.products == t.products
  {
    if user.None? then (Redirect(CartView), t)
    else
      var (o, t1) := OpenOrder(t, user.value);
      if o.Err? then (Crash(o.failure), t1)
      else match GetOrderProduct(t1.lines, o.value.id, lineId)
        case ManyRows => (Crash(MultipleResultsFound), t1)
        case NoRow => (Redirect(CartView), t1)
        case OneRow(l) => (Redirect(CartView), SaveLine(t1, l.(quantity := l.quantity + 1)))
  }

  /** POST /cart/decrease_quantity/{lineId}: a line that reaches 0 is deleted. */
  function DecreaseQuantity(t: Tables, user: Option<User>, lineId: int): (r: (Reply, Tables))
    ensures r.0 == Redirect(CartView) || r.0.Crash?
    ensures user.None? ==> r.1 == t
    ensures r.1.users == t.users && r.1.products == t.products
  {
    if user.None? then (Redirect(CartView), t)
    else
      var (o, t1) := OpenOrder(t, user.value);
      if o.Err? then (Crash(o.failure), t1)
      else match GetOrderProduct(t1.lines, o.value.id, lineId)
        case ManyRows => (Crash(MultipleResultsFound), t1)
        case NoRow => (Redirect(CartView), t1)
        case OneRow(l) =>
          if l.quantity > 0 then
            var lowered := l.(quantity := l.quantity - 1);
            if lowered.quantity == 0 then (Redirect(CartView), DeleteOrderProduct(t1, lineId))
            else (Redirect(CartView), SaveLine(t1, lowered))
          else (Redirect(CartView), t1)
  }

  /** POST /cart/delete_product_from_cart/{lineId}. */
  function DeleteLine(t: Tables, user: Option<User>, lineId: int): (r: (Reply, Tables))
    ensures r.0 == Redirect(CartView) || r.0.Crash?
    ensures user.None? ==> r.1 == t
    ensures r.1.users == t.users && r.1.products == t.products
    ensures forall l :: l in r.1.lines ==> l in t.lines
  {
    if user.None? then (Redirect(CartView), t)
    else
      var (o, t1) := OpenOrder(t, user.value);
      if o.Err? then (Crash(o.failure), t1)
      else match GetOrderProduct(t1.lines, o.value.id, lineId)
        case ManyRows => (Crash(MultipleResultsFound), t1)
        case NoRow => (Redirect(CartView), t1)
        case OneRow(_) => (Redirect(CartView), DeleteOrderProduct(t1, lineId))
  }

  /** POST /close-order: closes the open order and queues its mail, only for a non-empty cart. */
  function CloseOrder(t: Tables, user: Option<User>): (r: (Reply, Tables, Option<Notice>))
    ensures r.0 == Redirect(Index) || r.0.Crash?
    ensures r.2.Some? ==> r.0 == Redirect(Index) && user.Some? && r.2.value.email == user.value.email
    ensures r.2.Some? ==> r.2.value.order.isClosed && r.2.value.order.userId == user.value.id && r.2.value.cart != []
    ensures r.1.users == t.users && r.1.products == t.products && r.1.lines == t.lines
  {
    if user.None? then (Redirect(Index), t, None)
    else
      var u := user.value;
      var (o, t1) := OpenOrder(t, u);
      if o.Err? then (Crash(o.failure), t1, None)
      else
        var cart := FetchOrderProducts(t1.lines, o.value.id);
        if cart != [] then
          var closed := o.value.(isClosed := true);
          (Redirect(Index), SaveOrder(t1, closed), Some(Notice(u.email, u.name, closed, cart)))
        else (Redirect(Index), t1, None)
  }

  /** POST /shop/add/{productId}: one more of the product, at its current price. */
  function AddToCart(t: Tables, user: Option<User>, productId: int): (r: (Reply, Tables))
    ensures r.0 == Redirect(Login) <==> user.None?
    ensures user.None? ==> r.1 == t
    ensures user.Some? && (forall p :: p in t.products ==> p.id != productId) ==> r == (Redirect(Index), t)
    ensures r.1.users == t.users && r.1.products == t.products
  {
    if user.None? then (Redirect(Login), t)
    else match GetProduct(t.products, productId)
      case ManyRows => (Crash(MultipleResultsFound), t)
      case NoRow => (Redirect(Index), t)
      case OneRow(p) =>
        var (o, t1) := OpenOrder(t, user.value);
        if o.Err? then (Crash(o.failure), t1)
        else
          var (l, t2) := FindOrInsertLine(t1, o.value.id, p.id);
          if l.Err? then (Crash(l.failure), t2)
          else (Redirect(Index), SaveLine(t2, l.value.(quantity := l.value.quantity + 1, price := p.price)))
  }

  // ---------------------------------------------------------------------------
  // Steps the routes share
  // ---------------------------------------------------------------------------

  /** With one open order per user, get_or_create(Order) finds it or inserts a fresh one, keeping both invariants. */
  lemma OpenOrderKeeps(t: Tables, u: User)
    requires t.WellFormed() && t.Consistent()
    ensures var (r, t1) := OpenOrder(t, u);
      && r.Ok? && r.value in t1.orders && r.value.userId == u.id && !r.value.isClosed
      && t1.WellFormed() && t1.Consistent()
      && t1.users == t.users && t1.products == t.products && t1.lines == t.lines
      && t1.nextLineId == t.nextLineId
      && (GetOpenOrder(t.orders, u.id).OneRow? ==> r.value == GetOpenOrder(t.orders, u.id).row && t1 == t)
      && (GetOpenOrder(t.orders, u.id).NoRow? ==>
            r.value == Order(t.nextOrderId, u.id, false)
            && t1 == t.(orders := t.orders + [r.value], nextOrderId := t.nextOrderId + 1))
  {
    var p := OrderFilter(u.id, false);
    var (r, t1) := OpenOrder(t, u);
    var matches := Select(t.orders, p);
    if matches == [] {
      SelectEmpty(t.orders, p);
      var o := Order(t.nextOrderId, u.id, false);
      var orders := t.orders + [o];
      forall i, j | 0 <= i < j < |orders| && orders[i].userId == orders[j].userId
        ensures orders[i].isClosed || orders[j].isClosed
      {
        if j == |t.orders| {
          assert orders[i] == t.orders[i];
          assert t.orders[i] in t.orders;
        }
      }
    } else {
      assert r.value in matches;
    }
  }

  /** With one line per (order, product), get_or_create(OrderProduct) finds it or inserts a fresh one, keeping both invariants. */
  lemma OpenLineKeeps(t: Tables, orderId: int, productId: int)
    requires t.WellFormed() && t.Consistent()
    ensures var (r, t1) := FindOrInsertLine(t, orderId, productId);
      && r.Ok? && r.value.orderId == orderId && r.value.productId == productId
      && t1.WellFormed() && t1.Consistent()
      && t1.users == t.users && t1.products == t.products && t1.orders == t.orders
      && (forall k :: 0 <= k < |t.lines| && t.lines[k].orderId == orderId && t.lines[k].productId == productId ==>
            r.value == t.lines[k] && t1 == t)
      && ((forall l :: l in t.lines ==> l.orderId != orderId || l.productId != productId) ==>
            r.value == OrderProduct(t.nextLineId, orderId, productId, DefaultQuantity, DefaultPrice)
            && t1 == t.(lines := t.lines + [r.value], nextLineId := t.nextLineId + 1))
  {
    var p := LineFilter(orderId, productId);
    assert AtMostOneMatch(t.lines, p) by {
      forall i, j | 0 <= i < j < |t.lines| && p(t.lines[i])
        ensures !p(t.lines[j])
      {
        assert LinePair(t.lines[i]) != LinePair(t.lines[j]);
      }
    }
    var (r, t1) := FindOrInsertLine(t, orderId, productId);
    var matches := Select(t.lines, p);
    if matches == [] {
      SelectEmpty(t.lines, p);
      var row := OrderProduct(t.nextLineId, orderId, productId, DefaultQuantity, DefaultPrice);
      AppendNewKey(t.lines, row, LinePair);
      assert forall k :: 0 <= k < |t.lines| ==> t.lines[k] in t.lines;
    } else {
      assert r.value in matches;
      forall k | 0 <= k < |t.lines| && t.lines[k].orderId == orderId && t.lines[k].productId == productId
        ensures r.value == t.lines[k]
      {
        SelectOnly(t.lines, p, k);
      }
    }
  }

  /** The index of a row of s. */
  lemma IndexOf<T>(s: seq<T>, x: T) returns (k: int)
    requires x in s
    ensures 0 <= k < |s| && s[k] == x
  {
    k :| 0 <= k < |s| && s[k] == x;
  }

  /** Saving a changed line that keeps its id, order and product rewrites exactly its own row. */
  lemma SaveLineKeeps(t: Tables, k: int, row: OrderProduct)
    requires t.WellFormed() && t.Consistent()
    requires 0 <= k < |t.lines|
    requires row.id == t.lines[k].id && row.orderId == t.lines[k].orderId && row.productId == t.lines[k].productId
    ensures SaveLine(t, row) == t.(lines := t.lines[k := row])
    ensures SaveLine(t, row).WellFormed() && SaveLine(t, row).Consistent()
  {
    UniqueKeysAtMostOne(t.lines, LineId, row.id);
    UpdateOnly(t.lines, HasKey(LineId, row.id), Put(row), k);
    SetKeepsUniqueKeys(t.lines, k, row, LinePair);
  }

  /** Deleting a line keeps both invariants. */
  lemma DeleteOrderProductKeeps(t: Tables, lineId: int)
    requires t.WellFormed() && t.Consistent()
    ensures DeleteOrderProduct(t, lineId).WellFormed() && DeleteOrderProduct(t, lineId).Consistent()
  {
    SelectKeepsUniqueKeys(t.lines, Not(HasKey(LineId, lineId)), LinePair);
  }

  /** Saving an order as closed rewrites exactly its own row and keeps both invariants. */
  lemma CloseKeeps(t: Tables, k: int)
    requires t.WellFormed() && t.Consistent()
    requires 0 <= k < |t.orders|
    ensures var row := t.orders[k].(isClosed := true);
      SaveOrder(t, row) == t.(orders := t.orders[k := row])
      && SaveOrder(t, row).WellFormed() && SaveOrder(t, row).Consistent()
  {
    var row := t.orders[k].(isClosed := true);
    UniqueKeysAtMostOne(t.orders, OrderId, row.id);
    UpdateOnly(t.orders, HasKey(OrderId, row.id), Put(row), k);
    SetKeepsUniqueKeys(t.orders, k, row, OrderId);
  }

  /** The line get_order_product finds sits at some index of the table. */
  lemma FoundLine(lines: seq<OrderProduct>, orderId: int, lineId: int) returns (k: int)
    requires GetOrderProduct(lines, orderId, lineId).OneRow?
    ensures 0 <= k < |lines| && lines[k] == GetOrderProduct(lines, orderId, lineId).row
  {
    k := IndexOf(lines, GetOrderProduct(lines, orderId, lineId).row);
  }

  // ---------------------------------------------------------------------------
  // What the routes do
  // ---------------------------------------------------------------------------

  /** Without a current user no route touches the tables or queues mail. */
  lemma NoUserNoChange(t: Tables, lineId: int, productId: int)
    ensures ViewCart(t, None) == (Redirect(Index), t)
    ensures IncreaseQuantity(t, None, lineId) == (Redirect(CartView), t)
    ensures DecreaseQuantity(t, None, lineId) == (Redirect(CartView), t)
    ensures DeleteLine(t, None, lineId) == (Redirect(CartView), t)
    ensures CloseOrder(t, None) == (Redirect(Index), t, None)
    ensures AddToCart(t, None, productId) == (Redirect(Login), t)
  {
  }

  /** The cart page holds exactly the open order's positive lines, priced at 5% shipping. */
  lemma ViewCartKeeps(t: Tables, user: Option<User>)
    requires t.WellFormed() && t.Consistent()
    ensures !ViewCart(t, user).0.Crash?
    ensures ViewCart(t, user).1.WellFormed() && ViewCart(t, user).1.Consistent()
    ensures ViewCart(t, user).1.lines == t.lines
    ensures user.Some? ==>
      var o := OpenOrder(t, user.value).0.value;
      var page := ViewCart(t, user).0.page;
      && (forall l :: l in page.cart <==> l in t.lines && l.orderId == o.id && l.quantity > 0 && l.price > 0.0)
      && page.subtotal == Subtotal(page.cart)
      && (page.subtotal > 0.0 <==> page.cart != [])
      && page.shipping * 20.0 == page.subtotal
      && page.total == page.subtotal + page.shipping
  {
    if user.Some? {
      OpenOrderKeeps(t, user.value);
      var o := OpenOrder(t, user.value).0.value;
      var cart := FetchOrderProducts(t.lines, o.id);
      SubtotalPositive(cart);
    }
  }

  lemma IncreaseKeeps(t: Tables, user: Option<User>, lineId: int)
    requires t.WellFormed() && t.Consistent()
    ensures !IncreaseQuantity(t, user, lineId).0.Crash?
    ensures IncreaseQuantity(t, user, lineId).1.WellFormed() && IncreaseQuantity(t, user, lineId).1.Consistent()
  {
    if user.Some? {
      OpenOrderKeeps(t, user.value);
      var (o, t1) := OpenOrder(t, user.value);
      var found := GetOrderProduct(t1.lines, o.value.id, lineId);
      if found.OneRow? {
        var k := FoundLine(t1.lines, o.value.id, lineId);
        SaveLineKeeps(t1, k, found.row.(quantity := found.row.quantity + 1));
      }
    }
  }

  /** Increase adds one to the line with that id in the open order, and changes nothing else. */
  lemma IncreaseEffect(t: Tables, u: User, lineId: int)
    requires t.WellFormed() && t.Consistent()
    ensures
      var (o, t1) := (OpenOrder(t, u).0.value, OpenOrder(t, u).1);
      var r := IncreaseQuantity(t, Some(u), lineId).1;
      && r.users == t.users && r.products == t.products && r.orders == t1.orders
      && (forall k :: 0 <= k < |t.lines| && t.lines[k].id == lineId && t.lines[k].orderId == o.id ==>
            r.lines == t.lines[k := t.lines[k].(quantity := t.lines[k].quantity + 1)])
      && ((forall l :: l in t.lines ==> l.id != lineId || l.orderId != o.id) ==> r == t1)
  {
    OpenOrderKeeps(t, u);
    var (o, t1) := (OpenOrder(t, u).0.value, OpenOrder(t, u).1);
    forall k | 0 <= k < |t.lines| && t.lines[k].id == lineId && t.lines[k].orderId == o.id
      ensures IncreaseQuantity(t, Some(u), lineId).1.lines == t.lines[k := t.lines[k].(quantity := t.lines[k].quantity + 1)]
    {
      var j := FoundLine(t1.lines, o.id, lineId);
      assert j == k by {
        assert t.lines[j].id == t.lines[k].id;
      }
      SaveLineKeeps(t1, k, t.lines[k].(quantity := t.lines[k].quantity + 1));
    }
  }

  lemma DecreaseKeeps(t: Tables, user: Option<User>, lineId: int)
    requires t.WellFormed() && t.Consistent()
    ensures !DecreaseQuantity(t, user, lineId).0.Crash?
    ensures DecreaseQuantity(t, user, lineId).1.WellFormed() && DecreaseQuantity(t, user, lineId).1.Consistent()
  {
    if user.Some? {
      OpenOrderKeeps(t, user.value);
      var (o, t1) := OpenOrder(t, user.value);
      LowerLineKeeps(t1, o.value.id, lineId);
    }
  }

  /** Both ways decrease can store a found, positive line keep the invariants. */
  lemma LowerLineKeeps(t: Tables, orderId: int, lineId: int)
    requires t.WellFormed() && t.Consistent()
    ensures var found := GetOrderProduct(t.lines, orderId, lineId);
      found.OneRow? && found.row.quantity > 0 ==>
        && DeleteOrderProduct(t, lineId).WellFormed() && DeleteOrderProduct(t, lineId).Consistent()
        && SaveLine(t, found.row.(quantity := found.row.quantity - 1)).WellFormed()
        && SaveLine(t, found.row.(quantity := found.row.quantity - 1)).Consistent()
  {
    var found := GetOrderProduct(t.lines, orderId, lineId);
    if found.OneRow? && found.row.quantity > 0 {
      var k := FoundLine(t.lines, orderId, lineId);
      DeleteOrderProductKeeps(t, lineId);
      SaveLineKeeps(t, k, found.row.(quantity := found.row.quantity - 1));
    }
  }

  /** Decrease lowers a positive line by one, deletes it when that reaches 0, and otherwise changes nothing. */
  lemma DecreaseEffect(t: Tables, u: User, lineId: int)
    requires t.WellFormed() && t.Consistent()
    ensures
      var (o, t1) := (OpenOrder(t, u).0.value, OpenOrder(t, u).1);
      var r := DecreaseQuantity(t, Some(u), lineId).1;
      && r.users == t.users && r.products == t.products && r.orders == t1.orders
      && (forall k :: 0 <= k < |t.lines| && t.lines[k].id == lineId && t.lines[k].orderId == o.id ==>
            && (t.lines[k].quantity > 1 ==> r.lines == t.lines[k := t.lines[k].(quantity := t.lines[k].quantity - 1)])
            && (t.lines[k].quantity == 1 ==> r.lines == t.lines[..k] + t.lines[k + 1..])
            && (t.lines[k].quantity <= 0 ==> r == t1))
      && ((forall l :: l in t.lines ==> l.id != lineId || l.orderId != o.id) ==> r == t1)
  {
    OpenOrderKeeps(t, u);
    var o := OpenOrder(t, u).0.value;
    forall k | 0 <= k < |t.lines| && t.lines[k].id == lineId && t.lines[k].orderId == o.id {
      DecreaseAt(t, u, lineId, k);
    }
  }

  /** DecreaseEffect for the line at index k. */
  lemma DecreaseAt(t: Tables, u: User, lineId: int, k: int)
    requires t.WellFormed() && t.Consistent()
    requires 0 <= k < |t.lines| && t.lines[k].id == lineId && t.lines[k].orderId == OpenOrder(t, u).0.value.id
    ensures
      var r := DecreaseQuantity(t, Some(u), lineId).1;
      && (t.lines[k].quantity > 1 ==> r.lines == t.lines[k := t.lines[k].(quantity := t.lines[k].quantity - 1)])
      && (t.lines[k].quantity == 1 ==> r.lines == t.lines[..k] + t.lines[k + 1..])
      && (t.lines[k].quantity <= 0 ==> r == OpenOrder(t, u).1)
  {
    OpenOrderKeeps(t, u);
    var (o, t1) := (OpenOrder(t, u).0.value, OpenOrder(t, u).1);
    var j := FoundLine(t1.lines, o.id, lineId);
    assert j == k by {
      assert t.lines[j].id == t.lines[k].id;
    }
    var l := t.lines[k];
    if l.quantity > 1 {
      SaveLineKeeps(t1, k, l.(quantity := l.quantity - 1));
    } else if l.quantity == 1 {
      DeleteOrderProductExact(t1, lineId);
    }
  }

  lemma DeleteLineKeeps(t: Tables, user: Option<User>, lineId: int)
    requires t.WellFormed() && t.Consistent()
    ensures !DeleteLine(t, user, lineId).0.Crash?
    ensures DeleteLine(t, user, lineId).1.WellFormed() && DeleteLine(t, user, lineId).1.Consistent()
  {
    if user.Some? {
      OpenOrderKeeps(t, user.value);
      var (o, t1) := OpenOrder(t, user.value);
      DeleteOrderProductKeeps(t1, lineId);
    }
  }

  /** Delete removes exactly the line with that id in the open order, and nothing when there is none. */
  lemma DeleteLineEffect(t: Tables, u: User, lineId: int)
    requires t.WellFormed() && t.Consistent()
    ensures
      var (o, t1) := (OpenOrder(t, u).0.value, OpenOrder(t, u).1);
      var r := DeleteLine(t, Some(u), lineId).1;
      && r.users == t.users && r.products == t.products && r.orders == t1.orders
      && (forall k :: 0 <= k < |t.lines| && t.lines[k].id == lineId && t.lines[k].orderId == o.id ==>
            r.lines == t.lines[..k] + t.lines[k + 1..])
      && ((forall l :: l in t.lines ==> l.id != lineId || l.orderId != o.id) ==> r == t1)
  {
    OpenOrderKeeps(t, u);
    var (o, t1) := (OpenOrder(t, u).0.value, OpenOrder(t, u).1);
    forall k | 0 <= k < |t.lines| && t.lines[k].id == lineId && t.lines[k].orderId == o.id
      ensures DeleteLine(t, Some(u), lineId).1.lines == t.lines[..k] + t.lines[k + 1..]
    {
      assert t.lines[k] in t.lines;
      DeleteOrderProductExact(t1, lineId);
    }
  }

  lemma CloseOrderKeeps(t: Tables, user: Option<User>)
    requires t.WellFormed() && t.Consistent()
    ensures !CloseOrder(t, user).0.Crash?
    ensures CloseOrder(t, user).1.WellFormed() && CloseOrder(t, user).1.Consistent()
  {
    if user.Some? {
      OpenOrderKeeps(t, user.value);
      var (o, t1) := OpenOrder(t, user.value);
      var k := IndexOf(t1.orders, o.value);
      CloseKeeps(t1, k);
    }
  }

  /**
    Closing an order with a non-empty cart closes exactly that order and queues exactly
    one notice for it; with an empty cart nothing is closed and nothing queued.
  */
  lemma CloseOrderEffect(t: Tables, u: User)
    requires t.WellFormed() && t.Consistent()
    ensures
      var (o, t1) := (OpenOrder(t, u).0.value, OpenOrder(t, u).1);
      var cart := FetchOrderProducts(t.lines, o.id);
      var (_, r, notice) := CloseOrder(t, Some(u));
      && r.users == t.users && r.products == t.products && r.lines == t.lines
      && (cart == [] ==> r == t1 && notice == None)
      && (cart != [] ==>
            && notice == Some(Notice(u.email, u.name, o.(isClosed := true), cart))
            && |r.orders| == |t1.orders|
            && (forall k :: 0 <= k < |t1.orders| && t1.orders[k].id == o.id ==>
                  r.orders == t1.orders[k := o.(isClosed := true)])
            && GetOpenOrder(r.orders, u.id).NoRow?)
  {
    OpenOrderKeeps(t, u);
    var (o, t1) := (OpenOrder(t, u).0.value, OpenOrder(t, u).1);
    var k := IndexOf(t1.orders, o);
    CloseKeeps(t1, k);
    var r := CloseOrder(t, Some(u)).1;
    if FetchOrderProducts(t.lines, o.id) != [] {
      forall j | 0 <= j < |t1.orders| && t1.orders[j].id == o.id
        ensures j == k
      {
        assert t1.orders[j].id == t1.orders[k].id;
      }
      forall x | x in r.orders
        ensures x.userId != u.id || x.isClosed
      {
        var i := IndexOf(r.orders, x);
        if i != k {
          assert x == t1.orders[i];
          assert t1.orders[i].userId == t1.orders[k].userId ==> t1.orders[i].isClosed;
        }
      }
    }
  }

  /** After an order is closed, the next cart access opens a fresh order with a new id. */
  lemma ReopenAfterClose(t: Tables, u: User)
    requires t.WellFormed() && t.Consistent()
    requires FetchOrderProducts(t.lines, OpenOrder(t, u).0.value.id) != []
    ensures
      var o := OpenOrder(t, u).0.value;
      var r := CloseOrder(t, Some(u)).1;
      && OpenOrder(r, u).0 == Ok(Order(r.nextOrderId, u.id, false))
      && OpenOrder(r, u).1.orders == r.orders + [Order(r.nextOrderId, u.id, false)]
      && r.nextOrderId != o.id
  {
    CloseOrderEffect(t, u);
    CloseOrderKeeps(t, Some(u));
    var r := CloseOrder(t, Some(u)).1;
    OpenOrderKeeps(r, u);
    OpenOrderKeeps(t, u);
    var o := OpenOrder(t, u).0.value;
    var t1 := OpenOrder(t, u).1;
    var k := IndexOf(t1.orders, o);
    assert OrderId(t1.orders[k]) < t1.nextOrderId;
  }

  lemma AddToCartKeeps(t: Tables, user: Option<User>, productId: int)
    requires t.WellFormed() && t.Consistent()
    ensures !AddToCart(t, user, productId).0.Crash?
    ensures AddToCart(t, user, productId).1.WellFormed() && AddToCart(t, user, productId).1.Consistent()
    ensures (forall p :: p in t.products ==> p.id != productId) ==> AddToCart(t, user, productId) == (Redirect(Index), t) || user.None?
  {
    if user.Some? && GetProduct(t.products, productId).OneRow? {
      AddFoundKeeps(t, user.value, GetProduct(t.products, productId).row);
    }
  }

  /** The add-to-cart steps for a product that was found: open order, its line, the saved line. */
  lemma AddFoundKeeps(t: Tables, u: User, p: Product)
    requires t.WellFormed() && t.Consistent()
    ensures var (o, t1) := OpenOrder(t, u);
      && o.Ok? && FindOrInsertLine(t1, o.value.id, p.id).0.Ok?
      && var (l, t2) := FindOrInsertLine(t1, o.value.id, p.id);
      && var r := SaveLine(t2, l.value.(quantity := l.value.quantity + 1, price := p.price));
      r.WellFormed() && r.Consistent()
  {
    OpenOrderKeeps(t, u);
    var (o, t1) := OpenOrder(t, u);
    OpenLineKeeps(t1, o.value.id, p.id);
    var (l, t2) := FindOrInsertLine(t1, o.value.id, p.id);
    var k := IndexOf(t2.lines, l.value);
    SaveLineKeeps(t2, k, l.value.(quantity := l.value.quantity + 1, price := p.price));
  }

  /**
    Adding a product (soft-deleted or not) gets the one line for (open order, product),
    raises its quantity by exactly one and stores the product's current price in it;
    every other line is left as it was.
  */
  lemma AddToCartEffect(t: Tables, u: User, j: int)
    requires t.WellFormed() && t.Consistent()
    requires 0 <= j < |t.products|
    ensures
      var p := t.products[j];
      var (o, t1) := (OpenOrder(t, u).0.value, OpenOrder(t, u).1);
      var r := AddToCart(t, Some(u), p.id).1;
      && r.users == t.users && r.products == t.products && r.orders == t1.orders
      && (forall k :: 0 <= k < |t.lines| && t.lines[k].orderId == o.id && t.lines[k].productId == p.id ==>
            r.lines == t.lines[k := t.lines[k].(quantity := t.lines[k].quantity + 1, price := p.price)])
      && ((forall l :: l in t.lines ==> l.orderId != o.id || l.productId != p.id) ==>
            r.lines == t.lines + [OrderProduct(t.nextLineId, o.id, p.id, DefaultQuantity + 1, p.price)]
            && r.nextLineId == t.nextLineId + 1)
  {
    var p := t.products[j];
    var o := OpenOrder(t, u).0.value;
    AddToCartSaves(t, u, j);
    forall k | 0 <= k < |t.lines| && t.lines[k].orderId == o.id && t.lines[k].productId == p.id
      ensures AddToCart(t, Some(u), p.id).1.lines ==
        t.lines[k := t.lines[k].(quantity := t.lines[k].quantity + 1, price := p.price)]
    {
      AddToCartHit(t, u, j, k);
    }
    if forall l :: l in t.lines ==> l.orderId != o.id || l.productId != p.id {
      AddToCartMiss(t, u, j);
    }
  }

  /** The add-to-cart steps for the product at index j, spelled out, and what they leave alone. */
  lemma AddToCartSaves(t: Tables, u: User, j: int)
    requires t.WellFormed() && t.Consistent()
    requires 0 <= j < |t.products|
    ensures
      var p := t.products[j];
      var (o, t1) := (OpenOrder(t, u).0.value, OpenOrder(t, u).1);
      var (l, t2) := (FindOrInsertLine(t1, o.id, p.id).0.value, FindOrInsertLine(t1, o.id, p.id).1);
      var r := AddToCart(t, Some(u), p.id).1;
      && r == SaveLine(t2, l.(quantity := l.quantity + 1, price := p.price))
      && r.users == t.users && r.products == t.products && r.orders == t1.orders
  {
    var p := t.products[j];
    FoundProduct(t, j);
    OpenOrderKeeps(t, u);
    var (o, t1) := (OpenOrder(t, u).0.value, OpenOrder(t, u).1);
    OpenLineKeeps(t1, o.id, p.id);
  }

  /** Adding a product whose line (index k) exists rewrites that line alone. */
  lemma AddToCartHit(t: Tables, u: User, j: int, k: int)
    requires t.WellFormed() && t.Consistent()
    requires 0 <= j < |t.products| && 0 <= k < |t.lines|
    requires t.lines[k].orderId == OpenOrder(t, u).0.value.id && t.lines[k].productId == t.products[j].id
    ensures AddToCart(t, Some(u), t.products[j].id).1.lines ==
      t.lines[k := t.lines[k].(quantity := t.lines[k].quantity + 1, price := t.products[j].price)]
  {
    var p := t.products[j];
    OpenOrderKeeps(t, u);
    var (o, t1) := (OpenOrder(t, u).0.value, OpenOrder(t, u).1);
    OpenLineKeeps(t1, o.id, p.id);
    var (l, t2) := (FindOrInsertLine(t1, o.id, p.id).0.value, FindOrInsertLine(t1, o.id, p.id).1);
    AddToCartSaves(t, u, j);
    SaveLineKeeps(t2, k, l.(quantity := l.quantity + 1, price := p.price));
  }

  /** Adding a product without a line appends one of quantity one. */
  lemma AddToCartMiss(t: Tables, u: User, j: int)
    requires t.WellFormed() && t.Consistent()
    requires 0 <= j < |t.products|
    requires forall l :: l in t.lines ==> l.orderId != OpenOrder(t, u).0.value.id || l.productId != t.products[j].id
    ensures
      var r := AddToCart(t, Some(u), t.products[j].id).1;
      && r.lines == t.lines + [OrderProduct(t.nextLineId, OpenOrder(t, u).0.value.id, t.products[j].id,
                                            DefaultQuantity + 1, t.products[j].price)]
      && r.nextLineId == t.nextLineId + 1
  {
    var p := t.products[j];
    OpenOrderKeeps(t, u);
    var (o, t1) := (OpenOrder(t, u).0.value, OpenOrder(t, u).1);
    OpenLineKeeps(t1, o.id, p.id);
    var (l, t2) := (FindOrInsertLine(t1, o.id, p.id).0.value, FindOrInsertLine(t1, o.id, p.id).1);
    AddToCartSaves(t, u, j);
    SaveLineKeeps(t2, |t.lines|, l.(quantity := l.quantity + 1, price := p.price));
  }

  /** get_product finds the product at index j. */
  lemma FoundProduct(t: Tables, j: int)
    requires t.WellFormed() && 0 <= j < |t.products|
    ensures GetProduct(t.products, t.products[j].id) == OneRow(t.products[j])
  {
    var p := t.products[j];
    UniqueKeysAtMostOne(t.products, ProductId, p.id);
    SelectOnly(t.products, HasKey(ProductId, p.id), j);
  }

  /** An open order of the user is the one get_open_order finds, and get_or_create(Order) returns it unchanged. */
  lemma OpenOrderFound(t: Tables, u: User, o: Order)
    requires t.WellFormed() && t.Consistent()
    requires o in t.orders && o.userId == u.id && !o.isClosed
    ensures OpenOrder(t, u) == (Ok(o), t)
  {
    var found := GetOpenOrder(t.orders, u.id);
    assert !found.NoRow?;
    var i := IndexOf(t.orders, found.row);
    var j := IndexOf(t.orders, o);
    assert t.orders[i] == found.row && t.orders[j] == o;
    OpenOrderKeeps(t, u);
  }

  /** After one add the user's open order is unchanged, so a second add goes to the same order. */
  lemma SecondAddSameOrder(t: Tables, u: User, j: int)
    requires t.WellFormed() && t.Consistent()
    requires 0 <= j < |t.products|
    ensures
      var r1 := AddToCart(t, Some(u), t.products[j].id).1;
      && r1.WellFormed() && r1.Consistent() && r1.products == t.products
      && OpenOrder(r1, u) == (OpenOrder(t, u).0, r1)
  {
    var p := t.products[j];
    OpenOrderKeeps(t, u);
    AddToCartSaves(t, u, j);
    AddToCartKeeps(t, Some(u), p.id);
    OpenOrderFound(AddToCart(t, Some(u), p.id).1, u, OpenOrder(t, u).0.value);
  }

  /** Adding a product twice raises its existing line by two, at the product's price. */
  lemma AddToCartTwiceHit(t: Tables, u: User, j: int, k: int)
    requires t.WellFormed() && t.Consistent()
    requires 0 <= j < |t.products| && 0 <= k < |t.lines|
    requires t.lines[k].orderId == OpenOrder(t, u).0.value.id && t.lines[k].productId == t.products[j].id
    ensures
      var p := t.products[j];
      var r := AddToCart(AddToCart(t, Some(u), p.id).1, Some(u), p.id).1;
      r.lines == t.lines[k := t.lines[k].(quantity := t.lines[k].quantity + 2, price := p.price)]
  {
    var p := t.products[j];
    AddToCartHit(t, u, j, k);
    SecondAddSameOrder(t, u, j);
    AddToCartHit(AddToCart(t, Some(u), p.id).1, u, j, k);
  }

  /** Adding a product twice to a cart without it appends one line of quantity two. */
  lemma AddToCartTwiceMiss(t: Tables, u: User, j: int)
    requires t.WellFormed() && t.Consistent()
    requires 0 <= j < |t.products|
    requires forall l :: l in t.lines ==> l.orderId != OpenOrder(t, u).0.value.id || l.productId != t.products[j].id
    ensures
      var p := t.products[j];
      var r := AddToCart(AddToCart(t, Some(u), p.id).1, Some(u), p.id).1;
      r.lines == t.lines + [OrderProduct(t.nextLineId, OpenOrder(t, u).0.value.id, p.id, DefaultQuantity + 2, p.price)]
  {
    var p := t.products[j];
    AddToCartMiss(t, u, j);
    SecondAddSameOrder(t, u, j);
    var r1 := AddToCart(t, Some(u), p.id).1;
    AddToCartHit(r1, u, j, |t.lines|);
    assert r1.lines[|t.lines|].quantity == DefaultQuantity + 1;
  }
}
