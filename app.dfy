/**
 * The shop front end's order handling: the session cart and the shared store holding the
 * library and the order ledger. Each handler of the user and admin views is a method here,
 * proved against the definitions of module Orders.
 */
module App {
  import opened Wrappers
  import opened Inventory
  import opened Orders
  import LibraryCore
  import Text

  /** `st.session_state.cart`: the customer's name and the items dictionary `{book_id: qty}`. */
  class Cart {
    var customer: string
    var items: seq<Line>

    /** The items form a dictionary: no book id twice. */
    ghost predicate Valid()
      reads this
    {
      DistinctIds(items)
    }

    /** `{"customer": customer, "items": {}}`. */
    constructor (customer: string)
      ensures Valid() && this.customer == customer && items == []
    {
      this.customer := customer;
      items := [];
    }

    /** `st.session_state.cart = {"customer": customer, "items": {}}` after an order is placed. */
    method Clear(customer: string)
      modifies this
      ensures Valid() && this.customer == customer && items == []
    {
      this.customer := customer;
      items := [];
    }

    /** "Add to cart": `items[book_id] = items.get(book_id, 0) + qty`. */
    method Add(bookId: string, qty: int)
      requires Valid()
      modifies this
      ensures Valid() && customer == old(customer)
      ensures items == AddQty(old(items), bookId, qty)
      ensures Lookup(items, bookId) == Some(Lookup(old(items), bookId).GetOr(0) + qty)
      ensures forall j :: j != bookId ==> Lookup(items, j) == Lookup(old(items), j)
    {
      ghost var before := items;
      items := AddQty(items, bookId, qty);
      forall j | j != bookId
        ensures Lookup(items, j) == Lookup(before, j)
      {
        AddQtyLookup(before, bookId, qty, j);
      }
      AddQtyLookup(before, bookId, qty, bookId);
    }

    /** "Remove", and the pruning of unknown books: `items.pop(book_id, None)`. */
    method Remove(bookId: string)
      requires Valid()
      modifies this
      ensures Valid() && customer == old(customer)
      ensures items == RemoveKey(old(items), bookId)
      ensures Lookup(items, bookId).None?
      ensures forall j :: j != bookId ==> Lookup(items, j) == Lookup(old(items), j)
    {
      RemoveKeyLookup(items, bookId);
      items := RemoveKey(items, bookId);
    }
  }

  /** Every line of a placed order asks for at least one copy. */
  predicate PositiveLines(items: seq<Line>) {
    forall k :: 0 <= k < |items| ==> items[k].qty > 0
  }

  predicate OrderLinesOk(os: seq<Order>) {
    forall k :: 0 <= k < |os| ==> PositiveLines(os[k].items)
  }

  /** The shared `store`: the library and the ledger `store["orders"]`. */
  class Store {
    const lib: LibraryCore.Library
    var orders: seq<Order>

    /**
     * The library keeps its own invariant, the orders are numbered in the order they
     * were placed, and every order line holds a positive quantity.
     */
    ghost predicate Valid()
      reads this, lib, lib.books.Values
    {
      lib.Valid() && IdsOk(orders) && OrderLinesOk(orders)
    }

    constructor (lib: LibraryCore.Library)
      requires lib.Valid()
      ensures Valid() && this.lib == lib && orders == []
    {
      this.lib := lib;
      orders := [];
    }

    /** `find_order_index`: `None` for an empty id, otherwise the first order with that id. */
    method FindOrderIndex(orderId: string) returns (r: Option<nat>)
      ensures r == IndexOf(orders, orderId)
      ensures r.Some? ==> r.value < |orders| && orders[r.value].orderId == orderId
      ensures r.None? <==> orderId == "" || forall k :: 0 <= k < |orders| ==> orders[k].orderId != orderId
    {
      PositionFirst(orders, orderId);
      if orderId == "" {
        return None;
      }
      var i := 0;
      while i < |orders|
        invariant 0 <= i <= |orders|
        invariant forall j :: 0 <= j < i ==> orders[j].orderId != orderId
      {
        if orders[i].orderId == orderId {
          return Some(i);
        }
        i := i + 1;
      }
      return None;
    }

    /** `order_total`: price times quantity over the lines whose book still exists. */
    method OrderTotal(items: seq<Line>) returns (total: int)
      ensures total == LinesTotal(lib.State(), items)
    {
      total := 0;
      var i := 0;
      while i < |items|
        invariant 0 <= i <= |items|
        invariant total == LinesTotal(lib.State(), items[..i])
      {
        var l := items[i];
        assert items[..i + 1][..i] == items[..i];
        if l.bookId in lib.books {
          total := total + lib.books[l.bookId].price * l.qty;
        }
        i := i + 1;
      }
      assert items[..|items|] == items;
    }

    /** `items_summary_no_lock`: `"title xq"` per line, joined by ", ", and the total quantity. */
    method ItemsSummary(items: seq<Line>) returns (summary: string, totalQty: int)
      ensures (summary, totalQty) == Summary(lib.State(), items)
    {
      var parts: seq<string> := [];
      totalQty := 0;
      var i := 0;
      while i < |items|
        invariant 0 <= i <= |items|
        invariant parts == Parts(lib.State(), items[..i])
        invariant totalQty == SumQty(items[..i])
      {
        var l := items[i];
        assert items[..i + 1][..i] == items[..i];
        var title := if l.bookId in lib.books then lib.books[l.bookId].title else l.bookId;
        var part := title + " x" + Text.IntToString(l.qty);
        assert part == Part(lib.State(), l);
        PartsStep(lib.State(), items, i);
        parts := parts + [part];
        totalQty := totalQty + l.qty;
        i := i + 1;
      }
      assert items[..|items|] == items;
      summary := Text.Join(parts, ", ");
    }

    /**
     * The cart view's loop over `list(items.items())`: entries whose book is no longer in
     * the library are popped, the others stay in their order. The total shown beside the
     * cart, computed before the loop, is unaffected.
     */
    method PruneCart(cart: Cart)
      requires cart.Valid()
      modifies cart
      ensures cart.Valid() && cart.customer == old(cart.customer)
      ensures cart.items == KeepKnown(old(cart.items), lib.State())
      ensures LinesTotal(lib.State(), cart.items) == LinesTotal(lib.State(), old(cart.items))
    {
      var snap := cart.items;
      ghost var st := lib.State();
      var i := 0;
      while i < |snap|
        invariant 0 <= i <= |snap|
        invariant cart.Valid() && cart.customer == old(cart.customer)
        invariant cart.items == KeepKnown(snap[..i], st) + snap[i..]
      {
        var bookId := snap[i].bookId;
        if bookId !in lib.books {
          DropLoopStep(snap, st, i);
          cart.Remove(bookId);
        } else {
          KeepLoopStep(snap, st, i);
        }
        i := i + 1;
      }
      assert snap[..|snap|] == snap;
      lib.Untouched();
      LinesTotalKnown(st, snap);
    }

    /**
     * "Place Order (Confirm)": the form is shown only for a non-empty cart; the total is
     * taken and the cart pruned as the view renders, then the purchase decides (see
     * `Checkout`).
     */
    method PlaceOrder(customer: string, userId: string, cart: Cart) returns (ok: bool, msg: string)
      requires Valid() && cart.Valid()
      modifies this, lib.books.Values, cart
      ensures Valid() && cart.Valid()
      ensures old(cart.items) == [] ==>
        !ok && msg == "Cart is empty." && orders == old(orders) && lib.State() == old(lib.State()) &&
        cart.items == old(cart.items) && cart.customer == old(cart.customer)
      ensures old(cart.items) != [] ==>
        var placed := KeepKnown(old(cart.items), old(lib.State()));
        ok == CheckPurchase(old(lib.State()), placed).0 &&
        if ok then
          orders == old(orders) + [Order(OrderId(|old(orders)| + 1), customer, userId, placed,
                                         PendingPayment, LinesTotal(old(lib.State()), old(cart.items)), "")] &&
          lib.State() == Purchased(old(lib.State()), placed) &&
          cart.items == [] && cart.customer == customer && msg == Created(OrderId(|old(orders)| + 1))
        else
          orders == old(orders) && lib.State() == old(lib.State()) &&
          cart.items == placed && cart.customer == old(cart.customer) &&
          msg == CheckPurchase(old(lib.State()), placed).1
      ensures ok ==> orders[|orders| - 1].totalCents == LinesTotal(lib.State(), orders[|orders| - 1].items)
      ensures StockOk(old(lib.State())) ==> StockOk(lib.State())
    {
      if cart.items == [] {
        return false, "Cart is empty.";
      }
      ghost var st := lib.State();
      var total := OrderTotal(cart.items);
      label start:
      PruneCart(cart);
      lib.Untouched@start();
      var placed := cart.items;
      assert placed == KeepKnown(old(cart.items), st);
      ok, msg := Checkout(customer, userId, placed, total);
      if ok {
        label placed:
        cart.Clear(customer);
        lib.Untouched@placed();
      }
    }

    /**
     * The purchase and the order record: only a successful purchase appends the order,
     * numbered after the ledger, pending payment and with no note; a refused one changes
     * neither ledger nor stock. The recorded total is what the items cost afterwards too.
     */
    method Checkout(customer: string, userId: string, items: seq<Line>, total: int) returns (ok: bool, msg: string)
      requires Valid()
      modifies this, lib.books.Values
      ensures Valid()
      ensures ok == CheckPurchase(old(lib.State()), items).0
      ensures ok ==>
        orders == old(orders) + [Order(OrderId(|old(orders)| + 1), customer, userId, items, PendingPayment, total, "")] &&
        lib.State() == Purchased(old(lib.State()), items) && msg == Created(OrderId(|old(orders)| + 1))
      ensures !ok ==>
        orders == old(orders) && lib.State() == old(lib.State()) && msg == CheckPurchase(old(lib.State()), items).1
      ensures ok ==> LinesTotal(lib.State(), items) == LinesTotal(old(lib.State()), items)
      ensures StockOk(old(lib.State())) ==> StockOk(lib.State())
    {
      ghost var st := lib.State();
      ok, msg := lib.Purchase(items);
      if !ok {
        return;
      }
      assert AllSellable(st, items);
      assert PositiveLines(items) by {
        forall k | 0 <= k < |items| ensures items[k].qty > 0 {
          assert Sellable(st, items[k]);
        }
      }
      LinesTotalStockMoves(st, items, items);
      label bought:
      var orderId := AppendOrder(customer, userId, items, total);
      lib.Untouched@bought();
      msg := Created(orderId);
    }

    /** `store["orders"].append(...)`: the new order is numbered after the ledger. */
    method AppendOrder(customer: string, userId: string, items: seq<Line>, total: int) returns (orderId: string)
      requires Valid() && PositiveLines(items)
      modifies this
      ensures Valid()
      ensures orderId == OrderId(|old(orders)| + 1)
      ensures orders == old(orders) + [Order(orderId, customer, userId, items, PendingPayment, total, "")]
    {
      orderId := OrderId(|orders| + 1);
      orders := orders + [Order(orderId, customer, userId, items, PendingPayment, total, "")];
    }

    /** Sets the status of the `k`-th order. */
    method SetStatus(k: nat, status: Status)
      requires Valid() && k < |orders|
      modifies this
      ensures Valid()
      ensures orders == old(orders)[k := old(orders)[k].(status := status)]
    {
      IdsOkUpdate(orders, k, orders[k].(status := status));
      orders := orders[k := orders[k].(status := status)];
    }

    /**
     * "Pay Now for <order>": the button is enabled only on a pending order, which then
     * becomes paid; an unknown id or any other status changes nothing.
     */
    method Pay(orderId: string) returns (done: bool)
      requires Valid()
      modifies this
      ensures Valid()
      ensures var k := IndexOf(old(orders), orderId);
              (done <==> k.Some? && old(orders)[k.value].status == PendingPayment) &&
              orders == if done then old(orders)[k.value := old(orders)[k.value].(status := Paid)] else old(orders)
    {
      var k := FindOrderIndex(orderId);
      if k.None? || orders[k.value].status != PendingPayment {
        return false;
      }
      SetStatus(k.value, Paid);
      return true;
    }

    /**
     * "Mark Delivered": the button is enabled only on a paid order, which then becomes
     * delivered; an unknown id or any other status changes nothing.
     */
    method Deliver(orderId: string) returns (done: bool)
      requires Valid()
      modifies this
      ensures Valid()
      ensures var k := IndexOf(old(orders), orderId);
              (done <==> k.Some? && old(orders)[k.value].status == Paid) &&
              orders == if done then old(orders)[k.value := old(orders)[k.value].(status := Delivered)] else old(orders)
    {
      var k := FindOrderIndex(orderId);
      if k.None? || orders[k.value].status != Paid {
        return false;
      }
      SetStatus(k.value, Delivered);
      return true;
    }

    /**
     * "Send payment reminder": only the order's note changes, to a message naming the
     * order; its status and items stay as they are.
     */
    method Remind(orderId: string) returns (done: bool)
      requires Valid()
      modifies this
      ensures Valid()
      ensures var k := IndexOf(old(orders), orderId);
              (done <==> k.Some?) &&
              orders == if done then old(orders)[k.value := old(orders)[k.value].(adminNote := Reminder(orderId))] else old(orders)
      ensures done ==> var k := IndexOf(old(orders), orderId).value;
                       orders[k].status == old(orders)[k].status && orders[k].items == old(orders)[k].items &&
                       Text.Contains(orders[k].adminNote, orderId)
    {
      var k := FindOrderIndex(orderId);
      if k.None? {
        return false;
      }
      var i := k.value;
      IdsOkUpdate(orders, i, orders[i].(adminNote := Reminder(orders[i].orderId)));
      orders := orders[i := orders[i].(adminNote := Reminder(orders[i].orderId))];
      return true;
    }

    /**
     * "Cancel (Restock)" as written: whatever the order's status, it is marked cancelled
     * and its items are handed to `restock`, so pressing it again restocks again.
     */
    method Cancel(orderId: string) returns (done: bool)
      requires Valid()
      modifies this, lib.books.Values
      ensures Valid()
      ensures var k := IndexOf(old(orders), orderId);
              (done <==> k.Some?) &&
              if done then (orders, lib.State()) == CancelAt(old(orders), old(lib.State()), k.value)
              else orders == old(orders) && lib.State() == old(lib.State())
      ensures StockOk(old(lib.State())) ==> StockOk(lib.State())
    {
      var k := FindOrderIndex(orderId);
      if k.None? {
        return false;
      }
      Restore(k.value);
      return true;
    }

    /**
     * Cancellation with the kind of guard "Mark Delivered" already has (only a paid order
     * can be delivered): only a pending or paid order is cancelled and restocked; a
     * delivered or cancelled one is refused unchanged, so no order is restocked twice.
     */
    method CancelGuarded(orderId: string) returns (done: bool)
      requires Valid()
      modifies this, lib.books.Values
      ensures Valid()
      ensures var k := IndexOf(old(orders), orderId);
              if k.Some? then (done, orders, lib.State()) == GuardedCancelAt(old(orders), old(lib.State()), k.value)
              else !done && orders == old(orders) && lib.State() == old(lib.State())
      ensures StockOk(old(lib.State())) ==> StockOk(lib.State())
    {
      var k := FindOrderIndex(orderId);
      if k.None? || !Cancellable(orders[k.value].status) {
        return false;
      }
      Restore(k.value);
      return true;
    }

    /** Marks the `k`-th order cancelled and restocks a copy of its items. */
    method Restore(k: nat)
      requires Valid() && k < |orders|
      modifies this, lib.books.Values
      ensures Valid()
      ensures (orders, lib.State()) == CancelAt(old(orders), old(lib.State()), k)
      ensures StockOk(old(lib.State())) ==> StockOk(lib.State())
    {
      var items := orders[k].items;
      label start:
      SetStatus(k, CancelledRestocked);
      lib.Untouched@start();
      assert forall j :: 0 <= j < |items| ==> items[j].qty >= 0 by {
        assert PositiveLines(old(orders)[k].items);
      }
      var _ := lib.Restock(items);
    }

    /** `orders_view_rows`: one row per order, in ledger order. */
    method ViewRows() returns (rows: seq<Row>)
      ensures |rows| == |orders|
      ensures forall k :: 0 <= k < |orders| ==> rows[k] == RowOf(lib.State(), orders[k])
    {
      rows := [];
      var i := 0;
      while i < |orders|
        invariant 0 <= i <= |orders|
        invariant |rows| == i
        invariant forall k :: 0 <= k < i ==> rows[k] == RowOf(lib.State(), orders[k])
      {
        var o := orders[i];
        var summary, qty := ItemsSummary(o.items);
        rows := rows + [Row(o.orderId, o.customer, o.userId, summary, qty, o.status, o.totalCents)];
        i := i + 1;
      }
    }

    /** `generate_user_id`: numbered after the orders placed so far. */
    function GenerateUserId(name: string): (r: string)
      reads this
      ensures r == UserBase(name) + "-" + Text.ZeroPad5(|orders| + 1)
      ensures var b := UserBase(name);
              |r| >= |b| + 6 && r[..|b|] == b && r[|b|] == '-'
              && (forall k :: |b| + 1 <= k < |r| ==> Text.IsDigit(r[k]))
              && Text.ParseNat(r[|b| + 1..]) == |orders| + 1
    {
      UserIdParts(name, |orders| + 1);
      UserId(name, |orders| + 1)
    }
  }
}
