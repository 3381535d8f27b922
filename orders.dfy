/**
 * The order ledger of the shop front end, as values: order and user ids, the statuses an
 * order moves through, the cart's items dictionary, order totals and item summaries.
 * The `Store` class of module App is proved against these definitions.
 */
module Orders {
  import opened Wrappers
  import opened Inventory
  import Text

  // ---------------------------------------------------------------------
  // Statuses
  // ---------------------------------------------------------------------

  datatype Status = PendingPayment | Paid | Delivered | CancelledRestocked

  /** The text stored in an order's `status` field. */
  function Label(s: Status): string {
    match s
    case PendingPayment => "PENDING_PAYMENT"
    case Paid => "PAID"
    case Delivered => "DELIVERED"
    case CancelledRestocked => "CANCELLED (RESTOCKED)"
  }

  /** Each status is stored under its own label. */
  lemma LabelInjective(a: Status, b: Status)
    ensures Label(a) == Label(b) <==> a == b
  {
    if a != b {
      assert Label(a)[0] != Label(b)[0] || Label(a)[1] != Label(b)[1];
    }
  }

  /** The buttons of the two order views. */
  datatype Action = PayNow | MarkDelivered | Cancel

  /**
   * What pressing a button does to an order's status, `None` when the button is disabled:
   * "Pay Now" only on a pending order, "Mark Delivered" only on a paid one, and
   * "Cancel (Restock)" on any order at all.
   */
  function Step(s: Status, a: Action): Option<Status> {
    match a
    case PayNow => if s == PendingPayment then Some(Paid) else None
    case MarkDelivered => if s == Paid then Some(Delivered) else None
    case Cancel => Some(CancelledRestocked)
  }

  /** Cancelling is meant for orders that are not finished yet. */
  predicate Cancellable(s: Status) {
    s == PendingPayment || s == Paid
  }

  /** `Step` with cancellation refused once an order is delivered or cancelled. */
  function GuardedStep(s: Status, a: Action): Option<Status> {
    if a == Cancel && !Cancellable(s) then None else Step(s, a)
  }

  /** Position of a status along the order's life. */
  function Rank(s: Status): nat {
    match s
    case PendingPayment => 0
    case Paid => 1
    case Delivered => 2
    case CancelledRestocked => 3
  }

  /** The status after a run of button presses; a disabled button changes nothing. */
  function Run(s: Status, presses: seq<Action>, guarded: bool): Status {
    if presses == [] then s
    else
      var t := Run(s, presses[..|presses| - 1], guarded);
      var next := if guarded then GuardedStep(t, presses[|presses| - 1]) else Step(t, presses[|presses| - 1]);
      next.GetOr(t)
  }

  /** Only a pending order can be paid and only a paid order can be delivered. */
  lemma StepTargets(s: Status, a: Action)
    ensures Step(s, a) == Some(Paid) <==> s == PendingPayment && a == PayNow
    ensures Step(s, a) == Some(Delivered) <==> s == Paid && a == MarkDelivered
    ensures Step(s, a) == Some(CancelledRestocked) <==> a == Cancel
    ensures Step(s, a) != Some(PendingPayment)
  {
  }

  /** No button moves an order backwards, guarded or not. */
  lemma {:induction false} RunForward(s: Status, presses: seq<Action>, guarded: bool)
    ensures Rank(s) <= Rank(Run(s, presses, guarded))
    ensures s != PendingPayment ==> Run(s, presses, guarded) != PendingPayment
  {
    if presses != [] {
      RunForward(s, presses[..|presses| - 1], guarded);
    }
  }

  /** With the guard, delivered and cancelled orders never change again. */
  lemma {:induction false} GuardedTerminal(s: Status, presses: seq<Action>)
    requires s == Delivered || s == CancelledRestocked
    ensures Run(s, presses, true) == s
  {
    if presses != [] {
      GuardedTerminal(s, presses[..|presses| - 1]);
    }
  }

  /** Without the guard a delivered order can still be cancelled. */
  lemma UnguardedCancelsDelivered()
    ensures Run(PendingPayment, [PayNow, MarkDelivered, Cancel], false) == CancelledRestocked
    ensures Run(PendingPayment, [PayNow, MarkDelivered, Cancel], true) == Delivered
  {
    var p := [PayNow, MarkDelivered, Cancel];
    assert p[..2][..1] == [PayNow] && [PayNow][..0] == [];
    assert p[..2] == [PayNow, MarkDelivered];
  }

  // ---------------------------------------------------------------------
  // Order records and their ids
  // ---------------------------------------------------------------------

  /** One entry of `store["orders"]`; the total is in cents. */
  datatype Order = Order(
    orderId: string,
    customer: string,
    userId: string,
    items: seq<Line>,
    status: Status,
    totalCents: int,
    adminNote: string)

  /** `f"ORD-{n:05d}"`. */
  function OrderId(n: nat): (r: string)
    ensures |r| >= 9 && r[..4] == "ORD-" && r[4..] == Text.ZeroPad5(n)
  {
    "ORD-" + Text.ZeroPad5(n)
  }

  /** Distinct numbers give distinct order ids. */
  lemma OrderIdInjective(a: nat, b: nat)
    ensures OrderId(a) == OrderId(b) <==> a == b
  {
    if OrderId(a) == OrderId(b) {
      Text.ZeroPad5Injective(a, b);
    }
  }

  /** The n-th order placed gets the id numbered n, as `len(orders) + 1` hands them out. */
  predicate IdsOk(os: seq<Order>) {
    forall k :: 0 <= k < |os| ==> os[k].orderId == OrderId(k + 1)
  }

  /** Numbered ids never repeat, and the next one is new. */
  lemma IdsOkDistinct(os: seq<Order>)
    requires IdsOk(os)
    ensures forall i, j :: 0 <= i < j < |os| ==> os[i].orderId != os[j].orderId
    ensures forall k :: 0 <= k < |os| ==> os[k].orderId != OrderId(|os| + 1)
  {
    forall i, j | 0 <= i < j < |os| ensures os[i].orderId != os[j].orderId {
      OrderIdInjective(i + 1, j + 1);
    }
    forall k | 0 <= k < |os| ensures os[k].orderId != OrderId(|os| + 1) {
      OrderIdInjective(k + 1, |os| + 1);
    }
  }

  /** The first position holding order `id`. */
  function Position(os: seq<Order>, id: string): (r: Option<nat>)
    ensures r.Some? ==> r.value < |os| && os[r.value].orderId == id
  {
    if os == [] then None
    else if os[0].orderId == id then Some(0)
    else match Position(os[1..], id)
      case None => None
      case Some(k) => Some(k + 1)
  }

  /** `find_order_index`: an empty id finds nothing, otherwise the first match. */
  function IndexOf(os: seq<Order>, id: string): (r: Option<nat>)
    ensures r.Some? ==> r.value < |os| && os[r.value].orderId == id
  {
    if id == "" then None else Position(os, id)
  }

  /** `Position` finds the first order with the id, and reports `None` only when there is none. */
  lemma {:induction false} PositionFirst(os: seq<Order>, id: string)
    ensures Position(os, id).None? <==> forall k :: 0 <= k < |os| ==> os[k].orderId != id
    ensures Position(os, id).Some? ==>
      var k := Position(os, id).value;
      k < |os| && os[k].orderId == id && forall j :: 0 <= j < k ==> os[j].orderId != id
  {
    if os != [] && os[0].orderId != id {
      PositionFirst(os[1..], id);
      assert forall k :: 1 <= k < |os| ==> os[1..][k - 1] == os[k];
    }
  }

  /** In a numbered ledger the id `OrderId(n)` is found at position `n - 1`. */
  lemma IndexOfNumbered(os: seq<Order>, n: nat)
    requires IdsOk(os) && 1 <= n <= |os|
    ensures IndexOf(os, OrderId(n)) == Some(n - 1)
  {
    var id := OrderId(n);
    PositionFirst(os, id);
    assert os[n - 1].orderId == id;
    var k := Position(os, id).value;
    if k < n - 1 {
      OrderIdInjective(k + 1, n);
    }
  }

  /** Changing the status or the note of one order keeps the numbering. */
  lemma IdsOkUpdate(os: seq<Order>, k: nat, o: Order)
    requires IdsOk(os) && k < |os| && o.orderId == os[k].orderId
    ensures IdsOk(os[k := o])
  {
  }

  /** The note "Send Reminder" stores on an order. */
  function Reminder(orderId: string): (r: string)
    ensures Text.Contains(r, orderId)
  {
    Text.ContainsAt("Your order " + orderId + " is still unpaid. Kindly confirm your payment.", orderId, 11);
    "Your order " + orderId + " is still unpaid. Kindly confirm your payment."
  }

  /** The message shown once an order is placed. */
  function Created(orderId: string): string {
    "Order " + orderId + " created. Please complete payment in 'My Orders'."
  }

  // ---------------------------------------------------------------------
  // Cancelling, as written and guarded
  // ---------------------------------------------------------------------

  /** "Cancel (Restock)" on order `k` as written: the order is marked, its items go back on the shelf. */
  function CancelAt(os: seq<Order>, s: Stock, k: nat): (seq<Order>, Stock)
    requires k < |os|
  {
    (os[k := os[k].(status := CancelledRestocked)], Restocked(s, os[k].items))
  }

  /** Cancellation that refuses orders already delivered or cancelled. */
  function GuardedCancelAt(os: seq<Order>, s: Stock, k: nat): (bool, seq<Order>, Stock)
    requires k < |os|
  {
    if Cancellable(os[k].status) then (true, os[k := os[k].(status := CancelledRestocked)], Restocked(s, os[k].items))
    else (false, os, s)
  }

  /**
   * The guarded cancel is idempotent: a second cancel of the same order is refused and
   * changes neither the ledger nor the stock, and it touches no other order.
   */
  lemma GuardedCancelOnce(os: seq<Order>, s: Stock, k: nat)
    requires k < |os|
    ensures var (ok1, os1, s1) := GuardedCancelAt(os, s, k);
            var (ok2, os2, s2) := GuardedCancelAt(os1, s1, k);
            !ok2 && os2 == os1 && s2 == s1 &&
            |os1| == |os| && (forall j :: 0 <= j < |os| && j != k ==> os1[j] == os[j]) &&
            (ok1 <==> Cancellable(os[k].status))
  {
  }

  /**
   * The unguarded cancel restocks an order every time it is pressed. Two orders of two
   * copies each leave one of five copies on the shelf; cancelling the first one twice
   * puts all five back although the second order still holds two.
   */
  lemma DoubleCancelInflates()
    ensures
      var b := BookState("T", "A", 5, 5, 100, None, None, None);
      var a := [Line("B1", 2)];
      var s2 := Purchased(Purchased(map["B1" := b], a), a);
      var os := [Order(OrderId(1), "c", "u", a, PendingPayment, 200, ""),
                 Order(OrderId(2), "c", "u", a, PendingPayment, 200, "")];
      var (os1, s3) := CancelAt(os, s2, 0);
      var (os2, s4) := CancelAt(os1, s3, 0);
      s2["B1"].availableCopies == 1 && s3["B1"].availableCopies == 3 &&
      os2[1].status == PendingPayment && s4["B1"].availableCopies == 5
  {
    var b := BookState("T", "A", 5, 5, 100, None, None, None);
    var a := [Line("B1", 2)];
    assert a[..0] == [];
    var s0 := map["B1" := b];
    assert Purchased(s0, a) == PurchaseLine(s0, a[0]);
    var s1 := Purchased(s0, a);
    assert s1["B1"].availableCopies == 3;
    assert Purchased(s1, a) == PurchaseLine(s1, a[0]);
    var s2 := Purchased(s1, a);
    assert s2["B1"].availableCopies == 1;
    assert Restocked(s2, a) == RestockLine(s2, a[0]);
    var s3 := Restocked(s2, a);
    assert s3["B1"].availableCopies == 3;
    assert Restocked(s3, a) == RestockLine(s3, a[0]);
  }

  // ---------------------------------------------------------------------
  // User ids
  // ---------------------------------------------------------------------

  /** `name.strip().upper()[:3] or "USR"`. */
  function UserBase(name: string): string {
    var b := Text.Take(Text.Upper(Text.Strip(name)), 3);
    if b == "" then "USR" else b
  }

  /** `generate_user_id`: `f"{base}-{n:05d}"`. */
  function UserId(name: string, n: nat): string {
    UserBase(name) + "-" + Text.ZeroPad5(n)
  }

  /**
   * The prefix holds one to three characters: the first characters of the stripped name,
   * upper-cased, or "USR" exactly when the name is blank.
   */
  lemma UserBaseShape(name: string)
    ensures 1 <= |UserBase(name)| <= 3
    ensures UserBase(name) == "USR" <==> Text.Strip(name) == "" || Text.Take(Text.Upper(Text.Strip(name)), 3) == "USR"
    ensures Text.Strip(name) != "" ==>
      |UserBase(name)| == Min(3, |Text.Strip(name)|) &&
      forall k :: 0 <= k < |UserBase(name)| ==> UserBase(name)[k] == Text.UpperChar(Text.Strip(name)[k])
  {
  }

  /** A user id is the prefix, a dash and the number, which reads back from the digits. */
  lemma UserIdParts(name: string, n: nat)
    ensures var b := UserBase(name);
            var u := UserId(name, n);
            |u| >= |b| + 6 && u[..|b|] == b && u[|b|] == '-' && u[|b| + 1..] == Text.ZeroPad5(n)
            && (forall k :: |b| + 1 <= k < |u| ==> Text.IsDigit(u[k]))
            && Text.ParseNat(u[|b| + 1..]) == n
  {
    DashParts(UserBase(name), Text.ZeroPad5(n));
    Text.ParseZeroPad5(n);
  }

  /** The pieces of `b + "-" + z` read back from their positions. */
  lemma DashParts(b: string, z: string)
    ensures var u := b + "-" + z;
            u[..|b|] == b && u[|b|] == '-' && u[|b| + 1..] == z
  {
    var u := b + "-" + z;
    assert u[..|b|] == b;
    assert u[|b| + 1..] == z;
  }

  /** The same name with different ledger sizes gives different user ids. */
  lemma UserIdInjective(name: string, a: nat, b: nat)
    ensures UserId(name, a) == UserId(name, b) <==> a == b
  {
    if UserId(name, a) == UserId(name, b) {
      UserIdParts(name, a);
      UserIdParts(name, b);
    }
  }

  // ---------------------------------------------------------------------
  // The items dictionary
  // ---------------------------------------------------------------------

  /** Sets the quantity of the entry for `id`, in place. */
  function SetQty(items: seq<Line>, id: string, q: int): (r: seq<Line>)
    ensures |r| == |items|
    ensures forall k :: 0 <= k < |items| ==> r[k].bookId == items[k].bookId
    ensures forall k :: 0 <= k < |items| ==> r[k].qty == if items[k].bookId == id then q else items[k].qty
  {
    if items == [] then []
    else
      var last := items[|items| - 1];
      SetQty(items[..|items| - 1], id, q) + [if last.bookId == id then Line(id, q) else last]
  }

  /** `items[id] = v`: an existing entry keeps its place, a new one goes last. */
  function Put(items: seq<Line>, id: string, v: int): seq<Line> {
    if HasId(items, id) then SetQty(items, id, v) else items + [Line(id, v)]
  }

  /** `items[id] = items.get(id, 0) + q`. */
  function AddQty(items: seq<Line>, id: string, q: int): seq<Line> {
    Put(items, id, Lookup(items, id).GetOr(0) + q)
  }

  /** `items.pop(id, None)`. */
  function RemoveKey(items: seq<Line>, id: string): (r: seq<Line>)
    ensures |r| <= |items|
  {
    if items == [] then []
    else if items[|items| - 1].bookId == id then RemoveKey(items[..|items| - 1], id)
    else RemoveKey(items[..|items| - 1], id) + [items[|items| - 1]]
  }

  /** The entries whose book is in the catalogue: every known entry is kept, nothing else. */
  function KeepKnown(items: seq<Line>, s: Stock): (r: seq<Line>)
    ensures |r| <= |items|
    ensures forall k :: 0 <= k < |r| ==> r[k].bookId in s && r[k] in items
    ensures forall k :: 0 <= k < |items| && items[k].bookId in s ==> items[k] in r
  {
    if items == [] then []
    else
      var init, last := items[..|items| - 1], items[|items| - 1];
      assert forall k :: 0 <= k < |init| ==> init[k] == items[k];
      assert items == init + [last];
      if last.bookId in s then KeepKnown(init, s) + [last]
      else KeepKnown(init, s)
  }

  /**
   * Pruning works entry by entry: the pruned concatenation is the concatenation of the
   * pruned parts, so two kept entries stay in their original order.
   */
  lemma {:induction false} KeepKnownAppend(a: seq<Line>, b: seq<Line>, s: Stock)
    ensures KeepKnown(a + b, s) == KeepKnown(a, s) + KeepKnown(b, s)
    decreases |b|
  {
    if b == [] {
      assert a + b == a;
    } else {
      var init, last := b[..|b| - 1], b[|b| - 1];
      assert (a + b)[..|a + b| - 1] == a + init;
      assert (a + b)[|a + b| - 1] == last;
      KeepKnownAppend(a, init, s);
    }
  }

  /** A single entry is kept exactly when its book is in the catalogue. */
  lemma KeepKnownOne(x: Line, s: Stock)
    ensures KeepKnown([x], s) == if x.bookId in s then [x] else []
  {
    assert [x][..0] == [];
  }

  /** Two lists with the same ids at the same positions are alike as dictionaries. */
  lemma {:induction false} SameIds(a: seq<Line>, b: seq<Line>)
    requires |a| == |b| && forall k :: 0 <= k < |a| ==> a[k].bookId == b[k].bookId
    ensures DistinctIds(a) == DistinctIds(b)
    ensures forall id :: HasId(a, id) == HasId(b, id)
  {
    if a != [] {
      var n := |a| - 1;
      assert forall k :: 0 <= k < n ==> a[..n][k] == a[k] && b[..n][k] == b[k];
      SameIds(a[..n], b[..n]);
    }
  }

  /** What `get` finds after `SetQty`, for any key `j`. */
  lemma SetQtyLookup(items: seq<Line>, id: string, q: int, j: string)
    requires DistinctIds(items) && HasId(items, id)
    ensures Lookup(SetQty(items, id, q), j) == if j == id then Some(q) else Lookup(items, j)
  {
    var r := SetQty(items, id, q);
    SameIds(r, items);
    if HasId(items, j) {
      var i :| 0 <= i < |items| && items[i].bookId == j;
      LookupAt(r, i);
      LookupAt(items, i);
    } else {
      assert !HasId(r, j);
    }
  }

  /** What `get` finds after appending a new key, for any key `j`. */
  lemma AppendLookup(items: seq<Line>, id: string, q: int, j: string)
    requires !HasId(items, id)
    ensures Lookup(items + [Line(id, q)], j) == if j == id then Some(q) else Lookup(items, j)
  {
    var r := items + [Line(id, q)];
    assert r[..|r| - 1] == items;
  }

  /** Storing a value keeps the list a dictionary. */
  lemma PutDistinct(items: seq<Line>, id: string, v: int)
    requires DistinctIds(items)
    ensures DistinctIds(Put(items, id, v))
  {
    var r := Put(items, id, v);
    if HasId(items, id) {
      SameIds(r, items);
    } else {
      assert r[..|r| - 1] == items;
    }
  }

  /** After `items[id] = v`, `get` finds `v` under `id` and what it found before under every other key. */
  lemma PutLookup(items: seq<Line>, id: string, v: int, j: string)
    requires DistinctIds(items)
    ensures Lookup(Put(items, id, v), j) == if j == id then Some(v) else Lookup(items, j)
  {
    if HasId(items, id) {
      SetQtyLookup(items, id, v, j);
    } else {
      AppendLookup(items, id, v, j);
    }
  }

  /**
   * Adding to the cart: the dictionary stays a dictionary, the entry for `id` grows by
   * `q` (starting from 0) and every other entry is as it was.
   */
  lemma AddQtyLookup(items: seq<Line>, id: string, q: int, j: string)
    requires DistinctIds(items)
    ensures DistinctIds(AddQty(items, id, q))
    ensures Lookup(AddQty(items, id, q), j) ==
      if j == id then Some(Lookup(items, id).GetOr(0) + q) else Lookup(items, j)
  {
    var v := Lookup(items, id).GetOr(0) + q;
    PutDistinct(items, id, v);
    PutLookup(items, id, v, j);
  }

  /** An entry that is not for `id` survives `RemoveKey`. */
  lemma {:induction false} RemoveKeyKeeps(items: seq<Line>, id: string, j: string)
    requires j != id
    ensures Lookup(RemoveKey(items, id), j) == Lookup(items, j)
    ensures HasId(RemoveKey(items, id), j) ==> HasId(items, j)
  {
    if items != [] {
      var init, last := items[..|items| - 1], items[|items| - 1];
      RemoveKeyKeeps(init, id, j);
      var r := RemoveKey(items, id);
      if last.bookId != id {
        assert r[..|r| - 1] == RemoveKey(init, id);
        if HasId(r, j) && last.bookId != j {
          var k :| 0 <= k < |r| && r[k].bookId == j;
          assert r[..|r| - 1][k] == r[k];
        }
      }
      if HasId(RemoveKey(init, id), j) {
        var k :| 0 <= k < |init| && init[k].bookId == j;
        assert items[k] == init[k];
      }
    }
  }

  /** Removing from the cart: the entry for `id` is gone and nothing else changes. */
  lemma {:induction false} RemoveKeyLookup(items: seq<Line>, id: string)
    requires DistinctIds(items)
    ensures DistinctIds(RemoveKey(items, id))
    ensures Lookup(RemoveKey(items, id), id).None?
    ensures forall j :: j != id ==> Lookup(RemoveKey(items, id), j) == Lookup(items, j)
  {
    forall j | j != id ensures Lookup(RemoveKey(items, id), j) == Lookup(items, j) {
      RemoveKeyKeeps(items, id, j);
    }
    if items != [] {
      var init, last := items[..|items| - 1], items[|items| - 1];
      DistinctInit(items);
      RemoveKeyLookup(init, id);
      var r := RemoveKey(items, id);
      if last.bookId != id {
        RemoveKeyKeeps(init, id, last.bookId);
        assert r[..|r| - 1] == RemoveKey(init, id);
        assert !HasId(RemoveKey(init, id), last.bookId);
        assert r[|r| - 1] == last;
      }
    }
  }

  /** `RemoveKey` works entry by entry. */
  lemma {:induction false} RemoveKeyConcat(a: seq<Line>, b: seq<Line>, id: string)
    ensures RemoveKey(a + b, id) == RemoveKey(a, id) + RemoveKey(b, id)
  {
    if b != [] {
      var b', last := b[..|b| - 1], b[|b| - 1];
      assert (a + b)[..|a + b| - 1] == a + b';
      RemoveKeyConcat(a, b', id);
    } else {
      assert a + b == a;
    }
  }

  /** Removing an id that is not there changes nothing. */
  lemma {:induction false} RemoveKeyAbsent(items: seq<Line>, id: string)
    requires !HasId(items, id)
    ensures RemoveKey(items, id) == items
  {
    if items != [] {
      var init := items[..|items| - 1];
      assert !HasId(init, id) by {
        forall k | 0 <= k < |init| ensures init[k].bookId != id { assert items[k] == init[k]; }
      }
      RemoveKeyAbsent(init, id);
    }
  }

  /** `KeepKnown` keeps only entries that were there. */
  lemma {:induction false} KeepKnownFrom(items: seq<Line>, s: Stock, id: string)
    ensures HasId(KeepKnown(items, s), id) ==> HasId(items, id)
  {
    if HasId(KeepKnown(items, s), id) {
      KeepKnownHas(items, s, id);
    }
  }

  lemma {:induction false} KeepKnownHas(items: seq<Line>, s: Stock, id: string)
    requires HasId(KeepKnown(items, s), id)
    ensures HasId(items, id)
  {
    var init := items[..|items| - 1];
    var last := items[|items| - 1];
    if last.bookId != id {
      var ri := KeepKnown(init, s);
      var r := KeepKnown(items, s);
      var k :| 0 <= k < |r| && r[k].bookId == id;
      if last.bookId in s {
        assert r == ri + [last];
        assert ri[k] == r[k];
      } else {
        assert r == ri;
      }
      assert HasId(ri, id);
      KeepKnownHas(init, s, id);
      var i :| 0 <= i < |init| && init[i].bookId == id;
      assert items[i] == init[i];
    }
  }

  /** One more entry of the pruning loop. */
  lemma KeepKnownStep(items: seq<Line>, s: Stock, i: nat)
    requires i < |items|
    ensures KeepKnown(items[..i + 1], s) ==
      KeepKnown(items[..i], s) + (if items[i].bookId in s then [items[i]] else [])
  {
    assert items[..i + 1][..i] == items[..i];
  }

  /** Removing the `i`-th entry of a dictionary whose first `i` entries were already pruned. */
  lemma PruneStep(items: seq<Line>, s: Stock, i: nat)
    requires DistinctIds(items) && i < |items|
    ensures RemoveKey(KeepKnown(items[..i], s) + items[i..], items[i].bookId) ==
      KeepKnown(items[..i], s) + items[i + 1..]
  {
    var front := KeepKnown(items[..i], s);
    var back := items[i + 1..];
    assert items[i..] == [items[i]] + back;
    assert front + items[i..] == front + [items[i]] + back;
    PruneFresh(items, s, i);
    RemoveMiddle(front, items[i], back);
  }

  /** Dropping a key that occurs only at the entry `l` between `front` and `back`. */
  lemma RemoveMiddle(front: seq<Line>, l: Line, back: seq<Line>)
    requires !HasId(front, l.bookId) && !HasId(back, l.bookId)
    ensures RemoveKey(front + [l] + back, l.bookId) == front + back
  {
    var id := l.bookId;
    RemoveKeyConcat(front + [l], back, id);
    RemoveKeyConcat(front, [l], id);
    RemoveKeyAbsent(front, id);
    RemoveKeyAbsent(back, id);
    assert [l][..0] == [];
  }

  /** A turn of the pruning loop that keeps the `i`-th entry, its book being known. */
  lemma KeepLoopStep(items: seq<Line>, s: Stock, i: nat)
    requires i < |items| && items[i].bookId in s
    ensures KeepKnown(items[..i], s) + items[i..] == KeepKnown(items[..i + 1], s) + items[i + 1..]
  {
    KeepKnownStep(items, s, i);
    assert items[i..] == [items[i]] + items[i + 1..];
  }

  /** A turn of the pruning loop that removes the `i`-th entry, its book being unknown. */
  lemma DropLoopStep(items: seq<Line>, s: Stock, i: nat)
    requires DistinctIds(items) && i < |items| && items[i].bookId !in s
    ensures RemoveKey(KeepKnown(items[..i], s) + items[i..], items[i].bookId) ==
      KeepKnown(items[..i + 1], s) + items[i + 1..]
  {
    KeepKnownStep(items, s, i);
    PruneStep(items, s, i);
  }

  /** In a dictionary the `i`-th key occurs neither before nor after position `i`. */
  lemma PruneFresh(items: seq<Line>, s: Stock, i: nat)
    requires DistinctIds(items) && i < |items|
    ensures !HasId(KeepKnown(items[..i], s), items[i].bookId)
    ensures !HasId(items[i + 1..], items[i].bookId)
  {
    var id := items[i].bookId;
    var front, back := items[..i], items[i + 1..];
    DistinctIdsPairwise(items);
    forall k | 0 <= k < |front| ensures front[k].bookId != id {
      assert front[k] == items[k];
    }
    KeepKnownFrom(front, s, id);
    forall k | 0 <= k < |back| ensures back[k].bookId != id {
      assert back[k] == items[i + 1 + k];
    }
  }

  // ---------------------------------------------------------------------
  // Totals and summaries
  // ---------------------------------------------------------------------

  /** The price of one line, nothing for a book that is no longer in the catalogue. */
  function LineCost(s: Stock, l: Line): int {
    if l.bookId in s then s[l.bookId].price * l.qty else 0
  }

  /** `order_total`: the sum of price times quantity over the lines. */
  function LinesTotal(s: Stock, items: seq<Line>): int {
    if items == [] then 0 else LinesTotal(s, items[..|items| - 1]) + LineCost(s, items[|items| - 1])
  }

  /** The total of a concatenation is the sum of the totals. */
  lemma {:induction false} LinesTotalAppend(s: Stock, a: seq<Line>, b: seq<Line>)
    ensures LinesTotal(s, a + b) == LinesTotal(s, a) + LinesTotal(s, b)
  {
    if b == [] {
      assert a + b == a;
    } else {
      assert (a + b)[..|a + b| - 1] == a + b[..|b| - 1];
      LinesTotalAppend(s, a, b[..|b| - 1]);
    }
  }

  /** Lines whose book is missing contribute nothing to the total. */
  lemma {:induction false} LinesTotalKnown(s: Stock, items: seq<Line>)
    ensures LinesTotal(s, KeepKnown(items, s)) == LinesTotal(s, items)
  {
    if items != [] {
      var init, last := items[..|items| - 1], items[|items| - 1];
      LinesTotalKnown(s, init);
      if last.bookId in s {
        var r := KeepKnown(items, s);
        assert r[..|r| - 1] == KeepKnown(init, s);
      }
    }
  }

  /** With non-negative prices and quantities the total is non-negative. */
  lemma {:induction false} LinesTotalNonneg(s: Stock, items: seq<Line>)
    requires forall id :: id in s ==> s[id].price >= 0
    requires forall k :: 0 <= k < |items| ==> items[k].qty >= 0
    ensures LinesTotal(s, items) >= 0
  {
    if items != [] {
      LinesTotalNonneg(s, items[..|items| - 1]);
    }
  }

  /** Totals depend only on the prices and keys of the catalogue. */
  lemma {:induction false} LinesTotalPrices(s: Stock, t: Stock, items: seq<Line>)
    requires s.Keys == t.Keys && forall id :: id in s ==> s[id].price == t[id].price
    ensures LinesTotal(s, items) == LinesTotal(t, items)
  {
    if items != [] {
      LinesTotalPrices(s, t, items[..|items| - 1]);
    }
  }

  /** Selling or restocking books does not change what an order costs. */
  lemma LinesTotalStockMoves(s: Stock, sold: seq<Line>, items: seq<Line>)
    ensures LinesTotal(Purchased(s, sold), items) == LinesTotal(s, items)
    ensures LinesTotal(Restocked(s, sold), items) == LinesTotal(s, items)
  {
    forall id | id in s ensures Purchased(s, sold)[id].price == s[id].price && Restocked(s, sold)[id].price == s[id].price {
      PurchasedOnlyAvailable(s, sold, id);
      RestockedOnlyAvailable(s, sold, id);
    }
    LinesTotalPrices(Purchased(s, sold), s, items);
    LinesTotalPrices(Restocked(s, sold), s, items);
  }

  /** Adding `q` copies of a book to the cart adds their price to the total. */
  lemma AddQtyTotal(s: Stock, items: seq<Line>, id: string, q: int)
    requires DistinctIds(items)
    ensures LinesTotal(s, AddQty(items, id, q)) == LinesTotal(s, items) + LineCost(s, Line(id, q))
  {
    var r := AddQty(items, id, q);
    if Lookup(items, id).Some? {
      var v := Lookup(items, id).value;
      assert r == SetQty(items, id, v + q);
      SetQtyTotal(s, items, id, v, q);
    } else {
      assert r == items + [Line(id, q)];
      LinesTotalAppend(s, items, [Line(id, q)]);
      assert [Line(id, q)][..0] == [];
    }
  }

  /** Raising the entry for `id` from `v` to `v + q` raises the total by the cost of `q` copies. */
  lemma {:induction false} SetQtyTotal(s: Stock, items: seq<Line>, id: string, v: int, q: int)
    requires DistinctIds(items) && Lookup(items, id) == Some(v)
    ensures LinesTotal(s, SetQty(items, id, v + q)) == LinesTotal(s, items) + LineCost(s, Line(id, q))
  {
    var init, last := items[..|items| - 1], items[|items| - 1];
    if last.bookId == id {
      SetQtyTotalAtLast(s, items, id, v, q);
    } else {
      var r := SetQty(items, id, v + q);
      assert r[..|r| - 1] == SetQty(init, id, v + q);
      assert r[|r| - 1] == last;
      DistinctInit(items);
      SetQtyTotal(s, init, id, v, q);
    }
  }

  /** The case of `SetQtyTotal` where the line changed is the last one. */
  lemma SetQtyTotalAtLast(s: Stock, items: seq<Line>, id: string, v: int, q: int)
    requires DistinctIds(items) && items != [] && items[|items| - 1].bookId == id
    requires Lookup(items, id) == Some(v)
    ensures LinesTotal(s, SetQty(items, id, v + q)) == LinesTotal(s, items) + LineCost(s, Line(id, q))
  {
    var init := items[..|items| - 1];
    var r := SetQty(items, id, v + q);
    var rinit := SetQty(init, id, v + q);
    assert r[..|r| - 1] == rinit;
    DistinctInit(items);
    forall k | 0 <= k < |init|
      ensures rinit[k] == init[k]
    {
      assert init[k].bookId != id;
    }
    assert rinit == init;
    assert r[|r| - 1] == Line(id, v + q);
    assert items[|items| - 1] == Line(id, v);
    CostSplit(s, id, v, q);
  }

  /** The cost of a line is linear in its quantity. */
  lemma CostSplit(s: Stock, id: string, v: int, q: int)
    ensures LineCost(s, Line(id, v + q)) == LineCost(s, Line(id, v)) + LineCost(s, Line(id, q))
  {
    if id in s {
      var p := s[id].price;
      assert p * (v + q) == p * v + p * q;
    }
  }

  /** `f"{title} x{q}"`, with the book id standing in for a missing book. */
  function Part(s: Stock, l: Line): string {
    (if l.bookId in s then s[l.bookId].title else l.bookId) + " x" + Text.IntToString(l.qty)
  }

  function Parts(s: Stock, items: seq<Line>): (r: seq<string>)
    ensures |r| == |items| && forall k :: 0 <= k < |items| ==> r[k] == Part(s, items[k])
  {
    seq(|items|, k requires 0 <= k < |items| => Part(s, items[k]))
  }

  /** The parts grow one line at a time, as the summary loop builds them. */
  lemma PartsStep(s: Stock, items: seq<Line>, i: nat)
    requires i < |items|
    ensures Parts(s, items[..i + 1]) == Parts(s, items[..i]) + [Part(s, items[i])]
  {
    var a, b := Parts(s, items[..i + 1]), Parts(s, items[..i]) + [Part(s, items[i])];
    forall k | 0 <= k < |a| ensures a[k] == b[k] {
      assert items[..i + 1][k] == items[k];
    }
  }

  /** The total quantity over the lines, in any catalogue. */
  function SumQty(items: seq<Line>): int {
    if items == [] then 0 else SumQty(items[..|items| - 1]) + items[|items| - 1].qty
  }

  /** `items_summary_no_lock`: the parts joined by ", " and the total quantity. */
  function Summary(s: Stock, items: seq<Line>): (string, int) {
    (Text.Join(Parts(s, items), ", "), SumQty(items))
  }

  /** One row of `orders_view_rows`; the order's time stamp is not modelled. */
  datatype Row = Row(
    orderId: string,
    customer: string,
    userId: string,
    items: string,
    totalQty: int,
    status: Status,
    totalCents: int)

  /** The row shown for order `o`: its fields, with the items summarised. */
  function RowOf(s: Stock, o: Order): (r: Row)
    ensures r.orderId == o.orderId && r.status == o.status && r.totalCents == o.totalCents
    ensures r.customer == o.customer && r.userId == o.userId
    ensures (r.items, r.totalQty) == Summary(s, o.items)
  {
    var (summary, qty) := Summary(s, o.items);
    Row(o.orderId, o.customer, o.userId, summary, qty, o.status, o.totalCents)
  }

  /** Quantities add up over a concatenation. */
  lemma {:induction false} SumQtyAppend(a: seq<Line>, b: seq<Line>)
    ensures SumQty(a + b) == SumQty(a) + SumQty(b)
  {
    if b == [] {
      assert a + b == a;
    } else {
      assert (a + b)[..|a + b| - 1] == a + b[..|b| - 1];
      SumQtyAppend(a, b[..|b| - 1]);
    }
  }

  /** Removing the entry for `id` removes its quantity from the count. */
  lemma {:induction false} SumQtyRemoveKey(items: seq<Line>, id: string)
    requires DistinctIds(items)
    ensures SumQty(RemoveKey(items, id)) == SumQty(items) - Lookup(items, id).GetOr(0)
  {
    if items != [] {
      var init, last := items[..|items| - 1], items[|items| - 1];
      DistinctInit(items);
      SumQtyRemoveKey(init, id);
      if last.bookId == id {
        RemoveKeyAbsent(init, id);
      } else {
        var r := RemoveKey(items, id);
        assert r[..|r| - 1] == RemoveKey(init, id);
      }
    }
  }

  /** The summary names one part per line; every book in it appears with its title. */
  lemma SummaryParts(s: Stock, items: seq<Line>, k: nat)
    requires k < |items| && items[k].bookId in s
    ensures Text.Contains(Parts(s, items)[k], s[items[k].bookId].title)
  {
    Text.ContainsAt(Parts(s, items)[k], s[items[k].bookId].title, 0);
  }
}
