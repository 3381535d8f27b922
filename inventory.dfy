/**
 * The catalogue as a value: book id -> BookState. Every mutating operation of the
 * `Library` class is specified by one of the functions here, and the properties the
 * ledger promises (0 <= available <= total, all-or-nothing purchase, restock clamped at
 * the total, the save/load round trip) are proved about these functions.
 */
module Inventory {
  import opened Wrappers

  type Bytes = seq<bv8>

  /** Everything a `Book` holds apart from its id. A price is a whole number of cents. */
  datatype BookState = BookState(
    title: string,
    author: string,
    totalCopies: int,
    availableCopies: int,
    price: int,
    imageUrl: Option<string>,
    imageBytes: Option<Bytes>,
    imageMime: Option<string>)

  type Stock = map<string, BookState>

  /** One entry `book_id: qty` of an items dictionary (a cart or an order). */
  datatype Line = Line(bookId: string, qty: int)

  function Max(a: int, b: int): int { if a < b then b else a }
  function Min(a: int, b: int): int { if a < b then a else b }

  /** The arithmetic invariant of one book. */
  predicate InRange(b: BookState) {
    0 <= b.availableCopies <= b.totalCopies
  }

  /** The arithmetic invariant of the whole catalogue. */
  predicate StockOk(s: Stock) {
    forall id :: id in s ==> InRange(s[id])
  }

  /** `a` and `b` agree on every field except possibly the available copies. */
  predicate SameButAvailable(a: BookState, b: BookState) {
    a.(availableCopies := b.availableCopies) == b
  }

  /** An items list that comes from a Python dict: no book id occurs twice. */
  predicate DistinctIds(items: seq<Line>) {
    items == [] ||
    (!HasId(items[..|items| - 1], items[|items| - 1].bookId) && DistinctIds(items[..|items| - 1]))
  }

  predicate HasId(items: seq<Line>, id: string) {
    exists k :: 0 <= k < |items| && items[k].bookId == id
  }

  /** Python's `items.get(book_id)`. */
  function Lookup(items: seq<Line>, id: string): (r: Option<int>)
    ensures r.Some? <==> HasId(items, id)
  {
    if items == [] then None
    else if items[|items| - 1].bookId == id then Some(items[|items| - 1].qty)
    else
      assert forall k :: 0 <= k < |items| - 1 ==> items[..|items| - 1][k] == items[k];
      Lookup(items[..|items| - 1], id)
  }

  /** In a list without repeated ids, the entry at position `k` is what `get` finds. */
  lemma {:induction false} LookupAt(items: seq<Line>, k: nat)
    requires DistinctIds(items) && k < |items|
    ensures Lookup(items, items[k].bookId) == Some(items[k].qty)
  {
    if k < |items| - 1 {
      var init := items[..|items| - 1];
      assert init[k] == items[k];
      LookupAt(init, k);
    }
  }

  /** `DistinctIds` says that no two positions hold the same id. */
  lemma {:induction false} DistinctIdsPairwise(items: seq<Line>)
    ensures DistinctIds(items) <==> forall i, j :: 0 <= i < j < |items| ==> items[i].bookId != items[j].bookId
  {
    if items != [] {
      var init, last := items[..|items| - 1], items[|items| - 1];
      DistinctIdsPairwise(init);
      assert forall k :: 0 <= k < |init| ==> init[k] == items[k];
    }
  }

  lemma DistinctInit(items: seq<Line>)
    requires DistinctIds(items) && items != []
    ensures DistinctIds(items[..|items| - 1])
    ensures !HasId(items[..|items| - 1], items[|items| - 1].bookId)
  {
  }

  // ---------------------------------------------------------------------
  // add_book, add_stock, borrow and return on one book
  // ---------------------------------------------------------------------

  /** The record `Book(...)` creates: all copies available, price 0, the cover as given. */
  function NewBookState(title: string, author: string, total: int,
                        url: Option<string>, bytes: Option<Bytes>, mime: Option<string>): (r: BookState)
    requires total >= 0
    ensures InRange(r) && r.availableCopies == r.totalCopies == total
  {
    BookState(title, author, total, total, 0, url, bytes, mime)
  }

  /** Units already sold or borrowed, never negative. */
  function SoldOrOut(b: BookState): nat {
    if b.totalCopies - b.availableCopies < 0 then 0 else b.totalCopies - b.availableCopies
  }

  /**
   * `add_book` on an existing id: the total is SET to `total`, the available copies are
   * recomputed from the units already out, and the cover follows upload > url > none.
   */
  function Overwritten(b: BookState, title: string, author: string, total: int,
                       url: Option<string>, bytes: Option<Bytes>, mime: Option<string>): (r: BookState)
    requires total > 0
    ensures InRange(r)
    ensures r.title == title && r.author == author && r.totalCopies == total && r.price == b.price
    ensures SoldOrOut(b) <= total ==> r.totalCopies - r.availableCopies == SoldOrOut(b)
    ensures SoldOrOut(b) > total ==> r.availableCopies == 0
    ensures bytes.Some? ==> r.imageBytes == bytes && r.imageMime == mime && r.imageUrl.None?
    ensures bytes.None? && url.Some? && url.value != "" ==>
              r.imageUrl == url && r.imageBytes.None? && r.imageMime.None?
    ensures bytes.None? && (url.None? || url.value == "") ==>
              r.imageUrl == b.imageUrl && r.imageBytes == b.imageBytes && r.imageMime == b.imageMime
  {
    var available := Min(total, Max(0, total - SoldOrOut(b)));
    var meta := b.(title := title, author := author, totalCopies := total, availableCopies := available);
    if bytes.Some? then meta.(imageBytes := bytes, imageMime := mime, imageUrl := None)
    else if url.Some? && url.value != "" then meta.(imageUrl := url, imageBytes := None, imageMime := None)
    else meta
  }

  /** `add_stock`: the total grows by `qty`, the available copies by as much as fits. */
  function StockAdded(b: BookState, qty: int): (r: BookState)
    requires qty > 0
    ensures r.totalCopies == b.totalCopies + qty
    ensures SameButAvailable(r.(totalCopies := b.totalCopies), b)
    ensures InRange(b) ==> InRange(r) && r.availableCopies == b.availableCopies + qty
    ensures b.availableCopies <= b.totalCopies ==> r.availableCopies == b.availableCopies + qty
    ensures b.availableCopies > b.totalCopies ==> r.availableCopies == r.totalCopies
  {
    var total := b.totalCopies + qty;
    b.(totalCopies := total, availableCopies := Min(total, b.availableCopies + qty))
  }

  /** `borrow_book`: one copy fewer available. */
  function BorrowedOne(b: BookState): (r: BookState)
    requires b.availableCopies > 0
    ensures SameButAvailable(r, b) && r.availableCopies == b.availableCopies - 1
    ensures InRange(b) ==> InRange(r)
  {
    b.(availableCopies := b.availableCopies - 1)
  }

  /** `return_book`: one copy more available, never above the total. */
  function ReturnedOne(b: BookState): (r: BookState)
    ensures SameButAvailable(r, b)
    ensures r.availableCopies <= r.totalCopies
    ensures InRange(b) ==> InRange(r)
    ensures b.availableCopies < b.totalCopies ==> r.availableCopies == b.availableCopies + 1
    ensures b.availableCopies >= b.totalCopies ==> r.availableCopies == b.totalCopies
  {
    b.(availableCopies := Min(b.totalCopies, b.availableCopies + 1))
  }

  /** `BorrowedOne` on the book at `id`, whose available count is `left`. */
  lemma BorrowedOneAt(s: Stock, id: string, left: int, t: Stock)
    requires id in s && left == s[id].availableCopies && left > 0
    requires t == s[id := s[id].(availableCopies := left - 1)]
    ensures t == s[id := BorrowedOne(s[id])]
  {
  }

  /** `ReturnedOne` on the book at `id`, whose available count is `left` and total `total`. */
  lemma ReturnedOneAt(s: Stock, id: string, left: int, total: int, t: Stock)
    requires id in s && left == s[id].availableCopies && total == s[id].totalCopies
    requires t == s[id := s[id].(availableCopies := Min(total, left + 1))]
    ensures t == s[id := ReturnedOne(s[id])]
  {
  }

  // ---------------------------------------------------------------------
  // can_purchase / purchase
  // ---------------------------------------------------------------------

  /** A line that `can_purchase` lets through. */
  predicate Sellable(s: Stock, l: Line) {
    l.bookId in s && l.qty > 0 && s[l.bookId].availableCopies >= l.qty
  }

  predicate AllSellable(s: Stock, items: seq<Line>) {
    forall k :: 0 <= k < |items| ==> Sellable(s, items[k])
  }

  /** The message `can_purchase` reports for a line, checked in the source's order. */
  function LineFailure(s: Stock, l: Line): (r: Option<string>)
    ensures r.None? <==> Sellable(s, l)
  {
    if l.bookId !in s then Some("Book ID not found: " + l.bookId)
    else if l.qty <= 0 then Some("Qty must be > 0.")
    else if s[l.bookId].availableCopies < l.qty then Some("Not enough stock for " + s[l.bookId].title + ".")
    else None
  }

  /** `can_purchase`: the verdict and message of the first line that fails, or (true, "OK"). */
  function CheckPurchase(s: Stock, items: seq<Line>): (r: (bool, string))
    ensures r.0 <==> AllSellable(s, items)
    ensures r.0 ==> r.1 == "OK"
  {
    if items == [] then (true, "OK")
    else match LineFailure(s, items[0])
      case Some(m) => (false, m)
      case None =>
        assert forall k :: 1 <= k < |items| ==> items[1..][k - 1] == items[k];
        CheckPurchase(s, items[1..])
  }

  /** A refusal names the first line that cannot be sold. */
  lemma {:induction false} CheckPurchaseFirstFailure(s: Stock, items: seq<Line>) returns (k: nat)
    requires !CheckPurchase(s, items).0
    ensures k < |items| && LineFailure(s, items[k]) == Some(CheckPurchase(s, items).1)
    ensures forall j :: 0 <= j < k ==> Sellable(s, items[j])
  {
    if LineFailure(s, items[0]).Some? {
      k := 0;
    } else {
      var k' := CheckPurchaseFirstFailure(s, items[1..]);
      k := k' + 1;
      assert items[1..][k'] == items[k];
      forall j | 0 <= j < k ensures Sellable(s, items[j]) {
        if j > 0 { assert items[1..][j - 1] == items[j]; }
      }
    }
  }

  /** One step of `purchase`: `available -= q`, then `available = max(0, available)`. */
  function PurchaseLine(s: Stock, l: Line): Stock {
    if l.bookId in s then
      var b := s[l.bookId];
      s[l.bookId := b.(availableCopies := Max(0, b.availableCopies - l.qty))]
    else s
  }

  /** `PurchaseLine` for a book whose available count is `left`. */
  lemma PurchaseLineAt(s: Stock, l: Line, left: int, t: Stock)
    requires l.bookId in s && left == s[l.bookId].availableCopies
    requires t == s[l.bookId := s[l.bookId].(availableCopies := Max(0, left - l.qty))]
    ensures PurchaseLine(s, l) == t
  {
  }

  /** The stock after `purchase` has applied every line in order. */
  function Purchased(s: Stock, items: seq<Line>): (r: Stock)
    ensures r.Keys == s.Keys
  {
    if items == [] then s else PurchaseLine(Purchased(s, items[..|items| - 1]), items[|items| - 1])
  }

  /** `purchase`'s loop after one more line. */
  lemma PurchasedStep(s: Stock, items: seq<Line>, i: nat)
    requires i < |items|
    ensures Purchased(s, items[..i + 1]) == PurchaseLine(Purchased(s, items[..i]), items[i])
  {
    assert items[..i + 1][..i] == items[..i];
  }

  /** Whatever the lines, `purchase` changes no field of a book but its available copies. */
  lemma {:induction false} PurchasedOnlyAvailable(s: Stock, items: seq<Line>, id: string)
    requires id in s
    ensures SameButAvailable(Purchased(s, items)[id], s[id])
  {
    if items != [] {
      PurchasedOnlyAvailable(s, items[..|items| - 1], id);
    }
  }

  /** A book that no line names is left as it was by `purchase`. */
  lemma {:induction false} PurchasedUnlisted(s: Stock, items: seq<Line>, id: string)
    requires id in s && !HasId(items, id)
    ensures Purchased(s, items)[id] == s[id]
  {
    if items != [] {
      var init := items[..|items| - 1];
      assert forall k :: 0 <= k < |init| ==> init[k] == items[k];
      PurchasedUnlisted(s, init, id);
    }
  }

  /**
   * When every line is sellable and no id repeats, a listed book loses exactly its
   * quantity `q` and stays at or above 0.
   */
  lemma {:induction false} PurchasedQty(s: Stock, items: seq<Line>, id: string, q: int)
    requires DistinctIds(items) && AllSellable(s, items) && id in s && Lookup(items, id) == Some(q)
    ensures Purchased(s, items)[id] == s[id].(availableCopies := s[id].availableCopies - q)
    ensures Purchased(s, items)[id].availableCopies >= 0
  {
    var init, l := items[..|items| - 1], items[|items| - 1];
    DistinctInit(items);
    assert Sellable(s, l);
    if l.bookId == id {
      PurchasedUnlisted(s, init, id);
    } else {
      assert AllSellable(s, init) by {
        forall k | 0 <= k < |init| ensures Sellable(s, init[k]) { assert init[k] == items[k]; }
      }
      PurchasedQty(s, init, id, q);
    }
  }

  /** `purchase` keeps every available count between 0 and its total. */
  lemma {:induction false} PurchasePreservesStockOk(s: Stock, items: seq<Line>)
    requires StockOk(s)
    requires forall k :: 0 <= k < |items| ==> items[k].qty >= 0
    ensures StockOk(Purchased(s, items))
  {
    if items != [] {
      var init := items[..|items| - 1];
      assert forall k :: 0 <= k < |init| ==> init[k] == items[k];
      PurchasePreservesStockOk(s, init);
    }
  }

  // ---------------------------------------------------------------------
  // restock
  // ---------------------------------------------------------------------

  /** One step of `restock`: unknown ids are skipped, known ones clamp at the total. */
  function RestockLine(s: Stock, l: Line): Stock {
    if l.bookId in s then
      var b := s[l.bookId];
      s[l.bookId := b.(availableCopies := Min(b.totalCopies, b.availableCopies + l.qty))]
    else s
  }

  /** `RestockLine` for a known book whose available count is `left`. */
  lemma RestockLineAt(s: Stock, l: Line, left: int, t: Stock)
    requires l.bookId in s && left == s[l.bookId].availableCopies
    requires t == s[l.bookId := s[l.bookId].(availableCopies := Min(s[l.bookId].totalCopies, left + l.qty))]
    ensures RestockLine(s, l) == t
  {
  }

  /**
   * The stock after `restock` has applied every line in order. Whatever the quantities,
   * no field but the available copies changes and no book is pushed above its total.
   */
  function Restocked(s: Stock, items: seq<Line>): (r: Stock)
    ensures r.Keys == s.Keys
  {
    if items == [] then s else RestockLine(Restocked(s, items[..|items| - 1]), items[|items| - 1])
  }

  /** `restock`'s loop after one more line. */
  lemma RestockedStep(s: Stock, items: seq<Line>, i: nat)
    requires i < |items|
    ensures Restocked(s, items[..i + 1]) == RestockLine(Restocked(s, items[..i]), items[i])
  {
    assert items[..i + 1][..i] == items[..i];
  }

  /**
   * Whatever the lines (unknown ids, any quantities), `restock` changes no field of a book
   * but its available copies and never pushes them above the total.
   */
  lemma {:induction false} RestockedOnlyAvailable(s: Stock, items: seq<Line>, id: string)
    requires id in s
    ensures SameButAvailable(Restocked(s, items)[id], s[id])
    ensures s[id].availableCopies <= s[id].totalCopies ==>
              Restocked(s, items)[id].availableCopies <= s[id].totalCopies
  {
    if items != [] {
      RestockedOnlyAvailable(s, items[..|items| - 1], id);
    }
  }

  /** A book that no line names is left as it was by `restock`. */
  lemma {:induction false} RestockedUnlisted(s: Stock, items: seq<Line>, id: string)
    requires id in s && !HasId(items, id)
    ensures Restocked(s, items)[id] == s[id]
  {
    if items != [] {
      var init := items[..|items| - 1];
      assert forall k :: 0 <= k < |init| ==> init[k] == items[k];
      RestockedUnlisted(s, init, id);
    }
  }

  /** With no repeated id, a book listed with quantity `q` gets `min(total, available + q)`. */
  lemma {:induction false} RestockedQty(s: Stock, items: seq<Line>, id: string, q: int)
    requires DistinctIds(items) && id in s && Lookup(items, id) == Some(q)
    ensures Restocked(s, items)[id] == s[id].(availableCopies := Min(s[id].totalCopies, s[id].availableCopies + q))
  {
    var init, l := items[..|items| - 1], items[|items| - 1];
    DistinctInit(items);
    if l.bookId == id {
      RestockedUnlisted(s, init, id);
    } else {
      RestockedQty(s, init, id, q);
      RestockedOnlyAvailable(s, init, id);
    }
  }

  /** With non-negative quantities `restock` keeps every available count in range. */
  lemma {:induction false} RestockPreservesStockOk(s: Stock, items: seq<Line>)
    requires StockOk(s)
    requires forall k :: 0 <= k < |items| ==> items[k].qty >= 0
    ensures StockOk(Restocked(s, items))
  {
    if items != [] {
      var init := items[..|items| - 1];
      assert forall k :: 0 <= k < |init| ==> init[k] == items[k];
      RestockPreservesStockOk(s, init);
    }
  }

  lemma RestockUndoesPurchaseAt(s: Stock, items: seq<Line>, id: string)
    requires id in s && InRange(s[id]) && DistinctIds(items) && AllSellable(s, items)
    ensures Restocked(Purchased(s, items), items)[id] == s[id]
  {
    var p := Purchased(s, items);
    if HasId(items, id) {
      var q := Lookup(items, id).value;
      TakenAndGivenBack(s, items, id, q);
    } else {
      PurchasedUnlisted(s, items, id);
      RestockedUnlisted(p, items, id);
    }
  }

  /** `RestockUndoesPurchaseAt` for a listed book, whose quantity is `q`. */
  lemma TakenAndGivenBack(s: Stock, items: seq<Line>, id: string, q: int)
    requires id in s && InRange(s[id]) && DistinctIds(items) && AllSellable(s, items)
    requires Lookup(items, id) == Some(q)
    ensures Restocked(Purchased(s, items), items)[id] == s[id]
  {
    var p := Purchased(s, items);
    PurchasedQty(s, items, id, q);
    RestockedQty(p, items, id, q);
    RestockUndoesTake(s[id], q);
  }

  /** For one book in range: giving back `q` copies after taking them restores it. */
  lemma RestockUndoesTake(b: BookState, q: int)
    requires InRange(b)
    ensures b.(availableCopies := b.availableCopies - q).(availableCopies := Min(b.totalCopies, b.availableCopies - q + q)) == b
  {
  }

  /** Restocking exactly what a successful purchase took gives back the stock before it. */
  lemma RestockUndoesPurchase(s: Stock, items: seq<Line>)
    requires StockOk(s) && DistinctIds(items) && AllSellable(s, items)
    ensures Restocked(Purchased(s, items), items) == s
  {
    var r := Restocked(Purchased(s, items), items);
    forall id | id in s ensures r[id] == s[id] {
      RestockUndoesPurchaseAt(s, items, id);
    }
  }

  // ---------------------------------------------------------------------
  // to_dict / load_from_dict
  // ---------------------------------------------------------------------

  /** A serialised book record; keys absent from the stored record are `None`. */
  datatype StoredBook = StoredBook(
    title: string,
    author: string,
    totalCopies: int,
    availableCopies: Option<int>,
    price: Option<int>,
    imageUrl: Option<string>)

  /** What `to_dict` writes for one book: the uploaded image bytes and mime are not kept. */
  function Record(b: BookState): StoredBook {
    StoredBook(b.title, b.author, b.totalCopies, Some(b.availableCopies), Some(b.price), b.imageUrl)
  }

  /** No id occurs twice: each one is absent from the part of the list before it. */
  predicate NoDuplicates(s: seq<string>) {
    s == [] || (s[|s| - 1] !in s[..|s| - 1] && NoDuplicates(s[..|s| - 1]))
  }

  /** The element-by-element form of `NoDuplicates`. */
  lemma {:induction false} NoDuplicatesPairwise(s: seq<string>)
    requires NoDuplicates(s)
    ensures forall i, j :: 0 <= i < j < |s| ==> s[i] != s[j]
  {
    if s != [] {
      var init := s[..|s| - 1];
      NoDuplicatesPairwise(init);
      forall i, j | 0 <= i < j < |s|
        ensures s[i] != s[j]
      {
        if j < |s| - 1 {
          assert s[i] == init[i] && s[j] == init[j];
        } else {
          assert s[i] == init[i];
        }
      }
    }
  }

  /** A catalogue in dictionary order: `ids` lists each key of `s` once. */
  predicate Catalogue(s: Stock, ids: seq<string>) {
    NoDuplicates(ids)
    && (forall id :: id in s ==> id in ids)
    && (forall id :: id in ids ==> id in s)
    && (forall id :: id in s ==> s[id].totalCopies >= 0)
  }

  /** The keys of a list of records, in order. */
  function Keys(data: seq<(string, StoredBook)>): (r: seq<string>)
    ensures |r| == |data| && forall k :: 0 <= k < |data| ==> r[k] == data[k].0
  {
    seq(|data|, k requires 0 <= k < |data| => data[k].0)
  }

  /** The records come from a dictionary: no key occurs twice. */
  predicate DistinctKeys(data: seq<(string, StoredBook)>) {
    NoDuplicates(Keys(data))
  }

  /** `to_dict`: one record per id, in dictionary order. */
  function Serialize(s: Stock, ids: seq<string>): (r: seq<(string, StoredBook)>)
    requires forall id :: id in ids ==> id in s
    ensures |r| == |ids|
    ensures forall k :: 0 <= k < |ids| ==> r[k] == (ids[k], Record(s[ids[k]]))
  {
    if ids == [] then []
    else Serialize(s, ids[..|ids| - 1]) + [(ids[|ids| - 1], Record(s[ids[|ids| - 1]]))]
  }

  /** The book `load_from_dict` builds from a record: missing available = total, missing price = 0. */
  function FromRecord(d: StoredBook): BookState {
    BookState(d.title, d.author, d.totalCopies, d.availableCopies.GetOr(d.totalCopies),
              d.price.GetOr(0), d.imageUrl, None, None)
  }

  /** The outcome of `load_from_dict`: whether it completed, and the books read so far. */
  datatype Loaded = Loaded(ok: bool, stock: Stock, ids: seq<string>)

  /**
   * `load_from_dict`: reads the records in order; a negative total makes `Book(...)` raise,
   * which stops the load with the books read before it in place.
   */
  function Load(data: seq<(string, StoredBook)>): (r: Loaded)
    ensures r.ok <==> forall k :: 0 <= k < |data| ==> data[k].1.totalCopies >= 0
    ensures forall id :: id in r.stock <==> id in r.ids
    ensures r.ok ==> |r.ids| == |data| && forall k :: 0 <= k < |data| ==> r.ids[k] == data[k].0
  {
    if data == [] then Loaded(true, map[], [])
    else
      var init := data[..|data| - 1];
      assert forall k :: 0 <= k < |init| ==> init[k] == data[k];
      var prev := Load(init);
      var (id, d) := data[|data| - 1];
      if !prev.ok then prev
      else if d.totalCopies < 0 then Loaded(false, prev.stock, prev.ids)
      else Loaded(true, prev.stock[id := FromRecord(d)], prev.ids + [id])
  }

  /** A completed load holds exactly the records it read, each one at its own key. */
  lemma {:induction false} LoadAt(data: seq<(string, StoredBook)>, k: nat)
    requires DistinctKeys(data) && Load(data).ok && k < |data|
    ensures data[k].0 in Load(data).stock && Load(data).stock[data[k].0] == FromRecord(data[k].1)
    decreases |data|, 1
  {
    if k < |data| - 1 {
      LoadAtEarlier(data, k);
    }
  }

  /** `LoadAt` for a record before the last one, which the last record does not overwrite. */
  lemma {:induction false} LoadAtEarlier(data: seq<(string, StoredBook)>, k: nat)
    requires DistinctKeys(data) && Load(data).ok && k < |data| - 1
    ensures data[k].0 in Load(data).stock && Load(data).stock[data[k].0] == FromRecord(data[k].1)
    decreases |data|, 0
  {
    var init := data[..|data| - 1];
    assert init[k] == data[k];
    assert Keys(init) == Keys(data)[..|data| - 1];
    assert Keys(data)[k] in Keys(init);
    LoadAt(init, k);
  }

  /** The key of the next record is not among those a completed prefix has loaded. */
  lemma LoadFresh(data: seq<(string, StoredBook)>, i: nat, stock: Stock, ids: seq<string>)
    requires DistinctKeys(data) && i < |data| && Load(data[..i]) == Loaded(true, stock, ids)
    ensures data[i].0 !in stock
  {
    NoDuplicatesPairwise(Keys(data));
    assert forall k :: 0 <= k < i ==> ids[k] == data[k].0;
  }

  /** One more record with a valid total extends a completed load by that record. */
  lemma LoadStep(data: seq<(string, StoredBook)>, i: nat, stock: Stock, ids: seq<string>)
    requires i < |data| && Load(data[..i]) == Loaded(true, stock, ids) && data[i].1.totalCopies >= 0
    ensures Load(data[..i + 1]) == Loaded(true, stock[data[i].0 := FromRecord(data[i].1)], ids + [data[i].0])
  {
    assert data[..i + 1][..i] == data[..i];
  }

  /**
   * The first record with a negative total ends the load: the outcome is a failure
   * holding what was read before it, whatever follows.
   */
  lemma {:induction false} LoadStops(data: seq<(string, StoredBook)>, i: nat)
    requires i < |data| && Load(data[..i]).ok && data[i].1.totalCopies < 0
    ensures Load(data) == Loaded(false, Load(data[..i]).stock, Load(data[..i]).ids)
  {
    var init := data[..|data| - 1];
    if i == |data| - 1 {
      assert init == data[..i];
    } else {
      assert init[..i] == data[..i] && init[i] == data[i];
      LoadStops(init, i);
    }
  }

  /** After a completed load the stock invariant holds exactly when every record respects it. */
  lemma LoadStockOk(data: seq<(string, StoredBook)>)
    requires DistinctKeys(data) && Load(data).ok
    ensures StockOk(Load(data).stock) <==> forall k :: 0 <= k < |data| ==> InRange(FromRecord(data[k].1))
  {
    var r := Load(data);
    forall k | 0 <= k < |data| ensures data[k].0 in r.stock && r.stock[data[k].0] == FromRecord(data[k].1) {
      LoadAt(data, k);
    }
    forall id | id in r.stock ensures exists k :: 0 <= k < |data| && data[k].0 == id {
      var k :| 0 <= k < |r.ids| && r.ids[k] == id;
    }
    StockOkFromRecords(r.stock, data);
  }

  /** A stock made of exactly the records' books is in range exactly when every record is. */
  lemma StockOkFromRecords(stock: Stock, data: seq<(string, StoredBook)>)
    requires forall k :: 0 <= k < |data| ==> data[k].0 in stock && stock[data[k].0] == FromRecord(data[k].1)
    requires forall id :: id in stock ==> exists k :: 0 <= k < |data| && data[k].0 == id
    ensures StockOk(stock) <==> forall k :: 0 <= k < |data| ==> InRange(FromRecord(data[k].1))
  {
  }

  /** The catalogue as `load_from_dict(to_dict())` gives it back: uploaded covers are lost. */
  function WithoutUploads(s: Stock): Stock {
    map id | id in s :: s[id].(imageBytes := None, imageMime := None)
  }

  /**
   * `load_from_dict(to_dict())` completes and reproduces every id, in order, with its title,
   * author, total, available copies, price and image URL.
   */
  lemma RoundTrip(s: Stock, ids: seq<string>)
    requires Catalogue(s, ids)
    ensures Load(Serialize(s, ids)) == Loaded(true, WithoutUploads(s), ids)
  {
    var r := RoundTripIds(s, ids);
    RoundTripStock(s, ids, r);
  }

  /** The round trip gives back every book as stored, without its uploads. */
  lemma RoundTripStock(s: Stock, ids: seq<string>, r: Loaded)
    requires Catalogue(s, ids) && r == Load(Serialize(s, ids))
    requires forall id :: id in r.stock <==> id in s
    ensures r.stock == WithoutUploads(s)
  {
    SerializeDistinct(s, ids);
    forall id | id in s ensures r.stock[id] == WithoutUploads(s)[id] {
      RoundTripAt(s, ids, id);
    }
    WithoutUploadsExt(s, r.stock);
  }

  /** A stock with the same ids and, id by id, the books of `WithoutUploads(s)` is that stock. */
  lemma WithoutUploadsExt(s: Stock, t: Stock)
    requires forall id :: id in t <==> id in s
    requires forall id :: id in s ==> t[id] == WithoutUploads(s)[id]
    ensures t == WithoutUploads(s)
  {
  }

  /** The round trip completes and keeps the ids in order. */
  lemma RoundTripIds(s: Stock, ids: seq<string>) returns (r: Loaded)
    requires Catalogue(s, ids)
    ensures r == Load(Serialize(s, ids))
    ensures r.ok && r.ids == ids
    ensures forall id :: id in r.stock <==> id in s
  {
    var data := Serialize(s, ids);
    r := Load(data);
    forall k | 0 <= k < |data| ensures data[k].1.totalCopies >= 0 {
      assert data[k] == (ids[k], Record(s[ids[k]]));
    }
    assert r.ok;
    assert forall k :: 0 <= k < |ids| ==> r.ids[k] == ids[k];
  }

  /** The records of a catalogue have distinct keys, because its ids are distinct. */
  lemma SerializeDistinct(s: Stock, ids: seq<string>)
    requires Catalogue(s, ids)
    ensures DistinctKeys(Serialize(s, ids))
  {
    assert Keys(Serialize(s, ids)) == ids;
  }

  /** One book of the round trip: it is loaded back as stored, without its uploads. */
  lemma RoundTripAt(s: Stock, ids: seq<string>, id: string)
    requires Catalogue(s, ids) && DistinctKeys(Serialize(s, ids)) && id in s
    ensures id in Load(Serialize(s, ids)).stock
    ensures Load(Serialize(s, ids)).stock[id] == WithoutUploads(s)[id]
  {
    var k :| 0 <= k < |ids| && ids[k] == id;
    LoadAt(Serialize(s, ids), k);
  }
}
