# Digital Library: the inventory and order ledger, in Dafny

Digital Library is a small shop and lending tool. An in-memory `Library` holds books by
id. Each book has a title, an author, total and available copies, a price and a cover.
The library sells books in batches, puts copies back when an order is cancelled, and
lends and takes back single copies. Around it, the app keeps a list of order records.
Each order moves from `PENDING_PAYMENT` to `PAID` to `DELIVERED`, or is cancelled with
its items restocked. The app also keeps one cart per session, a dictionary
`book_id -> qty`.

This project models those two pieces and proves what they promise.

- `wrappers.dfy` (`Wrappers`): `Option`.
- `text.dfy` (`Text`): the string operations the code uses. These are `strip`, `upper`,
  `lower`, `s[:3]`, the substring test `t in s`, `str(n)` and `f"{n:05d}"`.
- `inventory.dfy` (`Inventory`): the catalogue as a value, `map<book id, BookState>`.
  - One function per stock move: add or overwrite, add stock, purchase, restock, borrow
    and return.
  - The saved dictionary form and its loader.
  - Lemmas stating the arithmetic invariant `0 <= available <= total`, the all-or-nothing
    purchase, the clamp on restock and the save/load round trip.
- `library_core.dfy` (`LibraryCore`): the classes `Book`, `User` and `Library`. They keep
  the source's fields and update them in place.
  - Each method's `ensures` ties the new `State()` to the `Inventory` function of the old
    one.
  - A ghost `loans` map mirrors every user's `borrowed_books`, and `BorrowsOk` proves it
    agrees with `borrow_records`.
- `orders.dfy` (`Orders`): the order ledger as values.
  - Statuses and the button transitions, as written (cancel accepts any status) and with
    a status guard on cancel (see Findings).
  - Order ids `ORD-00001` and user ids `ABC-00001`.
  - Item dictionaries as association lists in insertion order (`seq<Line>`), with their
    totals and their text summaries.
- `app.dfy` (`App`): the handlers lifted out of the UI.
  - A `Cart` class.
  - A `Store` class holding the `Library` and `orders: seq<Order>`. Its methods are the
    helper loops (`order_total`, `items_summary_no_lock`, `orders_view_rows`,
    `find_order_index`), order placement and the admin and user buttons.

Modelling choices:

- Prices and order totals are whole numbers of cents.
- A Python dictionary of items is a `seq<Line>` with distinct ids. Its order is the
  dictionary's insertion order.
- `Library.ids` records the insertion order of `books`. `to_dict`, the searches and
  `load_from_dict` walk the books in that order.

This model follows the code, including where the code's behaviour looks unintended:

- Cancelling an order has no status guard in the code (`app.py:412-419`). `Store.Cancel`
  is written that way. A second cancel of the same order restocks copies that order no
  longer holds, and a delivered order is restocked too. The code guards its other admin
  transition ("Mark Delivered" is enabled only for a paid order, `app.py:393-398`), and the
  button's label says it puts back what the order took. `Store.CancelGuarded` is the
  transition with that guard (see Findings).
- `load_from_dict` trusts the saved `available_copies`. `Inventory.LoadStockOk` states
  exactly when the loaded catalogue keeps `0 <= available <= total`.
- `load_from_dict` stops at the first record with a negative total (the `ValueError` of
  `Book`). The books read before that one stay loaded (`Inventory.LoadStops`).

## Model

| member | source | states |
|---|---|---|
| Inventory.NewBookState | library_core.py:17-26 | a fresh book is in range and starts with every copy available |
| Inventory.Overwritten | library_core.py:123-150 | overwriting sets title, author and total and keeps the price. The copies already out stay out, unless there are more of them than the new total, in which case none is available. `0 <= available <= total` holds. An upload replaces the cover and clears the URL; a non-empty URL replaces the cover and clears the upload and mime; otherwise the cover is unchanged |
| Inventory.StockAdded | library_core.py:180-182 | added stock raises the total by `qty`. A book with `available <= total` gains exactly `qty` available copies; one already over its total ends with `available == total`. Nothing else changes |
| Inventory.BorrowedOne | library_core.py:235 | a borrow takes away exactly one available copy and touches nothing else |
| Inventory.ReturnedOne | library_core.py:253 | a return adds one available copy when below the total, and leaves exactly the total otherwise; nothing else changes |
| Inventory.LineFailure | library_core.py:193-198 | a line fails exactly when it is not sellable: unknown id, `qty <= 0`, or too few copies |
| Inventory.CheckPurchase | library_core.py:188-199 | the check passes exactly when every line is sellable, and then says "OK" |
| Inventory.CheckPurchaseFirstFailure | library_core.py:191-198 | a failed check reports the message of the first failing line; every earlier line is sellable |
| Inventory.PurchasedOnlyAvailable | library_core.py:208-210 | a purchase changes only available copies |
| Inventory.PurchasedUnlisted | library_core.py:208-210 | a book not in the items is untouched by a purchase |
| Inventory.PurchasedQty | library_core.py:201-211 | after a passing check, each listed book loses exactly its quantity and stays at or above zero |
| Inventory.PurchasePreservesStockOk | library_core.py:208-210 | a purchase of non-negative quantities keeps every book in range |
| Inventory.RestockedOnlyAvailable | library_core.py:213-220 | for any lines, a restock changes only available copies, and copies that were at most the total stay at most the total |
| Inventory.RestockedUnlisted | library_core.py:216-217 | unknown and unlisted ids are skipped by a restock |
| Inventory.RestockedQty | library_core.py:216-219 | each listed book gets `min(total, available + q)` |
| Inventory.RestockPreservesStockOk | library_core.py:213-220 | a restock of non-negative quantities keeps every book in range |
| Inventory.RestockUndoesPurchase | library_core.py:201-220 | restocking the items of a successful purchase gives back the catalogue before it |
| Inventory.Serialize | library_core.py:264-277 | the saved form lists every id in order with its title, author, totals, price and URL |
| Inventory.Load | library_core.py:279-295 | loading succeeds exactly when no saved total is negative; the ids loaded are the saved keys in order |
| Inventory.LoadAt | library_core.py:283-295 | after a successful load, every saved record is the book under its key |
| Inventory.LoadStops | library_core.py:284-291 | a negative total ends the load, and the books before it stay loaded |
| Inventory.LoadStockOk | library_core.py:279-295 | a loaded catalogue is in range exactly when every saved record is |
| Inventory.RoundTrip | library_core.py:264-295 | loading a saved catalogue gives back every book without its uploaded image, in the same order |
| Inventory.RoundTripAt | library_core.py:264-295 | per id: the reloaded book equals the original with its upload and mime dropped |
| Text.StripSlice | library_core.py:301 | `strip` returns a slice whose cut-off ends are whitespace and which neither starts nor ends with whitespace |
| Text.StripEmpty | app.py:213 | a name strips to nothing exactly when it is all whitespace |
| Text.Upper | app.py:213 | definition: ASCII upper-casing of every character (same length, character by character) |
| Text.Lower | library_core.py:301-303 | definition: ASCII lower-casing of every character (same length, character by character) |
| Text.Take | app.py:213 | `s[:n]` is the prefix of length `min(n, len(s))` |
| Text.ContainsWitness | library_core.py:303 | `t in s` yields a position at which `t` occurs in `s` |
| Text.ContainsAt | library_core.py:303 | an occurrence at any position makes `t in s` true |
| Text.ParseZeroPad5 | app.py:214 | `f"{n:05d}"` reads back as `n` |
| Text.ZeroPad5Injective | app.py:214 | distinct numbers have distinct padded forms |
| LibraryCore.Book.constructor | library_core.py:17-32 | a book starts with the given fields and with available copies equal to the total |
| LibraryCore.Book.Create | library_core.py:17-19 | a negative total is rejected (`None`); otherwise a fresh book as the constructor makes it |
| LibraryCore.Book.Update | library_core.py:124-150 | the existing-book branch of `add_book` leaves the book as `Overwritten` says |
| LibraryCore.User.constructor | library_core.py:52-54 | a new user has the given name and borrows nothing |
| LibraryCore.User.Borrow | library_core.py:56-57 | the id is appended to the borrowed list |
| LibraryCore.User.ReturnBook | library_core.py:59-63 | the result is true exactly when the id was borrowed; the list becomes `RemoveFirst` of the old one, which is the old list unchanged when the id was absent |
| LibraryCore.RemoveFirstSlices | library_core.py:61 | `list.remove` cuts out exactly the first occurrence |
| LibraryCore.RemoveFirstMultiset | library_core.py:61 | removing the first occurrence takes one copy out of the multiset |
| LibraryCore.RemoveFirstRecordAt | library_core.py:255-258 | the record popped is the first one matching user and book |
| LibraryCore.LedgerBorrow | library_core.py:234-238 | appending the id to the user's list and a record to `borrow_records` keeps the two in agreement |
| LibraryCore.LedgerReturn | library_core.py:248-258 | removing the id from the user's list and the first matching record keeps them in agreement |
| LibraryCore.Library.constructor | library_core.py:74-79 | a new library is empty and valid |
| LibraryCore.Library.GetOrCreateUser | library_core.py:99-103 | the named user exists afterwards; an existing one is returned unchanged and a missing one is created fresh with no loans; no other user and no book changes |
| LibraryCore.Library.AddBook | library_core.py:108-163 | a non-positive total gives "total_copies must be > 0." and no change. An existing id is overwritten as `Overwritten` says; a new id is inserted at the end as `NewBookState`. No other book changes, and the catalogue stays in range |
| LibraryCore.Library.SetPrice | library_core.py:165-170 | an unknown id gives "Book ID not found."; otherwise only that book's price changes |
| LibraryCore.Library.AddStock | library_core.py:172-183 | `qty <= 0` is refused first, then an unknown id; otherwise only that book changes, as `StockAdded` says |
| LibraryCore.Library.CanPurchase | library_core.py:188-199 | returns `CheckPurchase` of the catalogue, which holds exactly when every line is sellable |
| LibraryCore.Library.Purchase | library_core.py:201-211 | all or nothing: a failed check changes nothing and returns its message; otherwise the catalogue becomes `Purchased` and the message is "Purchased." |
| LibraryCore.Library.Restock | library_core.py:213-220 | the catalogue becomes `Restocked`, and the message is "Restocked." |
| LibraryCore.Library.FindBorrowRecord | library_core.py:255-256 | finds the first record matching user and book, or reports that none matches |
| LibraryCore.Library.BorrowBook | library_core.py:225-239 | an unknown id or a book with no copy available gives its message and no change. Otherwise the user is created if needed, one copy is taken, and the id and a record are appended. The loans stay in agreement with the records |
| LibraryCore.Library.ReturnBook | library_core.py:241-260 | an unknown book, an unknown user, or a book this user does not hold each give their message and no change. Otherwise one copy comes back, clamped at the total, and the first matching id and record are removed |
| LibraryCore.Library.ToDict | library_core.py:264-277 | the saved form lists every book in order, and loading it gives back the catalogue without uploads |
| LibraryCore.Library.LoadFromDict | library_core.py:279-295 | the catalogue and order after loading, and the success flag, are exactly those of `Load` |
| LibraryCore.Library.SearchByTitle | library_core.py:300-303 | returns the books whose lower-cased title contains the stripped, lower-cased query: every hit is in the result, every result is a hit, each book once, in the catalogue's insertion order |
| LibraryCore.Library.SearchByAuthor | library_core.py:305-308 | returns the books whose lower-cased author contains the stripped, lower-cased query: every hit is in the result, every result is a hit, each book once, in the catalogue's insertion order |
| Orders.LabelInjective | app.py:544 | the four status strings are pairwise distinct |
| Orders.StepTargets | app.py:393-419 | only "Pay Now" on a pending order reaches PAID, and only "Mark Delivered" on a paid order reaches DELIVERED. "Cancel" always reaches the cancelled status. Nothing returns to PENDING_PAYMENT |
| Orders.RunForward | app.py:393-419 | a sequence of button presses never moves an order backwards |
| Orders.GuardedTerminal | app.py:412-419 | with a cancel guard, DELIVERED and CANCELLED are final |
| Orders.UnguardedCancelsDelivered | app.py:412-419 | as written, a delivered order can still be cancelled |
| Orders.OrderId | app.py:537 | an order id is "ORD-" followed by the number padded to five digits |
| Orders.OrderIdInjective | app.py:537 | distinct numbers give distinct order ids |
| Orders.IdsOkDistinct | app.py:536-547 | in a ledger built by appending, ids are distinct and the next id is fresh |
| Orders.PositionFirst | app.py:196-200 | the search finds the first order with the id, or reports that none has it |
| Orders.IndexOfNumbered | app.py:193-200 | the n-th order is found under `OrderId(n)` |
| Orders.Reminder | app.py:405-408 | the reminder note contains the order id |
| Orders.GuardedCancelOnce | app.py:412-419 | the guarded cancel refuses a second cancel, which changes neither ledger nor stock and touches no other order |
| Orders.DoubleCancelInflates | app.py:412-419 | as written, cancelling one order twice returns more copies than it took |
| Orders.UserBaseShape | app.py:213 | the prefix has one to three characters; it is "USR" exactly when the stripped name is empty or starts with "usr" in any case; otherwise it is the first three upper-cased characters |
| Orders.UserIdParts | app.py:209-214 | a user id is the prefix, "-", and the number zero-padded to at least 5 digits; the suffix is all digits and reads back as the number |
| Orders.UserIdInjective | app.py:209-214 | for one name, distinct numbers give distinct user ids |
| Orders.AddQtyLookup | app.py:492-494 | adding to the cart sets the id's quantity to `get(id, 0) + qty` and keeps the other ids |
| Orders.AddQtyTotal | app.py:492-494 | adding to the cart raises its total by the line's cost |
| Orders.RemoveKeyLookup | app.py:519-521 | `pop` drops exactly that id |
| Orders.KeepKnown | app.py:507-512 | pruning keeps exactly the lines whose id the catalogue knows: every kept line was in the cart and is known, every known line is kept |
| Orders.KeepKnownAppend | app.py:507-512 | pruning goes line by line: the pruned concatenation is the concatenation of the pruned parts, so kept lines stay in cart order |
| Orders.KeepKnownOne | app.py:508-512 | a single line is kept exactly when `lib.books` has its id |
| Orders.LinesTotalKnown | app.py:155-163 | unknown ids add nothing to a total, so pruning them leaves it unchanged |
| Orders.LinesTotalNonneg | app.py:155-163 | with non-negative prices and quantities, a total is non-negative |
| Orders.LinesTotalAppend | app.py:158-162 | a total is additive over the lines |
| Orders.LinesTotalStockMoves | app.py:505-545 | a purchase or a restock leaves every total unchanged, since prices do not move |
| Orders.Parts | app.py:168-172 | definition: one summary part per line, in order |
| Orders.SummaryParts | app.py:170-172 | a known book's part contains its title |
| Orders.SumQtyAppend | app.py:173 | the total quantity is additive over the lines |
| Orders.SumQtyRemoveKey | app.py:511 | dropping a line lowers the total quantity by that line's quantity |
| Orders.RowOf | app.py:179-190 | a row carries the order's id, customer, user id, status and total, and the summary of its items |
| App.Cart.constructor | app.py:114 | a new cart is empty |
| App.Cart.Clear | app.py:550 | the cart is emptied and belongs to the given customer |
| App.Cart.Add | app.py:492-494 | "Add to cart" leaves the id's quantity at `get(id, 0) + qty` and every other id as it was |
| App.Cart.Remove | app.py:519-521 | "Remove" drops the id and keeps every other id as it was |
| App.Store.constructor | app.py:90-99 | a store wraps a valid library with an empty ledger |
| App.Store.FindOrderIndex | app.py:193-200 | an empty id gives `None`; otherwise the index of the first order with the id, or `None` when none has it |
| App.Store.OrderTotal | app.py:155-163 | the total is `LinesTotal`, the sum of price × qty over the known ids |
| App.Store.ItemsSummary | app.py:165-174 | the summary text and total quantity are `Summary` of the items |
| App.Store.ViewRows | app.py:176-191 | one row per order, in order, each the `RowOf` that order |
| App.Store.PruneCart | app.py:507-512 | the cart becomes `KeepKnown` of the old cart: the lines whose id the catalogue no longer has go, every other line stays with its quantity and in order, and the total is unchanged |
| App.Store.PlaceOrder | app.py:501-552 | an empty cart gives "Cart is empty." and no change. Otherwise the cart is pruned and the purchase checked. On success, an order `ORD-<n+1>` is appended, pending, with an empty note, the pruned items and the total taken before pruning; the stock is `Purchased`, the cart is emptied, and the message names the order. On failure, the ledger and stock are unchanged and the message is the check's |
| App.Store.Checkout | app.py:531-547 | only a successful purchase appends an order; a failed one leaves ledger and stock as they were |
| App.Store.AppendOrder | app.py:536-547 | the new order goes at the end, with the next id, pending and with an empty note |
| App.Store.Pay | app.py:586-596 | a known pending order becomes PAID and nothing else changes; any other id changes nothing |
| App.Store.Deliver | app.py:393-398 | a known paid order becomes DELIVERED and nothing else changes; any other id changes nothing |
| App.Store.Remind | app.py:402-410 | only the admin note of a known order changes, to a text containing its id; status and items are kept |
| App.Store.Cancel | app.py:412-419 | as written: any known order is marked cancelled and its items are restocked, whatever its status |
| App.Store.CancelGuarded | app.py:412-419 | cancels and restocks only a PENDING_PAYMENT or PAID order; any other order, or an unknown id, changes nothing |
| App.Store.Restore | app.py:415-417 | marks order `k` cancelled and restocks exactly its items |
| App.Store.GenerateUserId | app.py:209-214 | the id is exactly the name's prefix, "-" and the ledger length plus one zero-padded to 5 digits; the suffix is all digits and reads back as that number |

## Left out

- Persistence (`storage.py` and `persist_now`) is whole-file JSON I/O. The save/load pair is modelled through `to_dict` and `load_from_dict`, not through the file.
- `App.Store.constructor`: the store starts with an empty ledger. Orders read back from the saved file at start-up are not part of this model.
- The Streamlit UI is not modelled: rendering, tabs, theming, the login and admin password, session state, autorefresh, `st.stop`/`st.rerun` and cover display. Login's call to `generate_user_id` on the stripped name is covered by `App.Store.GenerateUserId`.
- Locking (`RLock`, `store["lock"]`) and concurrency are left out. Every operation runs as one sequential step, so the gap between the check and the update in `purchase` is not modelled.
- Floating-point prices and `money_usd` formatting are replaced by whole cents.
- The order time (`datetime.now()`) comes from a clock and is not stored.
- `cover_for_streamlit` and the `BytesIO` wrapping are library glue.
- `int(...)` conversions are not modelled: quantities and totals arrive as integers. So is the `float(price)` cast.
- The getters `list_book_ids`, `get_book`, `has_book`, `get_all_books` and `get_borrow_records` only read state.
- `Book.__str__` is not modelled.
- A saved record missing `title`, `author` or `total_copies` makes `load_from_dict` raise `KeyError`; the model's records always carry those three. Missing `available_copies`, `price` and `image_url` fall back to their defaults, as in the code.
- Text is ASCII only. Unicode case mapping and Unicode whitespace are not modelled.
- The "My Orders" filter by customer name is a list comprehension for display.
- The quantity widget's bounds (1 to available) belong to the UI. `App.Cart.Add` accepts any quantity, and `Library.Purchase` rejects the bad ones.
- `App.Store.PlaceOrder` ends by replacing the session's cart with a new empty dictionary. The model empties the same `Cart` object instead, so aliasing of the old dictionary is not captured. Likewise the order's `dict(items)` copy is a value here.
- `App.Store.Pay` and `App.Store.Deliver` test the order's current status. The UI enables their buttons from the status read when the page was drawn, so a stale page is not modelled.

## Findings

| source | as written | input that shows it | evidently intended | confidence | as-written member | corrected member |
|---|---|---|---|---|---|---|
| app.py:412-419 | "Cancel (Restock)" marks the order cancelled and restocks its items whatever the status, including an order already cancelled or delivered | two pending orders of 2 copies each of a 5-copy book leave 1 on the shelf; cancelling the first order twice puts all 5 back while the second order still holds 2. Also pay, deliver, cancel on a new order ends cancelled | cancel only a PENDING_PAYMENT or PAID order, so a repeat cancel is refused and restocks nothing, and DELIVERED stays final | not executed | App.Store.Cancel, Orders.DoubleCancelInflates, Orders.UnguardedCancelsDelivered | App.Store.CancelGuarded, Orders.GuardedCancelOnce, Orders.GuardedTerminal |
