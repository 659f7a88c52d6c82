/**
 * The quote cart: `GET /api/quotes/current`, `POST /api/quotes/add-item`,
 * `POST /api/quotes/submit` and `POST /api/quotes/remove-item`.
 *
 * A user's cart is their most recently created quote whose status is
 * "pending"; the first two routes find it or create it, submitting moves it
 * to "submitted", after which the next request starts a new cart.
 */
module Quotes {
  import opened Wrappers
  import opened Text
  import opened Seqs
  import opened Store

  /** A quote of `userId` that is still a cart. */
  predicate PendingOf(q: Quote, userId: Id) {
    q.userId == userId && q.status == PENDING
  }

  /**
   * `findFirst({ where: { userId, status: "pending" }, orderBy: { createdAt: "desc" } })`:
   * the pending quote of the user created last.
   */
  function LatestPending(qs: seq<Quote>, userId: Id): (r: Option<Quote>)
    ensures r.None? <==> forall q :: q in qs ==> !PendingOf(q, userId)
    ensures r.Some? ==> exists i :: 0 <= i < |qs| && qs[i] == r.value && PendingOf(qs[i], userId) &&
                                   forall j :: i < j < |qs| ==> !PendingOf(qs[j], userId)
    decreases |qs|
  {
    if |qs| == 0 then None
    else
      var init := qs[..|qs| - 1];
      var last := qs[|qs| - 1];
      assert qs == init + [last];
      if PendingOf(last, userId) then Some(last)
      else
        var r := LatestPending(init, userId);
        if r.Some? then
          var i :| 0 <= i < |init| && init[i] == r.value && PendingOf(init[i], userId) &&
                   forall j :: i < j < |init| ==> !PendingOf(init[j], userId);
          assert qs[i] == r.value && forall j :: i < j < |qs| ==> !PendingOf(qs[j], userId);
          r
        else r
  }

  /** A quote appended for the user becomes their cart. */
  lemma LatestPendingAppend(qs: seq<Quote>, q: Quote, userId: Id)
    requires PendingOf(q, userId)
    ensures LatestPending(qs + [q], userId) == Some(q)
  {
    assert (qs + [q])[..|qs + [q]| - 1] == qs;
  }

  /** The quote returned with its items, `include: { items: ... }`. */
  datatype QuoteView = QuoteView(quote: Quote, items: seq<QuoteItem>)

  /** The quote `quote.create({ data: { userId, status: "pending" } })` inserts. */
  function NewCart(id: Id, userId: Id): (q: Quote)
    ensures PendingOf(q, userId) && q.id == id && q.name.None?
  {
    Quote(id, userId, PENDING, None)
  }

  /**
   * The find-or-create step both routes share: the user's latest pending
   * quote, or a fresh one. The create fails (the owner is a foreign key) when
   * the session names a user that is not in the store.
   */
  method FindOrCreatePending(db: Db, userId: Id, newId: Id) returns (quote: Option<Quote>)
    requires db.Valid() && newId !in QuoteIds(db.quotes)
    modifies db`quotes
    ensures db.Valid()
    ensures LatestPending(old(db.quotes), userId).Some? ==>
      quote == LatestPending(old(db.quotes), userId) && db.quotes == old(db.quotes)
    ensures LatestPending(old(db.quotes), userId).None? && userId in db.users ==>
      quote == Some(NewCart(newId, userId)) && db.quotes == old(db.quotes) + [NewCart(newId, userId)]
    ensures LatestPending(old(db.quotes), userId).None? && userId !in db.users ==>
      quote.None? && db.quotes == old(db.quotes)
    ensures quote.Some? <==> userId in db.users
    ensures quote.Some? ==> LatestPending(db.quotes, userId) == quote
  {
    quote := LatestPending(db.quotes, userId);
    if quote.Some? {
      assert quote.value in db.quotes;
      return;
    }
    if userId !in db.users {
      return;
    }
    var q := NewCart(newId, userId);
    AppendQuoteValid(db, q);
    LatestPendingAppend(db.quotes, q, userId);
    db.quotes := db.quotes + [q];
    quote := Some(q);
  }

  /** Appending a quote with a fresh id and a known owner keeps the store valid. */
  lemma AppendQuoteValid(db: Db, q: Quote)
    requires db.Valid() && q.id !in QuoteIds(db.quotes) && q.userId in db.users
    ensures UniqueQuoteIds(db.quotes + [q])
    ensures QuoteIds(db.quotes + [q]) == QuoteIds(db.quotes) + {q.id}
  {
    var qs := db.quotes + [q];
    forall i, j | 0 <= i < j < |qs|
      ensures qs[i].id != qs[j].id
    {
      if j == |qs| - 1 {
        assert qs[i] in db.quotes;
      } else {
        assert qs[i] == db.quotes[i] && qs[j] == db.quotes[j];
      }
    }
  }

  /** No item refers to a quote id that is not in the store. */
  lemma NoItemsOfFreshQuote(db: Db, id: Id)
    requires db.Valid() && id !in QuoteIds(db.quotes)
    ensures ItemsOf(db.quoteItems, id) == []
  {
    ItemsOfAbsent(db.quoteItems, id);
  }

  lemma {:induction false} ItemsOfAbsent(items: seq<QuoteItem>, id: Id)
    requires forall it :: it in items ==> it.quoteId != id
    ensures ItemsOf(items, id) == []
    decreases |items|
  {
    if |items| > 0 {
      ItemsOfAbsent(items[..|items| - 1], id);
    }
  }

  // ---------------------------------------------------------------------------
  // GET /api/quotes/current

  method CurrentQuote(db: Db, session: Option<Session>, newId: Id) returns (resp: Response<QuoteView>)
    requires db.Valid() && newId !in QuoteIds(db.quotes)
    modifies db`quotes
    ensures db.Valid()
    ensures session.None? ==> resp == Fail(401, "Unauthorized") && db.quotes == old(db.quotes)
    ensures session.Some? && LatestPending(old(db.quotes), session.value.userId).Some? ==>
      var q := LatestPending(old(db.quotes), session.value.userId).value;
      resp == Ok(QuoteView(q, ItemsOf(db.quoteItems, q.id))) && db.quotes == old(db.quotes)
    ensures session.Some? && LatestPending(old(db.quotes), session.value.userId).None? &&
            session.value.userId in db.users ==>
      var q := NewCart(newId, session.value.userId);
      resp == Ok(QuoteView(q, [])) && db.quotes == old(db.quotes) + [q]
    ensures session.Some? && session.value.userId !in db.users ==>
      resp == Fail(500, "Failed to fetch quote") && db.quotes == old(db.quotes)
    ensures resp.Ok? ==> session.Some? && LatestPending(db.quotes, session.value.userId) == Some(resp.body.quote)
  {
    if session.None? {
      return Fail(401, "Unauthorized");
    }
    var userId := session.value.userId;
    NoItemsOfFreshQuote(db, newId);
    var quote := FindOrCreatePending(db, userId, newId);
    if quote.None? {
      return Fail(500, "Failed to fetch quote");
    }
    resp := Ok(QuoteView(quote.value, ItemsOf(db.quoteItems, quote.value.id)));
  }

  // ---------------------------------------------------------------------------
  // POST /api/quotes/add-item

  /** The row `quoteItem.create` inserts. */
  function NewItem(id: Id, quoteId: Id, productId: Id, quantity: string, notes: Option<string>): (it: QuoteItem)
    ensures it.qty != 0 && it.quoteId == quoteId && it.productId == productId
    ensures it.notes.None? <==> notes.None? || notes.value == ""
  {
    QuoteItem(id, quoteId, productId, ParseIntOrOne(quantity), OrNull(notes))
  }

  /**
   * Adds one item to the caller's cart, creating the cart first when there is
   * none. An unknown product makes the insert fail after the cart was
   * created, so a new empty cart can remain behind a 500.
   */
  method AddItem(db: Db, session: Option<Session>, productId: Id, quantity: string, notes: Option<string>,
                 newQuoteId: Id, newItemId: Id)
    returns (resp: Response<()>)
    requires db.Valid() && newQuoteId !in QuoteIds(db.quotes) && newItemId !in ItemIds(db.quoteItems)
    modifies db`quotes, db`quoteItems
    ensures db.Valid()
    ensures session.None? ==>
      resp == Fail(401, "Unauthorized") && db.quotes == old(db.quotes) && db.quoteItems == old(db.quoteItems)
    ensures resp.Ok? <==> session.Some? && session.value.userId in db.users && productId in ProductIds(db.products)
    ensures session.Some? && !resp.Ok? ==> resp == Fail(500, "Failed to add item")
    ensures resp.Fail? ==> db.quoteItems == old(db.quoteItems)
    ensures session.Some? && LatestPending(old(db.quotes), session.value.userId).Some? ==> db.quotes == old(db.quotes)
    ensures session.Some? && LatestPending(old(db.quotes), session.value.userId).None? ==>
      if session.value.userId in db.users then db.quotes == old(db.quotes) + [NewCart(newQuoteId, session.value.userId)]
      else db.quotes == old(db.quotes)
    ensures resp.Ok? ==>
      var cart := LatestPending(db.quotes, session.value.userId);
      && cart.Some?
      && (LatestPending(old(db.quotes), session.value.userId).Some? ==> cart == LatestPending(old(db.quotes), session.value.userId))
      && db.quoteItems == old(db.quoteItems) + [NewItem(newItemId, cart.value.id, productId, quantity, notes)]
  {
    if session.None? {
      return Fail(401, "Unauthorized");
    }
    var userId := session.value.userId;
    var old0 := LatestPending(db.quotes, userId);
    if old0.Some? {
      assert old0.value in db.quotes;
    }
    var quote := FindOrCreatePending(db, userId, newQuoteId);
    if quote.None? || productId !in ProductIds(db.products) {
      return Fail(500, "Failed to add item");
    }
    var item := NewItem(newItemId, quote.value.id, productId, quantity, notes);
    assert quote.value.id in QuoteIds(db.quotes) by {
      assert quote.value in db.quotes;
    }
    AppendItemValid(db, item);
    db.quoteItems := db.quoteItems + [item];
    return Ok(());
  }

  /** Appending an item with a fresh id, a known quote and a known product keeps the store valid. */
  lemma AppendItemValid(db: Db, it: QuoteItem)
    requires db.Valid() && it.id !in ItemIds(db.quoteItems)
    requires it.quoteId in QuoteIds(db.quotes) && it.productId in ProductIds(db.products)
    ensures UniqueItemIds(db.quoteItems + [it])
  {
    var items := db.quoteItems + [it];
    forall i, j | 0 <= i < j < |items|
      ensures items[i].id != items[j].id
    {
      if j == |items| - 1 {
        assert items[i] in db.quoteItems;
      } else {
        assert items[i] == db.quoteItems[i] && items[j] == db.quoteItems[j];
      }
    }
  }

  // ---------------------------------------------------------------------------
  // POST /api/quotes/submit

  /** `findFirst({ where: { id: quoteId, userId, status: "pending" } })`. */
  function SubmittableQuote(qs: seq<Quote>, quoteId: Id, userId: Id): (r: Option<Quote>)
    ensures r.None? <==> forall q :: q in qs ==> !(q.id == quoteId && PendingOf(q, userId))
    ensures r.Some? ==> r.value in qs && r.value.id == quoteId && PendingOf(r.value, userId)
  {
    Find(qs, (q: Quote) => q.id == quoteId && PendingOf(q, userId))
  }

  /** The quote after `quote.update({ data: { status: "submitted", name: name || null } })`. */
  function Submitted(q: Quote, name: Option<string>): (r: Quote)
    ensures r.id == q.id && r.userId == q.userId && r.status == SUBMITTED
    ensures r.name.None? <==> name.None? || name.value == ""
  {
    q.(status := SUBMITTED, name := OrNull(name))
  }

  /** The quotes after the update of the quote with id `quoteId`. */
  function MarkSubmitted(qs: seq<Quote>, quoteId: Id, name: Option<string>): (r: seq<Quote>)
    ensures |r| == |qs|
    ensures forall k :: 0 <= k < |qs| ==> r[k] == if qs[k].id == quoteId then Submitted(qs[k], name) else qs[k]
    ensures forall k :: 0 <= k < |qs| ==> r[k].id == qs[k].id && r[k].userId == qs[k].userId
  {
    seq(|qs|, k requires 0 <= k < |qs| => if qs[k].id == quoteId then Submitted(qs[k], name) else qs[k])
  }

  /** The update changes no id. */
  lemma MarkSubmittedKeepsIds(qs: seq<Quote>, quoteId: Id, name: Option<string>)
    ensures QuoteIds(MarkSubmitted(qs, quoteId, name)) == QuoteIds(qs)
  {
    var r := MarkSubmitted(qs, quoteId, name);
    forall x | x in r
      ensures x.id in QuoteIds(qs)
    {
      var k :| 0 <= k < |r| && r[k] == x;
      assert qs[k] in qs;
    }
    forall x | x in qs
      ensures x.id in QuoteIds(r)
    {
      var k :| 0 <= k < |qs| && qs[k] == x;
      assert r[k] in r;
    }
  }

  /** The update keeps the store's constraints on quotes. */
  lemma MarkSubmittedValid(db: Db, quoteId: Id, name: Option<string>)
    requires db.Valid()
    ensures UniqueQuoteIds(MarkSubmitted(db.quotes, quoteId, name))
    ensures forall q :: q in MarkSubmitted(db.quotes, quoteId, name) ==> q.userId in db.users
  {
    var r := MarkSubmitted(db.quotes, quoteId, name);
    forall x | x in r
      ensures x.userId in db.users
    {
      var k :| 0 <= k < |r| && r[k] == x;
      assert db.quotes[k] in db.quotes;
    }
  }

  /** After the update no pending quote has the id: a second submit is refused. */
  lemma MarkSubmittedCloses(qs: seq<Quote>, quoteId: Id, name: Option<string>, userId: Id)
    ensures SubmittableQuote(MarkSubmitted(qs, quoteId, name), quoteId, userId).None?
  {
    var r := MarkSubmitted(qs, quoteId, name);
    forall x | x in r
      ensures !(x.id == quoteId && PendingOf(x, userId))
    {
      var k :| 0 <= k < |r| && r[k] == x;
    }
  }

  /**
   * Submits the caller's pending quote `quoteId`; any other quote, a quote of
   * another user and a quote already submitted all give 404. The number of
   * items is not checked.
   */
  method SubmitQuote(db: Db, session: Option<Session>, quoteId: Id, name: Option<string>)
    returns (resp: Response<()>)
    requires db.Valid()
    modifies db`quotes
    ensures db.Valid()
    ensures session.None? ==> resp == Fail(401, "Unauthorized")
    ensures resp.Ok? <==> session.Some? && SubmittableQuote(old(db.quotes), quoteId, session.value.userId).Some?
    ensures session.Some? && !resp.Ok? ==> resp == Fail(404, "Quote not found")
    ensures resp.Fail? ==> db.quotes == old(db.quotes)
    ensures resp.Ok? ==>
      && |db.quotes| == |old(db.quotes)|
      && forall k :: 0 <= k < |db.quotes| ==>
           db.quotes[k] == if old(db.quotes)[k].id == quoteId then Submitted(old(db.quotes)[k], name) else old(db.quotes)[k]
    ensures resp.Ok? ==> SubmittableQuote(db.quotes, quoteId, session.value.userId).None?
  {
    if session.None? {
      return Fail(401, "Unauthorized");
    }
    var found := SubmittableQuote(db.quotes, quoteId, session.value.userId);
    if found.None? {
      return Fail(404, "Quote not found");
    }
    var qs := db.quotes;
    MarkSubmittedKeepsIds(qs, quoteId, name);
    MarkSubmittedValid(db, quoteId, name);
    db.quotes := MarkSubmitted(qs, quoteId, name);
    MarkSubmittedCloses(qs, quoteId, name, session.value.userId);
    return Ok(());
  }

  // ---------------------------------------------------------------------------
  // POST /api/quotes/remove-item

  /** Where the item with `id` sits. */
  function ItemIndex(items: seq<QuoteItem>, id: Id): (i: nat)
    requires id in ItemIds(items)
    ensures i < |items| && items[i].id == id
  {
    if items[0].id == id then 0
    else
      assert forall it :: it in items ==> it == items[0] || it in items[1..];
      1 + ItemIndex(items[1..], id)
  }

  /**
   * Deletes the item `itemId`, whoever owns it and whatever the status of its
   * quote; deleting an id that is not there fails with 500.
   */
  method RemoveItem(db: Db, session: Option<Session>, itemId: Id) returns (resp: Response<()>)
    requires db.Valid()
    modifies db`quoteItems
    ensures db.Valid()
    ensures session.None? ==> resp == Fail(401, "Unauthorized")
    ensures resp.Ok? <==> session.Some? && itemId in ItemIds(old(db.quoteItems))
    ensures session.Some? && !resp.Ok? ==> resp == Fail(500, "Failed to remove item")
    ensures resp.Fail? ==> db.quoteItems == old(db.quoteItems)
    ensures resp.Ok? ==>
      exists i :: 0 <= i < |old(db.quoteItems)| && old(db.quoteItems)[i].id == itemId &&
                  db.quoteItems == old(db.quoteItems)[..i] + old(db.quoteItems)[i + 1..]
    ensures resp.Ok? ==> forall it :: it in db.quoteItems <==> it in old(db.quoteItems) && it.id != itemId
  {
    if session.None? {
      return Fail(401, "Unauthorized");
    }
    if itemId !in ItemIds(db.quoteItems) {
      return Fail(500, "Failed to remove item");
    }
    var items := db.quoteItems;
    var i := ItemIndex(items, itemId);
    db.quoteItems := items[..i] + items[i + 1..];
    RemoveAtValid(items, i, db.quoteItems);
    forall it | it in db.quoteItems
      ensures it.quoteId in QuoteIds(db.quotes) && it.productId in ProductIds(db.products)
    {
      assert it in items;
    }
    return Ok(());
  }

  /** Removing the item at `i` removes that id and nothing else, and keeps ids unique. */
  lemma RemoveAtValid(items: seq<QuoteItem>, i: nat, r: seq<QuoteItem>)
    requires UniqueItemIds(items) && i < |items| && r == items[..i] + items[i + 1..]
    ensures UniqueItemIds(r)
    ensures forall it :: it in r <==> it in items && it.id != items[i].id
  {
    assert forall k :: 0 <= k < |r| ==> r[k] == if k < i then items[k] else items[k + 1];
    forall it | it in items && it.id != items[i].id
      ensures it in r
    {
      var k :| 0 <= k < |items| && items[k] == it;
      if k < i { assert r[k] == it; } else { assert k != i; assert r[k - 1] == it; }
    }
  }
}
