/**
 * Creating invoices: `POST /api/admin/invoices` (lines typed in by an
 * administrator) and `POST /api/admin/invoices/from-quote` (lines converted
 * from a quote's items). Both store a total equal to the sum of the line
 * totals. Both number the invoice by the numeric rule `NextInvoiceNumber`,
 * which keeps invoice numbers unique. The string-maximum rule of the source,
 * `GenerateInvoiceNumber`, gives the same number while every suffix of the
 * year has the same width (`SameNumberWhileUniform`).
 */
module Invoices {
  import opened Wrappers
  import opened Store
  import opened InvoiceNumbering

  // ---------------------------------------------------------------------------
  // Line totals

  /** The sum of the stored line totals. */
  function LinesTotal(lines: seq<InvoiceLine>): int
    decreases |lines|
  {
    if |lines| == 0 then 0 else lines[0].total + LinesTotal(lines[1..])
  }

  lemma {:induction false} LinesTotalAppend(a: seq<InvoiceLine>, b: seq<InvoiceLine>)
    ensures LinesTotal(a + b) == LinesTotal(a) + LinesTotal(b)
    decreases |a|
  {
    if |a| == 0 {
      assert a + b == b;
    } else {
      assert (a + b)[1..] == a[1..] + b;
      LinesTotalAppend(a[1..], b);
    }
  }

  /** The invariant both routes establish: the invoice total is the sum of its lines. */
  predicate TotalMatchesLines(inv: Invoice) {
    inv.total == LinesTotal(inv.items)
  }

  /** `total = quantity * unitPrice` on one line. */
  predicate LineConsistent(line: InvoiceLine) {
    line.total == line.quantity * line.unitPrice
  }

  /** The numbers of the stored invoices. */
  function InvoiceNumbers(invoices: seq<Invoice>): (r: seq<string>)
    ensures |r| == |invoices|
    ensures forall k :: 0 <= k < |invoices| ==> r[k] == invoices[k].invoiceNumber
  {
    seq(|invoices|, k requires 0 <= k < |invoices| => invoices[k].invoiceNumber)
  }

  // ---------------------------------------------------------------------------
  // POST /api/admin/invoices

  /** One entry of `body.items`; `total` is `None` when the field is absent. */
  datatype RequestItem = RequestItem(
    productId: Option<Id>,
    description: string,
    quantity: int,
    unitPrice: int,
    total: Option<int>,
    notes: Option<string>)

  /**
   * The request body. `billingAddress` is the JSON text of the submitted
   * address object, `None` when the field is absent.
   */
  datatype InvoiceRequest = InvoiceRequest(
    userId: Id,
    quoteId: Option<Id>,
    invoiceDate: Option<Date>,
    dueDate: Option<Date>,
    billingAddress: Option<string>,
    notes: Option<string>,
    items: seq<RequestItem>)

  /** `items.reduce((sum, item) => sum + (item.total || 0), 0)` */
  function RequestTotal(items: seq<RequestItem>): (t: int)
    ensures |items| == 0 ==> t == 0
    ensures (forall k :: 0 <= k < |items| ==> items[k].total.GetOr(0) >= 0) ==> t >= 0
    decreases |items|
  {
    if |items| == 0 then 0 else items[0].total.GetOr(0) + RequestTotal(items[1..])
  }

  /** Every submitted line carries a total, as the non-null `total` column needs. */
  predicate AllTotalsGiven(items: seq<RequestItem>) {
    forall k :: 0 <= k < |items| ==> items[k].total.Some?
  }

  /**
   * The relations the insert must satisfy besides the user: a non-empty
   * `quoteId` names a stored quote, and every non-empty line `productId` a
   * stored product.
   */
  predicate ReferencesKnown(req: InvoiceRequest, quotes: seq<Quote>, products: seq<Product>) {
    && (OrNull(req.quoteId).None? || OrNull(req.quoteId).value in QuoteIds(quotes))
    && forall k :: 0 <= k < |req.items| ==>
         OrNull(req.items[k].productId).None? || OrNull(req.items[k].productId).value in ProductIds(products)
  }

  /** What the insert needs: a known user, every line total, and known quote and products. */
  predicate Insertable(req: InvoiceRequest, users: map<Id, User>, quotes: seq<Quote>, products: seq<Product>) {
    req.userId in users && AllTotalsGiven(req.items) && ReferencesKnown(req, quotes, products)
  }

  /** The stored line for one submitted item: absent product and notes become null. */
  function RequestLine(item: RequestItem): (line: InvoiceLine)
    requires item.total.Some?
    ensures line.productId == OrNull(item.productId) && line.notes == OrNull(item.notes)
    ensures line.description == item.description && line.quantity == item.quantity
    ensures line.unitPrice == item.unitPrice && line.total == item.total.value
  {
    InvoiceLine(OrNull(item.productId), item.description, item.quantity, item.unitPrice,
                item.total.value, OrNull(item.notes))
  }

  /** `items.map(...)`: one line per submitted item, in order. */
  function RequestLines(items: seq<RequestItem>): (lines: seq<InvoiceLine>)
    requires AllTotalsGiven(items)
    ensures |lines| == |items|
    ensures forall k :: 0 <= k < |items| ==> lines[k] == RequestLine(items[k])
    decreases |items|
  {
    if |items| == 0 then [] else [RequestLine(items[0])] + RequestLines(items[1..])
  }

  /** When every line has its total, the reduced total is the sum of the stored lines. */
  lemma {:induction false} RequestTotalIsLinesTotal(items: seq<RequestItem>)
    requires AllTotalsGiven(items)
    ensures RequestTotal(items) == LinesTotal(RequestLines(items))
    decreases |items|
  {
    if |items| > 0 {
      RequestTotalIsLinesTotal(items[1..]);
      assert RequestLines(items)[1..] == RequestLines(items[1..]);
    }
  }

  /** The reduced total counts an absent line total as 0. */
  lemma {:induction false} RequestTotalCountsMissingAsZero(items: seq<RequestItem>)
    ensures AllTotalsGiven(WithZeroTotals(items))
    ensures RequestTotal(items) == LinesTotal(RequestLines(WithZeroTotals(items)))
    decreases |items|
  {
    if |items| > 0 {
      RequestTotalCountsMissingAsZero(items[1..]);
      assert WithZeroTotals(items)[1..] == WithZeroTotals(items[1..]);
      assert RequestLines(WithZeroTotals(items))[1..] == RequestLines(WithZeroTotals(items[1..]));
    }
  }

  /** Each absent total replaced by 0. */
  function WithZeroTotals(items: seq<RequestItem>): (r: seq<RequestItem>)
    ensures |r| == |items|
    ensures forall k :: 0 <= k < |items| ==> r[k] == items[k].(total := Some(items[k].total.GetOr(0)))
    decreases |items|
  {
    if |items| == 0 then []
    else [items[0].(total := Some(items[0].total.GetOr(0)))] + WithZeroTotals(items[1..])
  }

  /** `prisma.invoice.create`: the invoice (with its lines) is appended to the table. */
  method StoreInvoice(db: Db, invoice: Invoice)
    requires db.Valid()
    modifies db`invoices
    ensures db.Valid()
    ensures db.invoices == old(db.invoices) + [invoice]
  {
    db.invoices := db.invoices + [invoice];
  }

  /** `POST /api/admin/invoices`. `year` and `now` stand for the clock; `newId` is the row id. */
  method CreateInvoice(db: Db, session: Option<Session>, req: InvoiceRequest, year: nat, now: Date, newId: Id)
    returns (resp: Response<Invoice>)
    requires db.Valid()
    modifies db`invoices
    ensures db.Valid()
    ensures !IsAdmin(session) ==> resp == Fail(401, "Unauthorized")
    ensures IsAdmin(session) && !Insertable(req, db.users, db.quotes, db.products) ==>
      resp == Fail(500, "Failed to create invoice")
    ensures resp.Fail? ==> db.invoices == old(db.invoices)
    ensures IsAdmin(session) && Insertable(req, db.users, db.quotes, db.products) ==>
      resp.Ok?
    ensures resp.Ok? ==>
      && AllTotalsGiven(req.items)
      && resp.body == Invoice(
        newId,
        NextInvoiceNumber(InvoiceNumbers(old(db.invoices)), year),
        req.userId,
        None,
        OrNull(req.quoteId),
        req.invoiceDate.GetOr(now),
        req.dueDate,
        req.billingAddress.GetOr("{}"),
        OrNull(req.notes),
        RequestTotal(req.items),
        RequestLines(req.items))
      && db.invoices == old(db.invoices) + [resp.body]
      && TotalMatchesLines(resp.body)
    ensures resp.Ok? ==> resp.body.invoiceNumber !in InvoiceNumbers(old(db.invoices))
  {
    if !IsAdmin(session) {
      return Fail(401, "Unauthorized");
    }
    if !Insertable(req, db.users, db.quotes, db.products) {
      return Fail(500, "Failed to create invoice");
    }
    var invoiceNumber := NextInvoiceNumber(InvoiceNumbers(db.invoices), year);
    var total := RequestTotal(req.items);
    var invoice := Invoice(
      newId, invoiceNumber, req.userId, None, OrNull(req.quoteId),
      req.invoiceDate.GetOr(now), req.dueDate, req.billingAddress.GetOr("{}"),
      OrNull(req.notes), total, RequestLines(req.items));
    RequestTotalIsLinesTotal(req.items);
    StoreInvoice(db, invoice);
    return Ok(invoice);
  }

  // ---------------------------------------------------------------------------
  // POST /api/admin/invoices/from-quote

  /** The request body of the from-quote route. */
  datatype FromQuoteRequest = FromQuoteRequest(
    quoteId: Id,
    invoiceDate: Option<Date>,
    dueDate: Option<Date>,
    billingAddress: Option<string>,
    notes: Option<string>)

  /** The quote with the given id, if any (`findUnique`). */
  function QuoteById(quotes: seq<Quote>, id: Id): (r: Option<Quote>)
    ensures r.Some? <==> id in QuoteIds(quotes)
    ensures r.Some? ==> r.value in quotes && r.value.id == id
    decreases |quotes|
  {
    if |quotes| == 0 then None
    else if quotes[0].id == id then Some(quotes[0])
    else
      assert forall q :: q in quotes ==> q == quotes[0] || q in quotes[1..];
      QuoteById(quotes[1..], id)
  }

  /** The line for one quote item: the product's name and price (0 when it has none). */
  function QuoteLine(item: QuoteItem, product: Product): (line: InvoiceLine)
    ensures line.productId == Some(item.productId) && line.description == product.name
    ensures line.quantity == item.qty && line.unitPrice == product.price.GetOr(0)
    ensures LineConsistent(line)
    ensures line.notes == OrNull(item.notes)
  {
    var unitPrice := product.price.GetOr(0);
    InvoiceLine(Some(item.productId), product.name, item.qty, unitPrice, item.qty * unitPrice, OrNull(item.notes))
  }

  /** Every item refers to a known product (the foreign key). */
  predicate ProductsKnown(items: seq<QuoteItem>, products: seq<Product>) {
    forall k :: 0 <= k < |items| ==> items[k].productId in ProductIds(products)
  }

  /** `quote.items.map(...)`: one line per quote item, in order. */
  function QuoteLines(items: seq<QuoteItem>, products: seq<Product>): (lines: seq<InvoiceLine>)
    requires ProductsKnown(items, products)
    ensures |lines| == |items|
    ensures forall k :: 0 <= k < |items| ==>
      lines[k] == QuoteLine(items[k], ProductById(products, items[k].productId).value)
    ensures forall k :: 0 <= k < |lines| ==> LineConsistent(lines[k])
    decreases |items|
  {
    if |items| == 0 then []
    else
      [QuoteLine(items[0], ProductById(products, items[0].productId).value)] + QuoteLines(items[1..], products)
  }

  /** `POST /api/admin/invoices/from-quote`. The quote itself is neither checked nor changed. */
  method CreateInvoiceFromQuote(db: Db, session: Option<Session>, req: FromQuoteRequest, year: nat, now: Date, newId: Id)
    returns (resp: Response<Invoice>)
    requires db.Valid()
    modifies db`invoices
    ensures db.Valid()
    ensures !IsAdmin(session) ==> resp == Fail(401, "Unauthorized")
    ensures IsAdmin(session) && req.quoteId !in QuoteIds(db.quotes) ==> resp == Fail(404, "Quote not found")
    ensures resp.Fail? ==> db.invoices == old(db.invoices)
    ensures IsAdmin(session) && req.quoteId in QuoteIds(db.quotes) ==> resp.Ok?
    ensures resp.Ok? ==>
      var quote := QuoteById(db.quotes, req.quoteId).value;
      var items := ItemsOf(db.quoteItems, quote.id);
      && ProductsKnown(items, db.products)
      && resp.body == Invoice(
        newId,
        NextInvoiceNumber(InvoiceNumbers(old(db.invoices)), year),
        quote.userId,
        None,
        Some(quote.id),
        req.invoiceDate.GetOr(now),
        req.dueDate,
        req.billingAddress.GetOr("{}"),
        OrNull(req.notes),
        LinesTotal(QuoteLines(items, db.products)),
        QuoteLines(items, db.products))
      && db.invoices == old(db.invoices) + [resp.body]
      && TotalMatchesLines(resp.body)
    ensures resp.Ok? ==> resp.body.invoiceNumber !in InvoiceNumbers(old(db.invoices))
  {
    if !IsAdmin(session) {
      return Fail(401, "Unauthorized");
    }
    var found := QuoteById(db.quotes, req.quoteId);
    if found.None? {
      return Fail(404, "Quote not found");
    }
    var quote := found.value;
    var invoiceNumber := NextInvoiceNumber(InvoiceNumbers(db.invoices), year);
    var items := ItemsOf(db.quoteItems, quote.id);
    assert ProductsKnown(items, db.products) by {
      forall k | 0 <= k < |items|
        ensures items[k].productId in ProductIds(db.products)
      {
        assert items[k] in db.quoteItems;
      }
    }
    var lines := QuoteLines(items, db.products);
    var invoice := Invoice(
      newId, invoiceNumber, quote.userId, None, Some(quote.id),
      req.invoiceDate.GetOr(now), req.dueDate, req.billingAddress.GetOr("{}"),
      OrNull(req.notes), LinesTotal(lines), lines);
    StoreInvoice(db, invoice);
    return Ok(invoice);
  }
}
