/**
 * The relational store behind the route handlers, as in-memory tables, plus
 * the request session and the JSON response shape shared by all routes.
 *
 * Each table is a sequence in creation order, so `orderBy: { createdAt: ... }`
 * is insertion order. Row ids (cuids generated by the ORM) are handed to the
 * operations that insert rows, as parameters.
 */
module Store {
  import opened Wrappers

  type Id = string

  /** A timestamp; date parsing and the clock are outside the model. */
  type Date = int

  /** The signed-in user as the session callback exposes it. */
  datatype Session = Session(userId: Id, role: string)

  /** `NextResponse.json(body)` or `NextResponse.json({ error }, { status })`. */
  datatype Response<T> = Ok(body: T) | Fail(status: nat, error: string)

  predicate IsAdmin(session: Option<Session>) {
    session.Some? && session.value.role == "admin"
  }

  const PENDING := "pending"
  const SUBMITTED := "submitted"
  const OPEN := "open"

  datatype User = User(id: Id, role: string, companyId: Option<Id>)

  datatype Product = Product(id: Id, name: string, price: Option<int>)

  datatype Quote = Quote(id: Id, userId: Id, status: string, name: Option<string>)

  datatype QuoteItem = QuoteItem(id: Id, quoteId: Id, productId: Id, qty: int, notes: Option<string>)

  /** One invoice line; amounts are in cents. */
  datatype InvoiceLine = InvoiceLine(
    productId: Option<Id>,
    description: string,
    quantity: int,
    unitPrice: int,
    total: int,
    notes: Option<string>)

  datatype Invoice = Invoice(
    id: Id,
    invoiceNumber: string,
    userId: Id,
    companyId: Option<Id>,
    quoteId: Option<Id>,
    invoiceDate: Date,
    dueDate: Option<Date>,
    billingAddress: string,
    notes: Option<string>,
    total: int,
    items: seq<InvoiceLine>)

  /** A Product-of-the-Month calendar slot, keyed `YYYY-MM`. */
  datatype MonthRow = MonthRow(monthKey: string, status: string, reservedLabel: Option<string>)

  datatype Application = Application(
    id: Id,
    userId: Id,
    monthKey: string,
    companyName: string,
    contactName: string,
    contactEmail: string,
    productName: string,
    description: string,
    link: Option<string>,
    notes: Option<string>,
    status: string)

  ghost predicate UniqueQuoteIds(qs: seq<Quote>) {
    forall i, j :: 0 <= i < j < |qs| ==> qs[i].id != qs[j].id
  }

  ghost predicate UniqueItemIds(items: seq<QuoteItem>) {
    forall i, j :: 0 <= i < j < |items| ==> items[i].id != items[j].id
  }

  ghost predicate UniqueMonthKeys(rows: seq<MonthRow>) {
    forall i, j :: 0 <= i < j < |rows| ==> rows[i].monthKey != rows[j].monthKey
  }

  function QuoteIds(qs: seq<Quote>): set<Id> {
    set q | q in qs :: q.id
  }

  function ItemIds(items: seq<QuoteItem>): set<Id> {
    set it | it in items :: it.id
  }

  function ProductIds(products: seq<Product>): set<Id> {
    set p | p in products :: p.id
  }

  /** `include: { product: true }`: the product a quote item refers to. */
  function ProductById(products: seq<Product>, id: Id): (r: Option<Product>)
    ensures r.Some? <==> id in ProductIds(products)
    ensures r.Some? ==> r.value in products && r.value.id == id
  {
    if |products| == 0 then None
    else if products[0].id == id then Some(products[0])
    else
      assert forall p :: p in products ==> p == products[0] || p in products[1..];
      ProductById(products[1..], id)
  }

  /** The items of one quote, in creation order. */
  function ItemsOf(items: seq<QuoteItem>, quoteId: Id): (r: seq<QuoteItem>)
    ensures forall it :: it in r <==> it in items && it.quoteId == quoteId
    ensures |r| <= |items|
    decreases |items|
  {
    if |items| == 0 then []
    else
      var init := items[..|items| - 1];
      var last := items[|items| - 1];
      assert items == init + [last];
      ItemsOf(init, quoteId) + (if last.quoteId == quoteId then [last] else [])
  }

  /** The database: one table per model the core touches. */
  class Db {
    var users: map<Id, User>
    var products: seq<Product>
    var quotes: seq<Quote>
    var quoteItems: seq<QuoteItem>
    var invoices: seq<Invoice>
    var months: seq<MonthRow>
    var applications: seq<Application>

    /**
     * Primary keys are unique, `monthKey` is unique, every quote belongs to
     * an existing user, and every quote item refers to an existing quote and
     * product (foreign keys).
     */
    ghost predicate Valid()
      reads this
    {
      && UniqueQuoteIds(quotes)
      && UniqueItemIds(quoteItems)
      && UniqueMonthKeys(months)
      && (forall q :: q in quotes ==> q.userId in users)
      && (forall it :: it in quoteItems ==> it.quoteId in QuoteIds(quotes))
      && (forall it :: it in quoteItems ==> it.productId in ProductIds(products))
    }

    constructor (users: map<Id, User>, products: seq<Product>)
      ensures Valid()
      ensures this.users == users && this.products == products
      ensures quotes == [] && quoteItems == [] && invoices == []
      ensures months == [] && applications == []
    {
      this.users := users;
      this.products := products;
      quotes := [];
      quoteItems := [];
      invoices := [];
      months := [];
      applications := [];
    }
  }
}
