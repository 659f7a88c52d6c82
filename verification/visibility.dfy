/**
 * What a signed-in vendor may list: `GET /api/quotes/my` and
 * `GET /api/invoices/my`. Both routes read the caller's company and select by
 * it; the store is only read, so both are functions of its tables.
 */
module Visibility {
  import opened Wrappers
  import opened Seqs
  import opened Store

  /** `user?.companyId` as a condition: a missing user, a null and an empty id are all falsy. */
  function CompanyOf(users: map<Id, User>, userId: Id): (c: Option<Id>)
    ensures c.Some? <==> userId in users && users[userId].companyId.Some? && users[userId].companyId.value != ""
    ensures c.Some? ==> c == users[userId].companyId
  {
    if userId in users && users[userId].companyId.Some? && users[userId].companyId.value != "" then
      users[userId].companyId
    else None
  }

  /**
   * The `where` clause of the quote listing: the caller's own quotes when
   * they have no company, otherwise every quote whose owner is in their company.
   */
  predicate QuoteVisibleTo(users: map<Id, User>, userId: Id, q: Quote) {
    match CompanyOf(users, userId)
    case None => q.userId == userId
    case Some(c) => q.userId in users && users[q.userId].companyId == Some(c)
  }

  /** `GET /api/quotes/my`: the visible quotes, newest first. */
  function MyQuotes(users: map<Id, User>, quotes: seq<Quote>, session: Option<Session>): (r: Response<seq<Quote>>)
    ensures session.None? <==> r == Fail(401, "Unauthorized")
    ensures r.Ok? ==> forall q :: q in r.body <==> q in quotes && QuoteVisibleTo(users, session.value.userId, q)
    ensures r.Ok? ==> Reversed(r.body) == Filter(quotes, (q: Quote) => QuoteVisibleTo(users, session.value.userId, q))
  {
    if session.None? then Fail(401, "Unauthorized")
    else
      var visible := Filter(quotes, (q: Quote) => QuoteVisibleTo(users, session.value.userId, q));
      ReversedMembers(visible);
      ReversedTwice(visible);
      Ok(Reversed(visible))
  }

  lemma ReversedTwice<T>(s: seq<T>)
    ensures Reversed(Reversed(s)) == s
  {
  }

  /** Without a company, a user sees exactly their own quotes. */
  lemma NoCompanySeesOwnQuotes(users: map<Id, User>, quotes: seq<Quote>, s: Session)
    requires CompanyOf(users, s.userId).None?
    ensures forall q :: q in MyQuotes(users, quotes, Some(s)).body <==> q in quotes && q.userId == s.userId
  {
  }

  /**
   * With a company, a user sees the quotes of every member of that company,
   * other users' quotes included.
   */
  lemma CompanySeesColleaguesQuotes(users: map<Id, User>, quotes: seq<Quote>, s: Session, q: Quote)
    requires CompanyOf(users, s.userId).Some? && q in quotes
    requires q.userId in users && users[q.userId].companyId == users[s.userId].companyId
    ensures q in MyQuotes(users, quotes, Some(s)).body
  {
  }

  /** Whichever branch applies, a user's own quotes are always listed. */
  lemma OwnQuotesAlwaysListed(users: map<Id, User>, quotes: seq<Quote>, s: Session, q: Quote)
    requires q in quotes && q.userId == s.userId
    ensures q in MyQuotes(users, quotes, Some(s)).body
  {
    match CompanyOf(users, s.userId)
    case None =>
    case Some(c) =>
      assert users[q.userId].companyId == Some(c);
  }

  /** `GET /api/invoices/my`: the company's invoices, newest first, or none without a company. */
  function MyInvoices(users: map<Id, User>, invoices: seq<Invoice>, session: Option<Session>): (r: Response<seq<Invoice>>)
    ensures session.None? <==> r == Fail(401, "Unauthorized")
    ensures r.Ok? && CompanyOf(users, session.value.userId).None? ==> r.body == []
    ensures r.Ok? && CompanyOf(users, session.value.userId).Some? ==>
      && (forall inv :: inv in r.body <==> inv in invoices && inv.companyId == CompanyOf(users, session.value.userId))
      && Reversed(r.body) == Filter(invoices, (inv: Invoice) => inv.companyId == CompanyOf(users, session.value.userId))
  {
    if session.None? then Fail(401, "Unauthorized")
    else
      var company := CompanyOf(users, session.value.userId);
      if company.None? then Ok([])
      else
        var mine := Filter(invoices, (inv: Invoice) => inv.companyId == company);
        ReversedMembers(mine);
        ReversedTwice(mine);
        Ok(Reversed(mine))
  }

  /**
   * An invoice without a company is listed to nobody; both creation routes
   * store invoices that way.
   */
  lemma InvoiceWithoutCompanyUnlisted(users: map<Id, User>, invoices: seq<Invoice>, s: Session, inv: Invoice)
    requires inv.companyId.None?
    ensures inv !in MyInvoices(users, invoices, Some(s)).body
  {
  }
}
