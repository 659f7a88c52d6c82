/**
 * Product-of-the-Month routes: a vendor applying for a month
 * (`POST /api/potm/apply`) and the administrator's month table
 * (`GET` and `PUT /api/admin/potm`).
 */
module Potm {
  import opened Wrappers
  import opened Text
  import opened Seqs
  import opened Store

  /** `pOTMMonth.findUnique({ where: { monthKey } })`. */
  function MonthByKey(rows: seq<MonthRow>, key: string): (r: Option<MonthRow>)
    ensures r.None? <==> forall row :: row in rows ==> row.monthKey != key
    ensures r.Some? ==> r.value in rows && r.value.monthKey == key
  {
    Find(rows, (row: MonthRow) => row.monthKey == key)
  }

  /** A month takes applications unless its row exists with a status other than "open". */
  predicate AcceptsApplications(rows: seq<MonthRow>, key: string)
    ensures (forall i :: 0 <= i < |rows| ==> rows[i].monthKey != key) ==> AcceptsApplications(rows, key)
    ensures !AcceptsApplications(rows, key) ==>
      exists i :: 0 <= i < |rows| && rows[i].monthKey == key && rows[i].status != OPEN
  {
    MonthByKey(rows, key).None? || MonthByKey(rows, key).value.status == OPEN
  }

  // ---------------------------------------------------------------------------
  // POST /api/potm/apply

  /** The request body; `webinar` is read but never stored. */
  datatype ApplicationRequest = ApplicationRequest(
    monthKey: string,
    companyName: string,
    contactName: string,
    contactEmail: string,
    productName: string,
    description: string,
    link: Option<string>,
    notes: Option<string>,
    webinar: bool)

  /** The row `pOTMApplication.create` inserts. */
  function NewApplication(id: Id, userId: Id, req: ApplicationRequest): (a: Application)
    ensures a.id == id && a.userId == userId && a.status == PENDING && a.monthKey == req.monthKey
    ensures a.companyName == req.companyName && a.contactName == req.contactName
    ensures a.contactEmail == req.contactEmail && a.productName == req.productName
    ensures a.description == req.description
    ensures a.link.None? <==> req.link.None? || req.link.value == ""
    ensures a.notes.None? <==> req.notes.None? || req.notes.value == ""
  {
    Application(id, userId, req.monthKey, req.companyName, req.contactName, req.contactEmail,
                req.productName, req.description, OrNull(req.link), OrNull(req.notes), PENDING)
  }

  /** The webinar choice has no effect on what is stored. */
  lemma WebinarNotStored(id: Id, userId: Id, req: ApplicationRequest)
    ensures NewApplication(id, userId, req) == NewApplication(id, userId, req.(webinar := !req.webinar))
  {
  }

  /**
   * Records a pending application for a month that is open or has no row
   * yet. The month row itself is never touched; the insert fails (its user is
   * a foreign key) when the session names a user that is not in the store.
   */
  method ApplyForMonth(db: Db, session: Option<Session>, req: ApplicationRequest, newId: Id)
    returns (resp: Response<()>)
    requires db.Valid()
    modifies db`applications
    ensures db.Valid()
    ensures session.None? ==> resp == Fail(401, "Unauthorized")
    ensures session.Some? && !AcceptsApplications(db.months, req.monthKey) ==>
      resp == Fail(400, "This month is not open for applications")
    ensures session.Some? && AcceptsApplications(db.months, req.monthKey) && session.value.userId !in db.users ==>
      resp == Fail(500, "Failed to submit application")
    ensures resp.Ok? <==>
      session.Some? && AcceptsApplications(db.months, req.monthKey) && session.value.userId in db.users
    ensures resp.Fail? ==> db.applications == old(db.applications)
    ensures resp.Ok? ==> db.applications == old(db.applications) + [NewApplication(newId, session.value.userId, req)]
  {
    if session.None? {
      return Fail(401, "Unauthorized");
    }
    var month := MonthByKey(db.months, req.monthKey);
    if month.Some? && month.value.status != OPEN {
      return Fail(400, "This month is not open for applications");
    }
    if session.value.userId !in db.users {
      return Fail(500, "Failed to submit application");
    }
    db.applications := db.applications + [NewApplication(newId, session.value.userId, req)];
    return Ok(());
  }

  // ---------------------------------------------------------------------------
  // GET /api/admin/potm

  /** `orderBy: { monthKey: "asc" }`. */
  predicate KeyLe(a: MonthRow, b: MonthRow) {
    LexLe(a.monthKey, b.monthKey)
  }

  lemma KeyOrderIsPreorder()
    ensures TotalPreorder(KeyLe)
  {
    forall a: MonthRow, b: MonthRow
      ensures KeyLe(a, b) || KeyLe(b, a)
    {
      LexLeTotal(a.monthKey, b.monthKey);
    }
    forall a: MonthRow, b: MonthRow, c: MonthRow | KeyLe(a, b) && KeyLe(b, c)
      ensures KeyLe(a, c)
    {
      LexLeTransitive(a.monthKey, b.monthKey, c.monthKey);
    }
  }

  /** Every month row, in ascending key order; administrators only. */
  function ListMonths(rows: seq<MonthRow>, session: Option<Session>): (r: Response<seq<MonthRow>>)
    ensures !IsAdmin(session) <==> r == Fail(401, "Unauthorized")
    ensures r.Ok? ==> multiset(r.body) == multiset(rows)
    ensures r.Ok? ==> forall i, j :: 0 <= i < j < |r.body| ==> LexLe(r.body[i].monthKey, r.body[j].monthKey)
  {
    if !IsAdmin(session) then Fail(401, "Unauthorized")
    else
      KeyOrderIsPreorder();
      Ok(SortBy(rows, KeyLe))
  }

  // ---------------------------------------------------------------------------
  // PUT /api/admin/potm

  /** Where the row with `key` sits, if anywhere. */
  function MonthIndex(rows: seq<MonthRow>, key: string): (i: Option<nat>)
    ensures i.None? <==> forall row :: row in rows ==> row.monthKey != key
    ensures i.Some? ==> i.value < |rows| && rows[i.value].monthKey == key
  {
    if |rows| == 0 then None
    else if rows[0].monthKey == key then Some(0)
    else
      assert forall row :: row in rows ==> row == rows[0] || row in rows[1..];
      match MonthIndex(rows[1..], key)
      case None => None
      case Some(j) => Some(j + 1)
  }

  /**
   * `pOTMMonth.upsert`: overwrites the status and label of the row with the
   * key, or creates it. The status is stored as given.
   */
  method UpsertMonth(db: Db, session: Option<Session>, monthKey: string, status: string, reservedLabel: Option<string>)
    returns (resp: Response<MonthRow>)
    requires db.Valid()
    modifies db`months
    ensures db.Valid()
    ensures !IsAdmin(session) ==> resp == Fail(401, "Unauthorized") && db.months == old(db.months)
    ensures IsAdmin(session) ==> resp == Ok(MonthRow(monthKey, status, OrNull(reservedLabel)))
    ensures resp.Ok? ==> MonthByKey(db.months, monthKey) == Some(resp.body)
    ensures resp.Ok? ==> forall row: MonthRow :: row.monthKey != monthKey ==> (row in db.months <==> row in old(db.months))
    ensures resp.Ok? && MonthByKey(old(db.months), monthKey).Some? ==> |db.months| == |old(db.months)|
    ensures resp.Ok? && MonthByKey(old(db.months), monthKey).None? ==> db.months == old(db.months) + [resp.body]
  {
    if !IsAdmin(session) {
      return Fail(401, "Unauthorized");
    }
    var row := MonthRow(monthKey, status, OrNull(reservedLabel));
    var rows := db.months;
    var at := MonthIndex(rows, monthKey);
    if at.Some? {
      db.months := rows[at.value := row];
      ReplaceRowFacts(rows, at.value, row);
    } else {
      db.months := rows + [row];
      AppendRowFacts(rows, row);
    }
    return Ok(row);
  }

  /** Overwriting the row that holds the key keeps keys unique and every other row. */
  lemma ReplaceRowFacts(rows: seq<MonthRow>, i: nat, row: MonthRow)
    requires UniqueMonthKeys(rows) && i < |rows| && rows[i].monthKey == row.monthKey
    ensures UniqueMonthKeys(rows[i := row])
    ensures MonthByKey(rows[i := row], row.monthKey) == Some(row)
    ensures forall r: MonthRow :: r.monthKey != row.monthKey ==> (r in rows[i := row] <==> r in rows)
  {
    var s := rows[i := row];
    assert s[i] == row;
    forall r | r in s && r.monthKey != row.monthKey
      ensures r in rows
    {
      var k :| 0 <= k < |s| && s[k] == r;
      assert rows[k] == r;
    }
    forall r | r in s && r.monthKey == row.monthKey
      ensures r == row
    {
      var k :| 0 <= k < |s| && s[k] == r;
      assert k == i;
    }
    forall r | r in rows && r.monthKey != row.monthKey
      ensures r in s
    {
      var k :| 0 <= k < |rows| && rows[k] == r;
      assert s[k] == r;
    }
  }

  /** Appending a row with a new key keeps keys unique. */
  lemma AppendRowFacts(rows: seq<MonthRow>, row: MonthRow)
    requires UniqueMonthKeys(rows) && forall r :: r in rows ==> r.monthKey != row.monthKey
    ensures UniqueMonthKeys(rows + [row])
    ensures MonthByKey(rows + [row], row.monthKey) == Some(row)
  {
    var s := rows + [row];
    forall i, j | 0 <= i < j < |s|
      ensures s[i].monthKey != s[j].monthKey
    {
      if j == |rows| {
        assert s[i] in rows;
      } else {
        assert s[i] == rows[i] && s[j] == rows[j];
      }
    }
    forall r | r in s && r.monthKey == row.monthKey
      ensures r == row
    {
    }
  }
}
