/**
 * The Product-of-the-Month calendars: the public page (app/potm/page.tsx),
 * which shows the twelve months of the current year with their status and
 * the number of pending applications, and the administrator's page
 * (app/admin/potm/page.tsx), which shows the same months with their
 * applications and offers the application dialog's actions.
 */
module PotmCalendar {
  import opened Wrappers
  import opened Text
  import opened Seqs
  import opened Store
  import opened Potm

  const MonthNames: seq<string> := [
    "January", "February", "March", "April", "May", "June",
    "July", "August", "September", "October", "November", "December"
  ]

  // ---------------------------------------------------------------------------
  // Month keys

  /** `String(index + 1).padStart(2, "0")` */
  function MonthNumber(index: nat): (m: string)
    ensures AllDigits(m) && DigitsValue(m) == index + 1
    ensures index < 12 ==> |m| == 2
  {
    PaddedValue(index + 1, 2);
    PadZeros(NatToString(index + 1), 2)
  }

  /** `` `${year}-${monthNum}` ``: the key of month `index` (0 = January). */
  function MonthKey(year: nat, index: nat): (k: string)
    ensures StartsWith(k, NatToString(year))
  {
    StartsWithConcat(NatToString(year), "-" + MonthNumber(index));
    assert NatToString(year) + "-" + MonthNumber(index) == NatToString(year) + ("-" + MonthNumber(index));
    NatToString(year) + "-" + MonthNumber(index)
  }

  /** The twelve keys of a year are pairwise different. */
  lemma MonthKeysDistinct(year: nat, i: nat, j: nat)
    requires i < 12 && j < 12 && i != j
    ensures MonthKey(year, i) != MonthKey(year, j)
  {
    var ki, kj := MonthKey(year, i), MonthKey(year, j);
    assert MonthNumber(i) != MonthNumber(j);
    assert ki[|ki| - 2..] == MonthNumber(i);
    assert kj[|kj| - 2..] == MonthNumber(j);
  }

  // ---------------------------------------------------------------------------
  // Lookups shared by both pages

  /**
   * `new Map(rows.map(m => [m.monthKey, m])).get(key)`: a later entry
   * replaces an earlier one with the same key, so the last row wins.
   */
  function LastRowWithKey(rows: seq<MonthRow>, key: string): (r: Option<MonthRow>)
    ensures r.None? <==> forall row :: row in rows ==> row.monthKey != key
    ensures r.Some? ==> r.value in rows && r.value.monthKey == key
    decreases |rows|
  {
    if |rows| == 0 then None
    else
      var last := rows[|rows| - 1];
      assert rows == rows[..|rows| - 1] + [last];
      if last.monthKey == key then Some(last) else LastRowWithKey(rows[..|rows| - 1], key)
  }

  /** With unique keys the page's lookup finds the row the apply route finds. */
  lemma LastRowIsTheRow(rows: seq<MonthRow>, key: string)
    requires UniqueMonthKeys(rows)
    ensures LastRowWithKey(rows, key) == MonthByKey(rows, key)
  {
    var a, b := LastRowWithKey(rows, key), MonthByKey(rows, key);
    if a.Some? {
      var i :| 0 <= i < |rows| && rows[i] == a.value;
      var j :| 0 <= j < |rows| && rows[j] == b.value;
      assert i == j;
    }
  }

  /** `potmMonth?.status || "open"`: a missing row and an empty status both read "open". */
  function ShownStatus(row: Option<MonthRow>): (s: string)
    ensures s != ""
    ensures row.None? ==> s == OPEN
    ensures row.Some? && row.value.status != "" ==> s == row.value.status
    ensures row.Some? && row.value.status == "" ==> s == OPEN
  {
    if row.Some? && row.value.status != "" then row.value.status else OPEN
  }

  // ---------------------------------------------------------------------------
  // Public calendar (app/potm/page.tsx)

  /** `monthKey: { startsWith: currentYear.toString() }` */
  function RowsOfYear(rows: seq<MonthRow>, year: nat): (r: seq<MonthRow>)
    ensures forall row :: row in r <==> row in rows && StartsWith(row.monthKey, NatToString(year))
  {
    Filter(rows, KeyStartsWith(NatToString(year)))
  }

  function KeyStartsWith(prefix: string): MonthRow -> bool {
    (row: MonthRow) => StartsWith(row.monthKey, prefix)
  }

  function PendingWithPrefix(prefix: string): Application -> bool {
    (a: Application) => StartsWith(a.monthKey, prefix) && a.status == PENDING
  }

  /** The pending applications of the year, the second query of the page. */
  function PendingOfYear(apps: seq<Application>, year: nat): (r: seq<Application>)
    ensures forall a :: a in r <==> a in apps && StartsWith(a.monthKey, NatToString(year)) && a.status == PENDING
  {
    Filter(apps, PendingWithPrefix(NatToString(year)))
  }

  /** How many applications in `apps` name `key`. */
  function KeyCount(apps: seq<Application>, key: string): nat
    decreases |apps|
  {
    if |apps| == 0 then 0
    else KeyCount(apps[..|apps| - 1], key) + (if apps[|apps| - 1].monthKey == key then 1 else 0)
  }

  /** How many pending applications name `key`: what the badge is meant to show. */
  function PendingCount(apps: seq<Application>, key: string): nat
    decreases |apps|
  {
    if |apps| == 0 then 0
    else
      var a := apps[|apps| - 1];
      PendingCount(apps[..|apps| - 1], key) + (if a.monthKey == key && a.status == PENDING then 1 else 0)
  }

  /**
   * The `forEach` that fills `pendingCountMap`: one more for each
   * application's key.
   */
  method CountByKey(apps: seq<Application>) returns (counts: map<string, nat>)
    ensures forall key :: key in counts <==> KeyCount(apps, key) > 0
    ensures forall key :: key in counts ==> counts[key] == KeyCount(apps, key)
  {
    counts := map[];
    var i := 0;
    while i < |apps|
      invariant 0 <= i <= |apps|
      invariant forall key :: key in counts <==> KeyCount(apps[..i], key) > 0
      invariant forall key :: key in counts ==> counts[key] == KeyCount(apps[..i], key)
    {
      var key := apps[i].monthKey;
      counts := counts[key := (if key in counts then counts[key] else 0) + 1];
      assert apps[..i + 1][..i] == apps[..i];
      i := i + 1;
    }
    assert apps[..|apps|] == apps;
  }

  /** `pendingCountMap.get(key) || 0` */
  function CountOrZero(counts: map<string, nat>, key: string): (n: nat)
    ensures key in counts ==> n == counts[key]
    ensures key !in counts ==> n == 0
  {
    if key in counts then counts[key] else 0
  }

  /**
   * A filter that keeps only pending applications, and every pending one of
   * `key`, keeps the pending count of `key`.
   */
  lemma {:induction false} KeyCountOfFilter(apps: seq<Application>, p: Application -> bool, key: string)
    requires forall a :: a in apps ==> (p(a) ==> a.status == PENDING) && (a.monthKey == key && a.status == PENDING ==> p(a))
    ensures KeyCount(Filter(apps, p), key) == PendingCount(apps, key)
    decreases |apps|
  {
    if |apps| > 0 {
      var init, last := apps[..|apps| - 1], apps[|apps| - 1];
      assert apps == init + [last];
      var f := Filter(init, p);
      assert KeyCount(f, key) == PendingCount(init, key) by {
        assert forall a :: a in init ==> a in apps;
        KeyCountOfFilter(init, p, key);
      }
      FilterAppend(init, last, p);
      assert last in apps;
      assert PendingCount(apps, key) ==
        PendingCount(init, key) + (if last.monthKey == key && last.status == PENDING then 1 else 0);
      if p(last) {
        assert (f + [last])[..|f|] == f;
        assert Filter(apps, p) == f + [last];
        assert KeyCount(f + [last], key) == KeyCount(f, key) + (if last.monthKey == key then 1 else 0);
      } else {
        assert Filter(apps, p) == f;
        assert !(last.monthKey == key && last.status == PENDING);
      }
    }
  }

  /** Restricting to the year's pending applications loses none of a key of that year. */
  lemma YearFilterKeepsCount(apps: seq<Application>, prefix: string, key: string)
    requires StartsWith(key, prefix)
    ensures KeyCount(Filter(apps, PendingWithPrefix(prefix)), key) == PendingCount(apps, key)
  {
    KeyCountOfFilter(apps, PendingWithPrefix(prefix), key);
  }

  /** A filter that keeps every row of `key` keeps the row `key` reads. */
  lemma {:induction false} LastRowOfFilter(rows: seq<MonthRow>, p: MonthRow -> bool, key: string)
    requires forall r :: r in rows && r.monthKey == key ==> p(r)
    ensures LastRowWithKey(Filter(rows, p), key) == LastRowWithKey(rows, key)
    decreases |rows|
  {
    if |rows| > 0 {
      var init, last := rows[..|rows| - 1], rows[|rows| - 1];
      assert rows == init + [last];
      var f := Filter(init, p);
      assert LastRowWithKey(f, key) == LastRowWithKey(init, key) by {
        assert forall r :: r in init ==> r in rows;
        LastRowOfFilter(init, p, key);
      }
      FilterAppend(init, last, p);
      assert last in rows;
      if p(last) {
        assert (f + [last])[..|f|] == f;
        assert Filter(rows, p) == f + [last];
        assert LastRowWithKey(f + [last], key) == if last.monthKey == key then Some(last) else LastRowWithKey(f, key);
        assert LastRowWithKey(rows, key) == if last.monthKey == key then Some(last) else LastRowWithKey(init, key);
      } else {
        assert last.monthKey != key;
        assert Filter(rows, p) == f;
      }
    }
  }

  /** Restricting to the year's rows keeps the row of a key of that year. */
  lemma YearFilterKeepsRow(rows: seq<MonthRow>, prefix: string, key: string)
    requires StartsWith(key, prefix)
    ensures LastRowWithKey(Filter(rows, KeyStartsWith(prefix)), key) == LastRowWithKey(rows, key)
  {
    LastRowOfFilter(rows, KeyStartsWith(prefix), key);
  }

  datatype CalendarMonth = CalendarMonth(
    monthKey: string,
    monthName: string,
    monthNum: nat,
    status: string,
    reservedLabel: Option<string>,
    pendingCount: nat)

  /** One card of `allMonths`. */
  function PublicMonth(year: nat, index: nat, yearRows: seq<MonthRow>, counts: map<string, nat>): (m: CalendarMonth)
    requires index < 12
    ensures m.monthKey == MonthKey(year, index) && m.monthName == MonthNames[index] && m.monthNum == index + 1
    ensures m.status == ShownStatus(LastRowWithKey(yearRows, m.monthKey))
    ensures m.pendingCount == CountOrZero(counts, m.monthKey)
    ensures m.reservedLabel == LabelOrNull(LastRowWithKey(yearRows, m.monthKey))
  {
    var key := MonthKey(year, index);
    var row := LastRowWithKey(yearRows, key);
    CalendarMonth(key, MonthNames[index], index + 1, ShownStatus(row), LabelOrNull(row), CountOrZero(counts, key))
  }

  /** `potmMonth?.reservedLabel || null`: a missing row, a null and an empty label all give null. */
  function LabelOrNull(row: Option<MonthRow>): (l: Option<string>)
    ensures l.Some? <==> row.Some? && row.value.reservedLabel.Some? && row.value.reservedLabel.value != ""
    ensures l.Some? ==> l == row.value.reservedLabel
  {
    if row.Some? then OrNull(row.value.reservedLabel) else None
  }

  /** The page's data: twelve cards, January first. */
  method PublicCalendar(year: nat, rows: seq<MonthRow>, apps: seq<Application>) returns (cal: seq<CalendarMonth>)
    ensures |cal| == 12
    ensures forall i :: 0 <= i < 12 ==>
      cal[i].monthKey == MonthKey(year, i) && cal[i].monthName == MonthNames[i] && cal[i].monthNum == i + 1
    ensures forall i :: 0 <= i < 12 ==> cal[i].status == ShownStatus(LastRowWithKey(rows, MonthKey(year, i)))
    ensures forall i :: 0 <= i < 12 ==> cal[i].reservedLabel == LabelOrNull(LastRowWithKey(rows, MonthKey(year, i)))
    ensures forall i :: 0 <= i < 12 ==> cal[i].pendingCount == PendingCount(apps, MonthKey(year, i))
  {
    var yearRows := RowsOfYear(rows, year);
    var pending := PendingOfYear(apps, year);
    var counts := CountByKey(pending);
    cal := seq(12, i requires 0 <= i < 12 => PublicMonth(year, i, yearRows, counts));
    forall i | 0 <= i < 12
      ensures cal[i].status == ShownStatus(LastRowWithKey(rows, MonthKey(year, i)))
      ensures cal[i].reservedLabel == LabelOrNull(LastRowWithKey(rows, MonthKey(year, i)))
      ensures cal[i].pendingCount == PendingCount(apps, MonthKey(year, i))
    {
      YearFilterKeepsRow(rows, NatToString(year), MonthKey(year, i));
      YearFilterKeepsCount(apps, NatToString(year), MonthKey(year, i));
    }
  }

  /** The card shows the Apply link exactly when its status is "open"; otherwise "Reserved". */
  predicate ShowsApply(m: CalendarMonth) {
    m.status == OPEN
  }

  /**
   * The Apply link and the apply route agree on every month whose row is
   * missing or has a non-empty status.
   */
  lemma ApplyLinkMatchesGuard(rows: seq<MonthRow>, key: string)
    requires UniqueMonthKeys(rows)
    requires MonthByKey(rows, key).None? || MonthByKey(rows, key).value.status != ""
    ensures ShownStatus(LastRowWithKey(rows, key)) == OPEN <==> AcceptsApplications(rows, key)
  {
    LastRowIsTheRow(rows, key);
  }

  /** The same agreement, stated on the card the public calendar renders for that month. */
  lemma CardApplyMatchesGuard(year: nat, index: nat, rows: seq<MonthRow>, counts: map<string, nat>)
    requires index < 12 && UniqueMonthKeys(rows)
    requires var key := MonthKey(year, index);
      MonthByKey(rows, key).None? || MonthByKey(rows, key).value.status != ""
    ensures ShowsApply(PublicMonth(year, index, rows, counts)) <==> AcceptsApplications(rows, MonthKey(year, index))
  {
    ApplyLinkMatchesGuard(rows, MonthKey(year, index));
  }

  /**
   * A row stored with an empty status (the month upsert does not validate
   * it) is shown with an Apply link, yet the apply route refuses it.
   */
  lemma EmptyStatusShowsApplyButRefuses(key: string)
    ensures ShownStatus(LastRowWithKey([MonthRow(key, "", None)], key)) == OPEN
    ensures !AcceptsApplications([MonthRow(key, "", None)], key)
  {
    assert LastRowWithKey([MonthRow(key, "", None)], key) == Some(MonthRow(key, "", None));
  }

  // ---------------------------------------------------------------------------
  // Administrator's calendar (app/admin/potm/page.tsx)

  datatype AdminMonth = AdminMonth(
    monthKey: string,
    monthName: string,
    status: string,
    reservedLabel: string,
    applications: seq<Application>)

  /** `potmMonth?.reservedLabel || ""` */
  function LabelOrEmpty(row: Option<MonthRow>): (l: string)
    ensures row.Some? && row.value.reservedLabel.Some? ==> l == row.value.reservedLabel.value
    ensures row.None? || row.value.reservedLabel.None? ==> l == ""
  {
    if row.Some? && row.value.reservedLabel.Some? then row.value.reservedLabel.value else ""
  }

  /** `applications.filter(app => app.monthKey === monthKey)` */
  function ApplicationsFor(apps: seq<Application>, key: string): (r: seq<Application>)
    ensures forall a :: a in r <==> a in apps && a.monthKey == key
  {
    Filter(apps, ForMonth(key))
  }

  function ForMonth(key: string): Application -> bool {
    (a: Application) => a.monthKey == key
  }

  function AdminMonthAt(year: nat, index: nat, rows: seq<MonthRow>, apps: seq<Application>): (m: AdminMonth)
    requires index < 12
    ensures m.monthKey == MonthKey(year, index) && m.monthName == MonthNames[index]
    ensures m.status == ShownStatus(LastRowWithKey(rows, m.monthKey))
    ensures m.reservedLabel == LabelOrEmpty(LastRowWithKey(rows, m.monthKey))
    ensures forall a :: a in m.applications <==> a in apps && a.monthKey == m.monthKey
  {
    var key := MonthKey(year, index);
    var row := LastRowWithKey(rows, key);
    AdminMonth(key, MonthNames[index], ShownStatus(row), LabelOrEmpty(row), ApplicationsFor(apps, key))
  }

  /** The page's `allMonths`: twelve months with their applications. */
  function AdminCalendar(year: nat, rows: seq<MonthRow>, apps: seq<Application>): (cal: seq<AdminMonth>)
    ensures |cal| == 12
    ensures forall i :: 0 <= i < 12 ==> cal[i] == AdminMonthAt(year, i, rows, apps)
  {
    seq(12, i requires 0 <= i < 12 => AdminMonthAt(year, i, rows, apps))
  }

  /** An application of one of the year's months is listed under that month and no other. */
  lemma ApplicationListedOnce(year: nat, rows: seq<MonthRow>, apps: seq<Application>, a: Application, i: nat)
    requires a in apps && i < 12 && a.monthKey == MonthKey(year, i)
    ensures a in AdminCalendar(year, rows, apps)[i].applications
    ensures forall j :: 0 <= j < 12 && j != i ==> a !in AdminCalendar(year, rows, apps)[j].applications
  {
    forall j | 0 <= j < 12 && j != i
      ensures a !in AdminCalendar(year, rows, apps)[j].applications
    {
      MonthKeysDistinct(year, i, j);
    }
  }

  /** `month.applications.filter(app => app.status === "pending")` */
  function PendingApps(m: AdminMonth): (r: seq<Application>)
    ensures forall a :: a in r <==> a in m.applications && a.status == PENDING
  {
    Filter(m.applications, IsPending())
  }

  function IsPending(): Application -> bool {
    (a: Application) => a.status == PENDING
  }

  /** `month.applications.find(app => app.status === "approved")` */
  function ApprovedApp(m: AdminMonth): (r: Option<Application>)
    ensures r.None? <==> forall a :: a in m.applications ==> a.status != "approved"
    ensures r.Some? ==> r.value.status == "approved"
    ensures r.Some? ==> exists i :: 0 <= i < |m.applications| && m.applications[i] == r.value &&
                                   forall j :: 0 <= j < i ==> m.applications[j].status != "approved"
  {
    Find(m.applications, (a: Application) => a.status == "approved")
  }

  /** "No applications yet" appears exactly when no application names the month. */
  lemma NoApplicationsNotice(year: nat, rows: seq<MonthRow>, apps: seq<Application>, i: nat)
    requires i < 12
    ensures |AdminCalendar(year, rows, apps)[i].applications| == 0 <==>
      forall a :: a in apps ==> a.monthKey != MonthKey(year, i)
  {
    var l := AdminCalendar(year, rows, apps)[i].applications;
    if |l| > 0 {
      assert l[0] in l;
    }
  }

  /** The administrator's pending badge counts what the public badge counts. */
  lemma {:induction false} PendingAppsCount(apps: seq<Application>, key: string)
    ensures |Filter(ApplicationsFor(apps, key), IsPending())| == PendingCount(apps, key)
    decreases |apps|
  {
    if |apps| > 0 {
      var init, last := apps[..|apps| - 1], apps[|apps| - 1];
      assert apps == init + [last];
      var f := ApplicationsFor(init, key);
      assert |Filter(f, IsPending())| == PendingCount(init, key) by {
        PendingAppsCount(init, key);
      }
      FilterAppend(init, last, ForMonth(key));
      assert PendingCount(apps, key) ==
        PendingCount(init, key) + (if last.monthKey == key && last.status == PENDING then 1 else 0);
      if last.monthKey == key {
        assert ApplicationsFor(apps, key) == f + [last];
        FilterAppend(f, last, IsPending());
        assert |Filter(f + [last], IsPending())| == |Filter(f, IsPending())| + (if last.status == PENDING then 1 else 0);
      } else {
        assert ApplicationsFor(apps, key) == f;
      }
    }
  }

  lemma AdminPendingMatchesPublic(year: nat, rows: seq<MonthRow>, apps: seq<Application>, i: nat)
    requires i < 12
    ensures |PendingApps(AdminCalendar(year, rows, apps)[i])| == PendingCount(apps, MonthKey(year, i))
  {
    PendingAppsCount(apps, MonthKey(year, i));
  }

  // ---------------------------------------------------------------------------
  // The application dialog (`ApplicationDetails`)

  /** The month choices of the dialog's select. */
  function MonthOptions(year: nat): (keys: seq<string>)
    ensures |keys| == 12
    ensures forall i :: 0 <= i < 12 ==> keys[i] == MonthKey(year, i)
  {
    seq(12, i requires 0 <= i < 12 => MonthKey(year, i))
  }

  /** The dialog offers the calendar's twelve months, each once. */
  lemma MonthOptionsAreCalendarKeys(year: nat, rows: seq<MonthRow>, apps: seq<Application>)
    ensures forall i :: 0 <= i < 12 ==> MonthOptions(year)[i] == AdminCalendar(year, rows, apps)[i].monthKey
    ensures forall i, j :: 0 <= i < j < 12 ==> MonthOptions(year)[i] != MonthOptions(year)[j]
  {
    forall i, j | 0 <= i < j < 12
      ensures MonthOptions(year)[i] != MonthOptions(year)[j]
    {
      MonthKeysDistinct(year, i, j);
    }
  }

  datatype DialogAction = UpdateMonthOnly | Approve | Deny | ResetToPending

  /** The dialog's buttons, top to bottom. */
  function DialogActions(app: Application, selectedMonth: string): (r: seq<DialogAction>)
    ensures Approve in r && Deny in r
    ensures UpdateMonthOnly in r <==> selectedMonth != app.monthKey
    ensures ResetToPending in r <==> app.status != PENDING
  {
    (if selectedMonth != app.monthKey then [UpdateMonthOnly] else [])
    + [Approve, Deny]
    + (if app.status != PENDING then [ResetToPending] else [])
  }

  /** The status argument each button passes to `onUpdate`. */
  function ActionStatus(action: DialogAction, app: Application): string {
    match action
    case UpdateMonthOnly => app.status
    case Approve => "approved"
    case Deny => "rejected"
    case ResetToPending => PENDING
  }

  /** `newStatus || app.status`: what the page sends for the application. */
  function SentStatus(newStatus: string, app: Application): (s: string)
    ensures newStatus != "" ==> s == newStatus
    ensures newStatus == "" ==> s == app.status
  {
    if newStatus != "" then newStatus else app.status
  }

  /** The (status, month) pair a button sends. */
  function DialogRequest(action: DialogAction, app: Application, selectedMonth: string): (r: (string, string))
    ensures r.1 == selectedMonth
    ensures action == UpdateMonthOnly ==> r.0 == app.status
    ensures action == Approve ==> r.0 == "approved"
    ensures action == Deny ==> r.0 == "rejected"
    ensures action == ResetToPending ==> r.0 == PENDING
  {
    (SentStatus(ActionStatus(action, app), app), selectedMonth)
  }

  /** The two conditional buttons are offered only when pressing them changes something. */
  lemma ConditionalActionsChangeSomething(app: Application, selectedMonth: string, action: DialogAction)
    requires action in DialogActions(app, selectedMonth)
    requires action == UpdateMonthOnly || action == ResetToPending
    ensures DialogRequest(action, app, selectedMonth) != (app.status, app.monthKey)
  {
  }
}
