# Vendor marketing hub — a verified Dafny model

This project models the core of a vendor-marketing portal. The portal is a
Next.js application over a Prisma database. Vendors browse swag, resources,
assets and promotions. They build quote carts and submit them, see their
company's quotes and invoices, and apply for a "Product of the Month" (POTM)
slot. Administrators issue invoices, by hand or from a quote, and manage the
POTM calendar.

The model covers:

- the route guard in `middleware.ts`;
- the quote-cart routes: current, add-item, submit, remove-item and my;
- the invoice routes: numbering, creation, creation from a quote, and the vendor's own invoices;
- the administrator's invoice editor (form state and totals);
- the POTM routes (apply, and the admin GET and PUT) and the public and admin calendars;
- the promotion carousel and the promotions page (call-to-action kind, active/upcoming badges);
- the filter, sort, category and grouping logic of the swag, resources and assets pages.

Layout, one module per file:

- `Store.Db` is a class with one field per database table. Route handlers are methods that
  modify only the tables they write, and keep `Db.Valid()`: unique keys and foreign keys.
- Pages and the middleware are pure functions.
- The loops in the source are methods with loop invariants: the pending-count `forEach` and
  the `reduce` that groups by category. The editor's item update copies the items into an
  array and assigns one element in place.
- The carousel's `currentIndex` is a field of the class `Carousel.SlideShow`.

Supporting modules:

- `Seqs`: filter, find, distinct, insertion sort, reverse.
- `Text`: prefixes, ASCII lower-casing, code-point order, decimal digits, JavaScript's `parseInt`.
- `Wrappers`: `Option`, `x || null`.
- `Catalog`: category lists and grouping, shared by three pages.

Amounts are integers (cents). Dates are integer timestamps or a year number,
passed in as parameters together with fresh database ids.

## Model

| member | source | states |
|---|---|---|
| Middleware.Authorized | middleware.ts:10-25 | "/login" and "/api/auth…" always pass; any other "/admin…" path passes exactly for an admin-role token; every other path passes exactly when there is a token |
| Middleware.AdminPassesEverywhere | middleware.ts:19-24 | an admin token passes on every path |
| Middleware.AnonymousOnlyPublic | middleware.ts:14-24 | without a token exactly the public paths pass |
| Middleware.TokenNeverHurts | middleware.ts:10-25 | adding a token never turns an allowed request into a refused one |
| Middleware.AdminApiNeedsOnlyAToken | middleware.ts:19-24 | "/api/admin…" is not guarded by role: any token passes there, so the role check is left to the route handlers |
| Promotions.ClassifyUrl | components/promotion-carousel.tsx:65-81 | a URL is a link iff it starts with "http" or "/"; it opens in a new tab iff it starts with "http"; anything else is a download |
| Promotions.CtaText | components/promotion-carousel.tsx:72-78 | the text is never empty: a non-empty label wins, otherwise "Learn More" for links and "Download Now" for downloads |
| Promotions.PromotionCta | app/promotions/page.tsx:63-79 | the button links to the URL and its text is never empty; a non-empty label is the text; it opens in a new tab iff the URL starts with "http"; it is a download iff the URL starts with neither "http" nor "/" |
| Promotions.AbsoluteAndRelativeLinks | app/promotions/page.tsx:63-79 | every "http…" URL is a new-tab link and every "/…" URL a same-tab link |
| Promotions.IsActive | app/promotions/page.tsx:29-32 | an active promotion has its flag set and is not upcoming; a flagged promotion without dates is active; one whose end date has passed is not |
| Promotions.IsUpcoming | app/promotions/page.tsx:33 | a promotion without a start date is never upcoming; an upcoming one starts strictly after now |
| Promotions.NotActiveAndUpcoming | app/promotions/page.tsx:29-33 | no promotion is both active and upcoming at the same instant |
| Promotions.Badges | app/promotions/page.tsx:51-55 | "Active" shows iff active, "Upcoming" iff upcoming, "Inactive" iff neither |
| Promotions.ExactlyOneBadge | app/promotions/page.tsx:51-55 | every card carries exactly one badge |
| Promotions.UpcomingIgnoresActiveFlag | app/promotions/page.tsx:33 | a disabled promotion with a future start still reads "Upcoming" |
| Carousel.NextIndex | components/promotion-carousel.tsx:37-39 | the next slide is one on, wrapping from the last to the first |
| Carousel.PreviousIndex | components/promotion-carousel.tsx:33-35 | the previous slide is one back, wrapping from the first to the last |
| Carousel.ArrowsAreInverse | components/promotion-carousel.tsx:33-39 | "previous" undoes "next" and "next" undoes "previous" |
| Carousel.Advance | components/promotion-carousel.tsx:22-27 | after any number of timer ticks the index still names a promotion |
| Carousel.AdvanceCompose | components/promotion-carousel.tsx:22-27 | a ticks then b ticks equal a + b ticks |
| Carousel.AdvanceWithoutWrap | components/promotion-carousel.tsx:22-27 | before wrapping, k ticks move exactly k slides on |
| Carousel.FullCycle | components/promotion-carousel.tsx:22-27 | n ticks over n promotions return to the slide shown |
| Carousel.Dots | components/promotion-carousel.tsx:104-116 | there is one dot per promotion, and dot k selects slide k |
| Carousel.SlideShow.constructor | components/promotion-carousel.tsx:20 | the carousel starts on the first slide |
| Carousel.SlideShow.Next | components/promotion-carousel.tsx:22-39 | the next arrow and each timer tick set the index to NextIndex of the old one, keeping it in range |
| Carousel.SlideShow.Previous | components/promotion-carousel.tsx:33-35 | the previous arrow sets the index to PreviousIndex of the old one, keeping it in range |
| Carousel.SlideShow.GoToSlide | components/promotion-carousel.tsx:29-31 | a dot moves straight to its slide |
| Seqs.Filter | app/swag/page.tsx:48-61 | a filter keeps exactly the matching elements: each matching value as often as in the input, every other value never |
| Seqs.FilterAppend | app/swag/page.tsx:48-61 | a filter keeps input order: one more element at the back is kept at the back, iff it matches |
| Seqs.Find | app/admin/potm/page.tsx:270-272 | `find` returns the first matching element, and nothing iff no element matches |
| Seqs.SortBy | app/swag/page.tsx:64-69 | sorting by a total preorder gives a sorted permutation of the input |
| Seqs.FilterFilter | app/swag/page.tsx:48-61 | filtering twice is filtering once by both conditions |
| Seqs.DistinctSpec | app/swag/page.tsx:43-44 | de-duplication keeps every value once, in order of first appearance |
| Catalog.CategoriesOf | app/swag/page.tsx:43 | the mapped category list lines up with the items |
| Catalog.InCategoryMembers | app/resources/page.tsx:51-53 | a category filter keeps exactly the items of that category |
| Catalog.CategoryListMembers | app/resources/page.tsx:34-35 | a category is listed iff some item has it |
| Catalog.CategoryListOrder | app/assets/page.tsx:29-30 | the category list has no duplicates and follows first appearance |
| Catalog.EveryCategoryHasItems | app/assets/page.tsx:29-30 | every listed category has at least one item |
| Catalog.ItemsOfCategoryIsFilter | app/resources/page.tsx:58-64 | a group holds its category's items in their filtered order |
| Catalog.NewCategoryIsEmpty | app/resources/page.tsx:58-64 | a category not yet seen has no items so far |
| Catalog.CardsPush | app/resources/page.tsx:58-64 | pushing an item onto an existing group adds exactly that item to the rendered cards |
| Catalog.CategoryListStep | app/resources/page.tsx:58-64 | one more item extends the list of keys only when its category is new |
| Catalog.GroupsOfStep | app/resources/page.tsx:58-64 | one reduce step on the groups of a prefix gives the groups of the longer prefix |
| Catalog.GroupByCategory | app/resources/page.tsx:58-64 | the reduce produces the keys in first-appearance order, each mapped to its items in order; the rendered sections hold exactly the input items |
| Catalog.GroupingKeepsEveryItem | app/assets/page.tsx:38-44 | the sections rendered from the grouping hold every asset exactly once |
| Catalog.GroupsPartition | app/assets/page.tsx:38-44 | an item appears in the group of its own category and in no other |
| Swag.Categories | app/swag/page.tsx:43-44 | the category buttons are the products' categories, without duplicates, in order of first appearance; inactive products count too |
| Swag.Popularity | app/swag/page.tsx:65 | a product's popularity is its quote-item count, 0 when the count is missing |
| Swag.LowPriceKey | app/swag/page.tsx:67 | a missing or zero price sorts as infinitely expensive; any other price sorts as itself |
| Swag.HighPriceKey | app/swag/page.tsx:69 | a missing price sorts as 0; any other price sorts as itself |
| Swag.ComparatorsArePreorders | app/swag/page.tsx:64-69 | the popular, price-low and price-high orders are total preorders |
| Swag.FilterAndSort | app/swag/page.tsx:48-73 | the list is a permutation of the active products matching search and category; it is sorted by the chosen order, or in load order when none is chosen |
| Swag.FiltersCompose | app/swag/page.tsx:49-61 | the three successive filters equal a single filter on all three conditions |
| Swag.UnpricedSortLast | app/swag/page.tsx:66-67 | with "price-low", unpriced products come after every priced one |
| Swag.NoProductsNotice | app/swag/page.tsx:175-177 | the empty notice shows iff no product is active and matches the search and category |
| Swag.InactiveCategoryStillListed | app/swag/page.tsx:43-114 | a category whose products are all inactive keeps its button, which shows nothing |
| Resources.FilterResources | app/resources/page.tsx:39-56 | the list keeps exactly the resources matching search and category, in order; "all" with no search keeps everything |
| Resources.NoResourcesNotice | app/resources/page.tsx:154-158 | the empty notice shows iff no resource matches |
| Resources.CategoryButtonsNeverEmpty | app/resources/page.tsx:88-92 | without a search, each category button shows at least one resource |
| Resources.CategoryMatchesSection | app/resources/page.tsx:51-64 | selecting a category shows exactly that category's section of the grouped view |
| Assets.FilterAssets | app/assets/page.tsx:34-36 | "all" shows every asset; a category shows exactly its assets, in order |
| Assets.NoAssetsNotice | app/assets/page.tsx:108-112 | the empty notice shows iff no asset is in the selected category |
| Assets.CategoryButtonsNeverEmpty | app/assets/page.tsx:61-65 | every category button shows at least one asset |
| InvoiceNumbering.LatestWithPrefix | app/api/admin/invoices/route.ts:12-21 | the latest number is the string-greatest existing number with the year prefix, and none exists iff no number has that prefix |
| InvoiceNumbering.FormatSuffix | app/api/admin/invoices/route.ts:29 | the suffix has at least three characters |
| InvoiceNumbering.NumberWithPrefix | app/api/admin/invoices/route.ts:7-29 | the new number carries the prefix and at least three more characters; a year without invoices gets "001" |
| InvoiceNumbering.GenerateInvoiceNumber | app/api/admin/invoices/route.ts:7-29 | the same, for the prefix "INV-<year>-" |
| InvoiceNumbering.SuffixFieldOfDigits | app/api/admin/invoices/route.ts:25 | the third dash field of a well-formed number is its digits, and parseInt reads back their value |
| InvoiceNumbering.NextAfterDigits | app/api/admin/invoices/route.ts:23-29 | after a latest number with digits s, the next number is value(s)+1 padded to three digits |
| InvoiceNumbering.FreshUnderUniformWidth | app/api/admin/invoices/route.ts:7-29 | while all suffixes of the year have one width, the generated number is not in use yet, and its suffix is numerically strictly greater than every existing suffix of the year |
| InvoiceNumbering.UniformWidthNumberIsFresh | app/api/admin/invoices/route.ts:7-29 | the same, for the year prefix |
| InvoiceNumbering.BareSuffixIsZero | app/api/admin/invoices/route.ts:25 | a bare prefix has an empty third field, which parses as 0 |
| InvoiceNumbering.MissingFieldCountsAsZero | app/api/admin/invoices/route.ts:23-29 | when the latest number of the year is the bare prefix, the missing field counts as 0 and the next number ends in "001" |
| InvoiceNumbering.WidenedSuffixRepeats | app/api/admin/invoices/route.ts:12-27 | with suffixes "999" and "1000" present, the generator returns the existing "…1000" again |
| InvoiceNumbering.WidenedSuffixRepeatsNumber | app/api/admin/invoices/route.ts:7-29 | the same, for the year prefix: the number generated is already in use |
| InvoiceNumbering.MaxSuffixValue | app/api/admin/invoices/route.ts:23-27 | the largest parsed suffix bounds every parsed suffix of the year |
| InvoiceNumbering.NextInvoiceNumber | app/api/admin/invoices/route.ts:7-29 | corrected rule: the suffix is one more than the numeric maximum, so the number is never in use |
| InvoiceNumbering.SameNumberUnderUniformWidth | app/api/admin/invoices/route.ts:7-29 | while suffix widths are uniform, the as-written and corrected rules agree |
| InvoiceNumbering.SameNumberWhileUniform | app/api/admin/invoices/route.ts:7-29 | the same, for the year prefix |
| Invoices.LinesTotalAppend | app/api/admin/invoices/route.ts:95-98 | the line total of a concatenation is the sum of the parts' totals |
| Invoices.InvoiceNumbers | app/api/admin/invoices/route.ts:12-21 | the numbers searched are those of the stored invoices, one each, in order |
| Invoices.RequestLine | app/api/admin/invoices/route.ts:112-119 | each stored line copies the request item, with empty product and notes stored as null |
| Invoices.RequestLines | app/api/admin/invoices/route.ts:112-119 | the lines are the request items, one for one, in order |
| Invoices.RequestTotal | app/api/admin/invoices/route.ts:95-98 | the total of no items is 0, and the total of items whose totals are all non-negative is non-negative |
| Invoices.RequestTotalIsLinesTotal | app/api/admin/invoices/route.ts:95-98 | the invoice total equals the sum of its stored lines' totals |
| Invoices.RequestTotalCountsMissingAsZero | app/api/admin/invoices/route.ts:95-98 | in the total reduce, an item without a total counts as zero |
| Invoices.CreateInvoice | app/api/admin/invoices/route.ts:73-150 | non-admins get 401 and nothing is stored; a missing user, a missing line total, or a non-empty quote or product id that does not exist gives 500 with nothing stored; otherwise exactly one invoice is appended, with the request's lines, their sum as total, and an unused number (the corrected numbering, see Findings) |
| Invoices.QuoteById | app/api/admin/invoices/from-quote/route.ts:42-52 | the quote is found iff its id exists |
| Invoices.QuoteLine | app/api/admin/invoices/from-quote/route.ts:62-75 | a quote item becomes a line priced at its product's price (or 0) times its quantity |
| Invoices.QuoteLines | app/api/admin/invoices/from-quote/route.ts:62-75 | the lines follow the quote items one for one, and each line's total is quantity times unit price |
| Invoices.CreateInvoiceFromQuote | app/api/admin/invoices/from-quote/route.ts:31-129 | 401 for non-admins and 404 for an unknown quote, with nothing stored; otherwise one invoice for the quote's owner and quote, with the quote's lines, their sum as total, and an unused number from the same rule |
| InvoiceEditor.FormTotalAppend | app/admin/invoices/page.tsx:189 | the form total of a concatenation is the sum of the parts' totals |
| InvoiceEditor.ResetForm | app/admin/invoices/page.tsx:138-146 | a reset form is empty, dated today, and totals zero |
| InvoiceEditor.AddItem | app/admin/invoices/page.tsx:148-162 | a blank item is appended; everything else is unchanged |
| InvoiceEditor.WithoutIndex | app/admin/invoices/page.tsx:164-169 | the item at the index is dropped; an index out of range drops nothing |
| InvoiceEditor.RemoveItem | app/admin/invoices/page.tsx:164-169 | removal shortens the items by one when the index exists and changes nothing else |
| InvoiceEditor.ApplyEdit | app/admin/invoices/page.tsx:171-181 | editing a field sets that field only; editing quantity or unit price also recomputes the total as their product, and leaves description and notes unchanged |
| InvoiceEditor.EditKeepsConsistent | app/admin/invoices/page.tsx:171-181 | every edit except a direct total edit keeps total = quantity × unit price |
| InvoiceEditor.UpdateItem | app/admin/invoices/page.tsx:171-181 | only the item at the index changes; the form total changes by that item's change; consistency is kept |
| InvoiceEditor.AddItemKeepsTotals | app/admin/invoices/page.tsx:148-189 | adding a blank item keeps the total and consistency |
| InvoiceEditor.RemoveItemTotal | app/admin/invoices/page.tsx:164-189 | removing an item lowers the total by exactly its total |
| InvoiceEditor.RemoveItemKeepsConsistent | app/admin/invoices/page.tsx:164-169 | removal keeps every remaining item consistent |
| InvoiceEditor.PriceInput | app/admin/invoices/page.tsx:331 | an unparsable price reads as 0 |
| Text.Magnitude | app/api/admin/invoices/route.ts:25 | after "0x" or "0X" the longest run of hexadecimal digits is read, otherwise the longest run of decimal digits; there is no number iff that run is empty |
| Text.JsParseInt | app/api/admin/invoices/route.ts:25 | after leading white space (ECMAScript's, non-ASCII included) and one optional sign, the result is NaN iff the magnitude there is empty |
| Text.ParseUnsigned | app/api/admin/invoices/route.ts:25 | without leading white space or a sign, the result is the magnitude itself |
| Text.ParseIntOrOne | app/admin/invoices/page.tsx:314 | a quantity is never 0: NaN and 0 read as 1, and every other value, negatives included, is kept |
| Text.ParseDigits | app/admin/invoices/page.tsx:314 | a string of decimal digits reads as its decimal value |
| Text.ParseHex | app/admin/invoices/page.tsx:314 | "0x" followed by hexadecimal digits reads as their base-16 value |
| Text.SpaceSkipped | app/admin/invoices/page.tsx:314 | one leading white-space character, ASCII or not, does not change what is read |
| Text.HexQuantity | app/admin/invoices/page.tsx:314 | a quantity typed as "0x" and hexadecimal digits (such as "0x10", 16) is their base-16 value |
| Text.NoBreakSpaceQuantity | app/admin/invoices/page.tsx:314 | a quantity typed as a no-break space then decimal digits is their value |
| Store.ProductById | app/api/admin/invoices/from-quote/route.ts:42-52 | a product is found iff its id exists |
| Store.ItemsOf | app/api/quotes/current/route.ts:16-31 | a quote's items are exactly the items pointing to it |
| Store.Db.constructor | app/api/quotes/current/route.ts:16-47 | an empty store with the given users and products satisfies the key and foreign-key invariant |
| Quotes.LatestPending | app/api/quotes/current/route.ts:16-31 | the user's cart is their latest pending quote, and there is none iff they have no pending quote |
| Quotes.LatestPendingAppend | app/api/quotes/current/route.ts:33-47 | a newly created pending quote becomes the user's cart |
| Quotes.NewCart | app/api/quotes/current/route.ts:33-47 | a new cart is pending, unnamed and owned by the user |
| Quotes.FindOrCreatePending | app/api/quotes/add-item/route.ts:18-35 | an existing cart is returned untouched; otherwise exactly one cart is created, and only for a known user; afterwards the returned quote is the user's cart |
| Quotes.CurrentQuote | app/api/quotes/current/route.ts:8-51 | 401 without a session; otherwise the cart, created if missing, so that a second call returns the same quote; 500 for an unknown user |
| Quotes.NewItem | app/api/quotes/add-item/route.ts:15-45 | the new item belongs to the cart and product, and its quantity is never 0 |
| Quotes.AddItem | app/api/quotes/add-item/route.ts:8-49 | success iff there is a session, a known user and an existing product; then exactly one item is appended to the user's cart; any failure leaves the items unchanged |
| Quotes.SubmittableQuote | app/api/quotes/submit/route.ts:17-23 | a quote is found iff it has the id and is the user's pending quote |
| Quotes.Submitted | app/api/quotes/submit/route.ts:30-36 | submitting sets the status and name and keeps the id and owner |
| Quotes.MarkSubmitted | app/api/quotes/submit/route.ts:30-36 | only the quote with the id changes |
| Quotes.MarkSubmittedCloses | app/api/quotes/submit/route.ts:17-36 | once submitted, the same quote cannot be submitted again |
| Quotes.SubmitQuote | app/api/quotes/submit/route.ts:8-36 | success iff the quote is the caller's pending quote, otherwise 401 or 404 with nothing changed; a second submit fails |
| Quotes.RemoveItem | app/api/quotes/remove-item/route.ts:8-21 | success iff the item exists, which is then the only item removed; otherwise 401 or 500 with nothing changed; no ownership check |
| Quotes.RemoveAtValid | app/api/quotes/remove-item/route.ts:15-17 | removing one item keeps item ids unique and keeps every other item |
| Visibility.CompanyOf | app/api/quotes/my/route.ts:16-28 | a user has a company iff their record names a non-empty one |
| Visibility.MyQuotes | app/api/quotes/my/route.ts:8-46 | 401 without a session; otherwise exactly the visible quotes, newest first |
| Visibility.NoCompanySeesOwnQuotes | app/api/quotes/my/route.ts:21-28 | a user without a company sees exactly their own quotes |
| Visibility.CompanySeesColleaguesQuotes | app/api/quotes/my/route.ts:31-46 | a user with a company sees every quote of a colleague in that company |
| Visibility.OwnQuotesAlwaysListed | app/api/quotes/my/route.ts:21-46 | a user always sees their own quotes |
| Visibility.MyInvoices | app/api/invoices/my/route.ts:8-36 | 401 without a session; no company gives an empty list; otherwise exactly the company's invoices, newest first |
| Visibility.InvoiceWithoutCompanyUnlisted | app/api/invoices/my/route.ts:27-36 | an invoice without a company is never listed |
| Potm.MonthByKey | app/api/potm/apply/route.ts:27-29 | the month row is found iff a row has that key |
| Potm.AcceptsApplications | app/api/potm/apply/route.ts:27-35 | a month without a row takes applications; a refused month has a row whose status is not "open" |
| Potm.NewApplication | app/api/potm/apply/route.ts:39-52 | the stored application is pending, belongs to the user and month, and copies the fields, with empty link and notes stored as null |
| Potm.WebinarNotStored | app/api/potm/apply/route.ts:23-52 | the webinar choice has no effect on what is stored |
| Potm.ApplyForMonth | app/api/potm/apply/route.ts:8-59 | 401 without a session; 400 when the month's row exists with a status other than "open"; otherwise exactly one pending application is appended; month rows are never touched |
| Potm.KeyOrderIsPreorder | app/api/admin/potm/route.ts:13-15 | ordering rows by key is a total preorder |
| Potm.ListMonths | app/api/admin/potm/route.ts:6-20 | 401 iff not an admin; otherwise every row, in ascending key order |
| Potm.MonthIndex | app/api/admin/potm/route.ts:31-42 | the position of the row with the key, if there is one |
| Potm.UpsertMonth | app/api/admin/potm/route.ts:22-48 | 401 for non-admins with nothing changed; otherwise the row with the key has the new status and label, other rows are kept, and keys stay unique |
| Potm.ReplaceRowFacts | app/api/admin/potm/route.ts:31-42 | overwriting the keyed row keeps keys unique and every other row |
| PotmCalendar.MonthNumber | app/potm/page.tsx:49 | the month number is two digits with value index + 1 |
| PotmCalendar.MonthKey | app/potm/page.tsx:50 | a month key starts with the year |
| PotmCalendar.MonthKeysDistinct | app/potm/page.tsx:48-50 | the twelve keys of a year are distinct |
| PotmCalendar.LastRowWithKey | app/potm/page.tsx:39 | the map keeps the last row with a key, and has an entry iff such a row exists |
| PotmCalendar.LastRowIsTheRow | app/potm/page.tsx:39 | with unique keys, the map entry is the row the apply route looks up |
| PotmCalendar.ShownStatus | app/potm/page.tsx:58 | a missing row or an empty status shows "open"; otherwise the stored status shows |
| PotmCalendar.RowsOfYear | app/potm/page.tsx:17-23 | exactly the rows whose key starts with the year |
| PotmCalendar.PendingOfYear | app/potm/page.tsx:26-36 | exactly the pending applications of the year |
| PotmCalendar.CountByKey | app/potm/page.tsx:42-45 | a key is counted iff it has applications, and its count is their number |
| PotmCalendar.CountOrZero | app/potm/page.tsx:52 | a month without applications counts 0 |
| PotmCalendar.KeyCountOfFilter | app/potm/page.tsx:26-45 | filtering out other months does not change a month's count |
| PotmCalendar.LastRowOfFilter | app/potm/page.tsx:17-39 | filtering out other months does not change a month's row |
| PotmCalendar.LabelOrNull | app/potm/page.tsx:59 | the reserved label is shown iff the row has a non-empty one |
| PotmCalendar.PublicMonth | app/potm/page.tsx:48-62 | each calendar entry has its key, name, number, shown status, label and pending count |
| PotmCalendar.PublicCalendar | app/potm/page.tsx:17-62 | twelve months whose status, label and pending count come from the whole tables, not just the year's query |
| PotmCalendar.ApplyLinkMatchesGuard | app/potm/page.tsx:116-126 | for non-empty statuses, the Apply link shows iff the apply route accepts the month |
| PotmCalendar.CardApplyMatchesGuard | app/potm/page.tsx:116-126 | the same on the rendered card: for non-empty statuses, its Apply link shows iff the apply route accepts the month |
| PotmCalendar.EmptyStatusShowsApplyButRefuses | app/potm/page.tsx:58-126 | a row with an empty status shows Apply, but the apply route refuses it |
| PotmCalendar.LabelOrEmpty | app/admin/potm/page.tsx:238 | the admin shows the stored label, or "" |
| PotmCalendar.ApplicationsFor | app/admin/potm/page.tsx:232 | exactly the applications of one month |
| PotmCalendar.AdminMonthAt | app/admin/potm/page.tsx:228-241 | each admin month has its key, name, shown status, label and exactly its applications |
| PotmCalendar.AdminCalendar | app/admin/potm/page.tsx:228-241 | twelve admin months, in calendar order |
| PotmCalendar.ApplicationListedOnce | app/admin/potm/page.tsx:228-241 | an application of the year appears under its own month and no other |
| PotmCalendar.PendingApps | app/admin/potm/page.tsx:267-269 | exactly the month's pending applications |
| PotmCalendar.ApprovedApp | app/admin/potm/page.tsx:270-272 | the first approved application of the month, none iff none is approved |
| PotmCalendar.NoApplicationsNotice | app/admin/potm/page.tsx:433 | the notice shows iff no application has the month's key |
| PotmCalendar.PendingAppsCount | app/admin/potm/page.tsx:267-269 | the admin's pending list has as many entries as the public pending count |
| PotmCalendar.AdminPendingMatchesPublic | app/admin/potm/page.tsx:267-269 | the admin and public calendars agree on each month's pending count |
| PotmCalendar.MonthOptions | app/admin/potm/page.tsx:40-44 | the dialog offers the twelve keys of the year |
| PotmCalendar.MonthOptionsAreCalendarKeys | app/admin/potm/page.tsx:40-44 | the dialog's options are the calendar's keys, all distinct |
| PotmCalendar.DialogActions | app/admin/potm/page.tsx:119-153 | approve and deny are always offered; "Update Month Only" iff another month is chosen; "Reset" iff not pending |
| PotmCalendar.SentStatus | app/admin/potm/page.tsx:376 | an empty new status falls back to the application's status |
| PotmCalendar.DialogRequest | app/admin/potm/page.tsx:119-153 | each button sends the chosen month and its status: unchanged, approved, rejected or pending |
| PotmCalendar.ConditionalActionsChangeSomething | app/admin/potm/page.tsx:119-153 | the conditional buttons never send an unchanged application |

## Left out

- Carousel.SlideShow.Next: the tick over zero promotions is not modelled. The source computes `NaN` there; the model requires a rendered carousel.
- Swag.FilterAndSort: states sorted and a permutation of the filtered list, not the stability of the source's sort.
- Catalog.GroupByCategory: when JavaScript lists an object's keys, integer-like ones come first. Categories named after `Object.prototype` members (such as "toString") also misbehave. Neither is modelled; keys keep first-appearance order.
- InvoiceEditor.PriceInput: takes the result of `parseFloat`; decimal parsing is not modelled.
- Money is whole cents, not floating point; rounding in `toFixed` is not modelled.
- Dates, time zones and `toISOString` are not modelled: the year, `now` and today's date are parameters.
- The timer (`setInterval`) and its clean-up are not modelled: a tick is a call to `SlideShow.Next`.
- Fresh database ids (cuid) are parameters assumed unused.
- The database is one `seq` or `map` per table. Transactions, concurrency and Prisma's own errors are not modelled. A failed foreign key (user, quote or product) becomes the route's 500.
- A missing required field in a request body is not modelled. Such fields are non-optional parameters.
- Rendering, styling and navigation are not modelled: the pages are functions of their data.
- Lower-casing is ASCII-only; Unicode case mapping is not modelled.
- The middleware's path matcher is not modelled: every path is assumed to reach the callback.
- The `[id]` routes, the invoice PDF and the approve/reject application route are not part of this model.
- Invoices.CreateInvoice and Invoices.CreateInvoiceFromQuote number invoices with the corrected rule of the Findings table. The rule as written is modelled by GenerateInvoiceNumber and gives the same number while all suffixes of the year have one width.
- Text.JsParseInt: the value is an exact integer. JavaScript rounds a value beyond 2^53 to the nearest double; that rounding is not modelled.
- Status strings are stored as sent; unknown values are not rejected, as in the source.

## Findings

| source | as written | input that shows it | evidently intended | confidence | as-written member | corrected member |
|---|---|---|---|---|---|---|
| app/api/admin/invoices/route.ts:12-29 | takes the string-greatest number of the year, parses its third field, adds one and pads to three digits | numbers "INV-Y-999" and "INV-Y-1000": the string maximum is "…999", so "INV-Y-1000" is generated again | one more than the numerically greatest suffix, so that the number is unused | not executed | InvoiceNumbering.WidenedSuffixRepeatsNumber | InvoiceNumbering.NextInvoiceNumber |
