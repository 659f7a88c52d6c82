/**
 * Invoice numbers `INV-<year>-<NNN>` (`generateInvoiceNumber`, identical in
 * app/api/admin/invoices/route.ts and app/api/admin/invoices/from-quote/route.ts).
 *
 * The next number takes the greatest existing same-year number in text order
 * (`orderBy: { invoiceNumber: "desc" }`), reads its third dash field with
 * `parseInt`, adds one and pads to three digits.
 *
 * Most lemmas are stated for the prefix of any dash-free year spelling `y`;
 * the year-level statements follow by taking `y := NatToString(year)`.
 */
module InvoiceNumbering {
  import opened Wrappers
  import opened Text

  /** `INV-${y}-` for a year spelled `y`. */
  function PrefixFor(y: string): string {
    "INV-" + y + "-"
  }

  /** `INV-${year}-` */
  function Prefix(year: nat): string {
    PrefixFor(NatToString(year))
  }

  /** `findFirst({ where: { startsWith: prefix }, orderBy: desc })` */
  function LatestWithPrefix(numbers: seq<string>, prefix: string): (r: Option<string>)
    ensures r.None? <==> forall n :: n in numbers ==> !StartsWith(n, prefix)
    ensures r.Some? ==> r.value in numbers && StartsWith(r.value, prefix)
    ensures r.Some? ==> forall n :: n in numbers && StartsWith(n, prefix) ==> LexLe(n, r.value)
    decreases |numbers|
  {
    if |numbers| == 0 then None
    else
      var head := numbers[0];
      var rest := LatestWithPrefix(numbers[1..], prefix);
      assert forall n :: n in numbers ==> n == head || n in numbers[1..];
      if !StartsWith(head, prefix) then rest
      else if rest.None? then
        LexLeReflexive(head);
        Some(head)
      else if LexLe(head, rest.value) then rest
      else
        LexLeTotal(head, rest.value);
        LexLeReflexive(head);
        forall n | n in numbers[1..] && StartsWith(n, prefix)
          ensures LexLe(n, head)
        {
          LexLeTransitive(n, rest.value, head);
        }
        Some(head)
  }

  /** `latest.split("-")[2] || "0"` */
  function SuffixField(latest: string): string {
    match DashField(latest, 2)
    case None => "0"
    case Some(f) => if f == "" then "0" else f
  }

  /** `nextNum`: 1 when there is no number yet, else the parsed field plus one (`None` is NaN). */
  function NextSuffix(latest: Option<string>): Option<int> {
    match latest
    case None => Some(1)
    case Some(l) =>
      match JsParseInt(SuffixField(l))
      case None => None
      case Some(v) => Some(v + 1)
  }

  /** `nextNum.toString().padStart(3, "0")`; NaN prints as "NaN", already three wide. */
  function FormatSuffix(next: Option<int>): (r: string)
    ensures |r| >= 3
  {
    match next
    case None => "NaN"
    case Some(v) => PadZeros(IntToString(v), 3)
  }

  /** The number `generateInvoiceNumber()` builds under a given prefix. */
  function NumberWithPrefix(numbers: seq<string>, prefix: string): (r: string)
    ensures StartsWith(r, prefix) && |r| >= |prefix| + 3
    ensures (forall n :: n in numbers ==> !StartsWith(n, prefix)) ==> r == prefix + "001"
  {
    var suffix := FormatSuffix(NextSuffix(LatestWithPrefix(numbers, prefix)));
    StartsWithConcat(prefix, suffix);
    assert NatToString(1) == "1";
    assert PadZeros("1", 3) == "001";
    prefix + suffix
  }

  /** `generateInvoiceNumber()` over the invoice numbers already stored. */
  function GenerateInvoiceNumber(numbers: seq<string>, year: nat): (r: string)
    ensures StartsWith(r, Prefix(year)) && |r| >= |Prefix(year)| + 3
    ensures (forall n :: n in numbers ==> !StartsWith(n, Prefix(year))) ==> r == Prefix(year) + "001"
  {
    NumberWithPrefix(numbers, Prefix(year))
  }

  /** The third dash field of a same-year number is the text after the prefix, up to a dash. */
  lemma FieldOfNumber(y: string, s: string)
    requires '-' !in y
    ensures DashField(PrefixFor(y) + s, 2) == Some(UpToDash(s))
  {
    assert PrefixFor(y) + s == "INV" + "-" + (y + "-" + s);
    DashFieldAfter("INV", y + "-" + s, 1);
    DashFieldAfter(y, s, 0);
  }

  lemma DashFreeField(s: string)
    requires AllDigits(s)
    ensures UpToDash(s) == s
  {
    NoDashInDigits(s);
  }

  /** A suffix of digits is read back as its decimal value. */
  lemma SuffixFieldOfDigits(y: string, s: string)
    requires '-' !in y && AllDigits(s) && |s| > 0
    ensures SuffixField(PrefixFor(y) + s) == s
    ensures JsParseInt(SuffixField(PrefixFor(y) + s)) == Some(DigitsValue(s))
  {
    FieldOfNumber(y, s);
    DashFreeField(s);
    var t := PrefixFor(y) + s;
    assert DashField(t, 2) == Some(s);
    assert SuffixField(t) == s;
    ParseDigits(s);
  }

  /**
   * When the greatest same-year number ends in digits `s`, the new number's
   * suffix is the value of `s` plus one, zero-padded to three digits.
   */
  lemma NextAfterDigits(numbers: seq<string>, y: string, s: string)
    requires '-' !in y && AllDigits(s) && |s| > 0
    requires LatestWithPrefix(numbers, PrefixFor(y)) == Some(PrefixFor(y) + s)
    ensures NumberWithPrefix(numbers, PrefixFor(y)) == PrefixFor(y) + PadZeros(NatToString(DigitsValue(s) + 1), 3)
  {
    SuffixFieldOfDigits(y, s);
  }

  /** Same-prefix numbers all end in exactly `width` digits. */
  ghost predicate UniformWidth(numbers: seq<string>, prefix: string, width: nat) {
    forall n :: n in numbers && StartsWith(n, prefix) ==>
      |n| == |prefix| + width && AllDigits(n[|prefix|..])
  }

  /** The suffix of a same-prefix number under uniform width. */
  lemma UniformSuffix(numbers: seq<string>, prefix: string, width: nat, n: string)
    requires UniformWidth(numbers, prefix, width) && n in numbers && StartsWith(n, prefix)
    ensures n == prefix + n[|prefix|..] && AllDigits(n[|prefix|..]) && |n[|prefix|..]| == width
  {
  }

  /**
   * While every same-prefix suffix has one width, every stored suffix parses
   * and the new number's suffix exceeds each of them by value, so the new
   * number is not stored yet.
   */
  lemma FreshUnderUniformWidth(numbers: seq<string>, y: string, width: nat)
    requires '-' !in y && width >= 1 && UniformWidth(numbers, PrefixFor(y), width)
    ensures NumberWithPrefix(numbers, PrefixFor(y)) !in numbers
    ensures var next := JsParseInt(SuffixField(NumberWithPrefix(numbers, PrefixFor(y))));
      && next.Some?
      && forall n :: n in numbers && StartsWith(n, PrefixFor(y)) ==>
           JsParseInt(SuffixField(n)).Some? && JsParseInt(SuffixField(n)).value < next.value
  {
    var p := PrefixFor(y);
    SameNumberUnderUniformWidth(numbers, y, width);
    ByValueFacts(numbers, y);
    forall n | n in numbers && StartsWith(n, p)
      ensures JsParseInt(SuffixField(n)).Some?
    {
      UniformSuffix(numbers, p, width, n);
      SuffixFieldOfDigits(y, n[|p|..]);
    }
  }

  /**
   * A year whose greatest number is the bare prefix ("INV-2025-") reads its
   * empty third field as "0" and continues with "001".
   */
  lemma MissingFieldCountsAsZero(numbers: seq<string>, y: string)
    requires '-' !in y
    requires LatestWithPrefix(numbers, PrefixFor(y)) == Some(PrefixFor(y))
    ensures NumberWithPrefix(numbers, PrefixFor(y)) == PrefixFor(y) + "001"
  {
    assert NextSuffix(Some(PrefixFor(y))) == Some(1) by {
      BareSuffixIsZero(y);
    }
    assert FormatSuffix(Some(1)) == "001" by {
      assert IntToString(1) == "1";
      assert PadZeros("1", 3) == "001";
    }
  }

  /** The empty third field of the bare prefix reads as "0", that is 0. */
  lemma BareSuffixIsZero(y: string)
    requires '-' !in y
    ensures JsParseInt(SuffixField(PrefixFor(y))) == Some(0)
  {
    assert PrefixFor(y) + "" == PrefixFor(y);
    FieldOfNumber(y, "");
    assert SuffixField(PrefixFor(y)) == "0";
    ParseZero();
  }

  /**
   * While every same-year suffix has one width, the generated number is new.
   */
  lemma UniformWidthNumberIsFresh(numbers: seq<string>, year: nat, width: nat)
    requires width >= 1 && UniformWidth(numbers, Prefix(year), width)
    ensures GenerateInvoiceNumber(numbers, year) !in numbers
    ensures var next := JsParseInt(SuffixField(GenerateInvoiceNumber(numbers, year)));
      && next.Some?
      && forall n :: n in numbers && StartsWith(n, Prefix(year)) ==>
           JsParseInt(SuffixField(n)).Some? && JsParseInt(SuffixField(n)).value < next.value
  {
    NoDashInDigits(NatToString(year));
    FreshUnderUniformWidth(numbers, NatToString(year), width);
  }

  lemma WidenedSuffixRepeats(y: string)
    requires '-' !in y
    ensures NumberWithPrefix([PrefixFor(y) + "999", PrefixFor(y) + "1000"], PrefixFor(y)) == PrefixFor(y) + "1000"
  {
    var p := PrefixFor(y);
    var numbers := [p + "999", p + "1000"];
    assert LatestWithPrefix(numbers, p) == Some(p + "999") by {
      NineNinetyNineIsLatest(p);
    }
    NineNinetyNinePlusOne();
    NextAfterDigits(numbers, y, "999");
  }

  /** "999" is a run of digits worth 999, and 999 + 1 prints as "1000" even when padded to three. */
  lemma NineNinetyNinePlusOne()
    ensures AllDigits("999") && DigitsValue("999") == 999
    ensures PadZeros(NatToString(DigitsValue("999") + 1), 3) == "1000"
  {
    assert "999"[..2] == "99" && "99"[..1] == "9";
    assert NatToString(1000) == "1000" by {
      assert NatToString(1) == "1";
      assert NatToString(10) == "10";
      assert NatToString(100) == "100";
    }
  }

  /** In text order "999" sorts after "1000". */
  lemma NineNinetyNineIsLatest(p: string)
    ensures LatestWithPrefix([p + "999", p + "1000"], p) == Some(p + "999")
  {
    var numbers := [p + "999", p + "1000"];
    StartsWithConcat(p, "999");
    StartsWithConcat(p, "1000");
    var latest := LatestWithPrefix(numbers, p);
    if latest.value == p + "1000" {
      assert LexLe(p + "999", p + "1000");
      LexLeCommonPrefix(p, "999", "1000");
      assert false;
    }
  }

  /**
   * 999 then 1000 in one year: "INV-<y>-999" is greatest in text order, so
   * the next number is "INV-<y>-1000" again, a duplicate.
   */
  lemma WidenedSuffixRepeatsNumber(year: nat)
    ensures GenerateInvoiceNumber([Prefix(year) + "999", Prefix(year) + "1000"], year) == Prefix(year) + "1000"
  {
    NoDashInDigits(NatToString(year));
    WidenedSuffixRepeats(NatToString(year));
  }

  // ---------------------------------------------------------------------------
  // The evidently intended rule: one more than the greatest suffix by value.

  /** The greatest value among the parsable, non-negative same-prefix suffixes (0 when none). */
  function MaxSuffixValue(numbers: seq<string>, prefix: string): (m: nat)
    ensures forall n {:trigger n in numbers} :: n in numbers && StartsWith(n, prefix) && JsParseInt(SuffixField(n)).Some? ==>
      JsParseInt(SuffixField(n)).value <= m
    decreases |numbers|
  {
    if |numbers| == 0 then 0
    else
      var rest := MaxSuffixValue(numbers[1..], prefix);
      var n := numbers[0];
      assert forall x :: x in numbers ==> x == n || x in numbers[1..];
      var v := JsParseInt(SuffixField(n));
      if StartsWith(n, prefix) && v.Some? && v.value > rest then v.value else rest
  }

  /** A number whose suffix value exceeds every stored same-prefix suffix is not stored yet. */
  lemma AboveMaxIsFresh(numbers: seq<string>, prefix: string, r: string)
    requires StartsWith(r, prefix)
    requires JsParseInt(SuffixField(r)) == Some(MaxSuffixValue(numbers, prefix) + 1)
    ensures r !in numbers
  {
  }

  /** The by-value number under a given prefix. */
  function ByValueWithPrefix(numbers: seq<string>, prefix: string): string {
    prefix + PadZeros(NatToString(MaxSuffixValue(numbers, prefix) + 1), 3)
  }

  lemma ByValueFacts(numbers: seq<string>, y: string)
    requires '-' !in y
    ensures StartsWith(ByValueWithPrefix(numbers, PrefixFor(y)), PrefixFor(y))
    ensures JsParseInt(SuffixField(ByValueWithPrefix(numbers, PrefixFor(y)))) ==
      Some(MaxSuffixValue(numbers, PrefixFor(y)) + 1)
    ensures ByValueWithPrefix(numbers, PrefixFor(y)) !in numbers
  {
    var p := PrefixFor(y);
    StartsWithConcat(p, PadZeros(NatToString(MaxSuffixValue(numbers, p) + 1), 3));
    ByValueParses(numbers, y);
    ByValueIsFresh(numbers, y);
  }

  lemma ByValueParses(numbers: seq<string>, y: string)
    requires '-' !in y
    ensures JsParseInt(SuffixField(ByValueWithPrefix(numbers, PrefixFor(y)))) ==
      Some(MaxSuffixValue(numbers, PrefixFor(y)) + 1)
  {
    var v := MaxSuffixValue(numbers, PrefixFor(y)) + 1;
    assert ByValueWithPrefix(numbers, PrefixFor(y)) == PrefixFor(y) + PadZeros(NatToString(v), 3);
    PaddedSuffixValue(y, v);
  }

  lemma ByValueIsFresh(numbers: seq<string>, y: string)
    requires '-' !in y
    ensures ByValueWithPrefix(numbers, PrefixFor(y)) !in numbers
  {
    var p := PrefixFor(y);
    var r := ByValueWithPrefix(numbers, p);
    assert StartsWith(r, p) by {
      StartsWithConcat(p, PadZeros(NatToString(MaxSuffixValue(numbers, p) + 1), 3));
    }
    ByValueParses(numbers, y);
    AboveMaxIsFresh(numbers, p, r);
  }

  /** A padded suffix after the prefix reads back as its value. */
  lemma PaddedSuffixValue(y: string, v: nat)
    requires '-' !in y
    ensures JsParseInt(SuffixField(PrefixFor(y) + PadZeros(NatToString(v), 3))) == Some(v)
  {
    PaddedValue(v, 3);
    SuffixFieldOfDigits(y, PadZeros(NatToString(v), 3));
  }

  /**
   * Numbering by value: the suffix is one more than the greatest stored
   * suffix value, so a stored number is never repeated, whatever the widths.
   */
  function NextInvoiceNumber(numbers: seq<string>, year: nat): (r: string)
    ensures StartsWith(r, Prefix(year))
    ensures JsParseInt(SuffixField(r)) == Some(MaxSuffixValue(numbers, Prefix(year)) + 1)
    ensures r !in numbers
  {
    ByValueYearFacts(numbers, year);
    ByValueWithPrefix(numbers, Prefix(year))
  }

  lemma ByValueYearFacts(numbers: seq<string>, year: nat)
    ensures StartsWith(ByValueWithPrefix(numbers, Prefix(year)), Prefix(year))
    ensures JsParseInt(SuffixField(ByValueWithPrefix(numbers, Prefix(year)))) ==
      Some(MaxSuffixValue(numbers, Prefix(year)) + 1)
    ensures ByValueWithPrefix(numbers, Prefix(year)) !in numbers
  {
    var y := NatToString(year);
    assert Prefix(year) == PrefixFor(y);
    NoDashInDigits(y);
    ByValueFacts(numbers, y);
  }

  lemma MaxOfNone(numbers: seq<string>, prefix: string)
    requires forall n :: n in numbers ==> !StartsWith(n, prefix)
    ensures MaxSuffixValue(numbers, prefix) == 0
    decreases |numbers|
  {
    if |numbers| > 0 {
      assert numbers[0] in numbers;
      MaxOfNone(numbers[1..], prefix);
    }
  }

  /** A bound on every parsed same-prefix suffix bounds their maximum. */
  lemma {:induction false} MaxAtMost(numbers: seq<string>, prefix: string, bound: nat)
    requires forall n :: n in numbers && StartsWith(n, prefix) && JsParseInt(SuffixField(n)).Some? ==>
      JsParseInt(SuffixField(n)).value <= bound
    ensures MaxSuffixValue(numbers, prefix) <= bound
    decreases |numbers|
  {
    if |numbers| > 0 {
      assert numbers[0] in numbers;
      assert forall n :: n in numbers[1..] ==> n in numbers;
      MaxAtMost(numbers[1..], prefix, bound);
    }
  }

  /** Under uniform width the text-greatest number also has the greatest suffix value. */
  lemma LatestHasLargestSuffix(numbers: seq<string>, y: string, width: nat, latest: string)
    requires '-' !in y && width >= 1 && UniformWidth(numbers, PrefixFor(y), width)
    requires LatestWithPrefix(numbers, PrefixFor(y)) == Some(latest)
    ensures AllDigits(latest[|PrefixFor(y)|..])
    ensures MaxSuffixValue(numbers, PrefixFor(y)) == DigitsValue(latest[|PrefixFor(y)|..])
  {
    var p := PrefixFor(y);
    var top := latest[|p|..];
    UniformSuffix(numbers, p, width, latest);
    assert DigitsValue(top) <= MaxSuffixValue(numbers, p) by {
      SuffixFieldOfDigits(y, top);
    }
    forall n | n in numbers && StartsWith(n, p) && JsParseInt(SuffixField(n)).Some?
      ensures JsParseInt(SuffixField(n)).value <= DigitsValue(top)
    {
      var sn := n[|p|..];
      UniformSuffix(numbers, p, width, n);
      assert JsParseInt(SuffixField(n)) == Some(DigitsValue(sn)) by {
        SuffixFieldOfDigits(y, sn);
      }
      assert DigitsValue(sn) <= DigitsValue(top) by {
        LexLeCommonPrefix(p, sn, top);
        LexLeDigitsValue(sn, top);
      }
    }
    MaxAtMost(numbers, p, DigitsValue(top));
  }

  lemma SameNumberUnderUniformWidth(numbers: seq<string>, y: string, width: nat)
    requires '-' !in y && width >= 1 && UniformWidth(numbers, PrefixFor(y), width)
    ensures NumberWithPrefix(numbers, PrefixFor(y)) == ByValueWithPrefix(numbers, PrefixFor(y))
  {
    var p := PrefixFor(y);
    var latest := LatestWithPrefix(numbers, p);
    if latest.Some? {
      SameNumberAfterLatest(numbers, y, width, latest.value);
    } else {
      MaxOfNone(numbers, p);
    }
  }

  /** The case of `SameNumberUnderUniformWidth` where the year already has numbers. */
  lemma SameNumberAfterLatest(numbers: seq<string>, y: string, width: nat, latest: string)
    requires '-' !in y && width >= 1 && UniformWidth(numbers, PrefixFor(y), width)
    requires LatestWithPrefix(numbers, PrefixFor(y)) == Some(latest)
    ensures NumberWithPrefix(numbers, PrefixFor(y)) == ByValueWithPrefix(numbers, PrefixFor(y))
  {
    var p := PrefixFor(y);
    LatestHasLargestSuffix(numbers, y, width, latest);
    UniformSuffix(numbers, p, width, latest);
    NextAfterDigits(numbers, y, latest[|p|..]);
  }

  /** While suffix widths agree, the code as written and the by-value rule pick the same number. */
  lemma SameNumberWhileUniform(numbers: seq<string>, year: nat, width: nat)
    requires width >= 1 && UniformWidth(numbers, Prefix(year), width)
    ensures GenerateInvoiceNumber(numbers, year) == NextInvoiceNumber(numbers, year)
  {
    NoDashInDigits(NatToString(year));
    SameNumberUnderUniformWidth(numbers, NatToString(year), width);
  }
}
