/**
 * Promotions as the home-page carousel (components/promotion-carousel.tsx)
 * and the promotions page (app/promotions/page.tsx) present them: the
 * call-to-action built from a promotion's URL and label, and the page's
 * Active / Upcoming / Inactive classification by dates.
 */
module Promotions {
  import opened Wrappers
  import opened Text
  import opened Store

  // ---------------------------------------------------------------------------
  // Call to action (identical in the carousel and on the page)

  /** A link (in a new tab or not) or a download. */
  datatype CtaKind = Link(newTab: bool) | Download

  /**
   * A URL starting with "http" or "/" is a link, opened in a new tab exactly
   * when it starts with "http"; anything else is offered as a download.
   */
  function ClassifyUrl(url: string): (k: CtaKind)
    ensures k.Link? <==> StartsWith(url, "http") || StartsWith(url, "/")
    ensures k.Link? ==> (k.newTab <==> StartsWith(url, "http"))
  {
    if StartsWith(url, "http") || StartsWith(url, "/") then Link(StartsWith(url, "http")) else Download
  }

  /** `ctaLabel || "Learn More"` for links, `ctaLabel || "Download Now"` for downloads. */
  function CtaText(kind: CtaKind, ctaLabel: Option<string>): (t: string)
    ensures t != ""
    ensures ctaLabel.Some? && ctaLabel.value != "" ==> t == ctaLabel.value
    ensures (ctaLabel.None? || ctaLabel.value == "") && kind.Link? ==> t == "Learn More"
    ensures (ctaLabel.None? || ctaLabel.value == "") && kind.Download? ==> t == "Download Now"
  {
    if ctaLabel.Some? && ctaLabel.value != "" then ctaLabel.value
    else if kind.Link? then "Learn More" else "Download Now"
  }

  datatype Cta = Cta(href: string, kind: CtaKind, text: string)

  /** The call-to-action button of one promotion, on the carousel and on the page alike. */
  function PromotionCta(url: string, ctaLabel: Option<string>): (c: Cta)
    ensures c.href == url && c.text != ""
    ensures c.kind.Download? <==> !StartsWith(url, "http") && !StartsWith(url, "/")
    ensures c.kind.Link? ==> (c.kind.newTab <==> StartsWith(url, "http"))
    ensures ctaLabel.Some? && ctaLabel.value != "" ==> c.text == ctaLabel.value
    ensures (ctaLabel.None? || ctaLabel.value == "") ==>
      c.text == if c.kind.Link? then "Learn More" else "Download Now"
  {
    var kind := ClassifyUrl(url);
    Cta(url, kind, CtaText(kind, ctaLabel))
  }

  /** An absolute URL opens in a new tab; a relative one in the same tab. */
  lemma AbsoluteAndRelativeLinks(rest: string)
    ensures ClassifyUrl("http" + rest) == Link(true)
    ensures ClassifyUrl("/" + rest) == Link(false)
  {
    StartsWithConcat("http", rest);
    StartsWithConcat("/", rest);
    assert !StartsWith("/" + rest, "http") by {
      assert ("/" + rest)[0] == '/' && "http"[0] == 'h';
    }
  }

  // ---------------------------------------------------------------------------
  // Active / Upcoming / Inactive

  datatype PromotionDates = PromotionDates(active: bool, startDate: Option<Date>, endDate: Option<Date>)

  /** `active && (!startDate || startDate <= now) && (!endDate || endDate >= now)` */
  predicate IsActive(p: PromotionDates, now: Date)
    ensures IsActive(p, now) ==> p.active && !IsUpcoming(p, now)
    ensures p.active && p.startDate.None? && p.endDate.None? ==> IsActive(p, now)
    ensures p.endDate.Some? && p.endDate.value < now ==> !IsActive(p, now)
  {
    && p.active
    && (p.startDate.None? || p.startDate.value <= now)
    && (p.endDate.None? || p.endDate.value >= now)
  }

  /** `startDate && startDate > now`, whatever the active flag says. */
  predicate IsUpcoming(p: PromotionDates, now: Date)
    ensures p.startDate.None? ==> !IsUpcoming(p, now)
    ensures IsUpcoming(p, now) ==> p.startDate.Some? && now < p.startDate.value
  {
    p.startDate.Some? && p.startDate.value > now
  }

  /** A promotion is never both active and upcoming. */
  lemma NotActiveAndUpcoming(p: PromotionDates, now: Date)
    ensures !(IsActive(p, now) && IsUpcoming(p, now))
  {
  }

  datatype Badge = ActiveBadge | UpcomingBadge | InactiveBadge

  /** The badges of one card, in order. */
  function Badges(p: PromotionDates, now: Date): (b: seq<Badge>)
    ensures ActiveBadge in b <==> IsActive(p, now)
    ensures UpcomingBadge in b <==> IsUpcoming(p, now)
    ensures InactiveBadge in b <==> !IsActive(p, now) && !IsUpcoming(p, now)
  {
    (if IsActive(p, now) then [ActiveBadge] else [])
    + (if IsUpcoming(p, now) then [UpcomingBadge] else [])
    + (if !IsActive(p, now) && !IsUpcoming(p, now) then [InactiveBadge] else [])
  }

  /** Every card carries exactly one badge. */
  lemma ExactlyOneBadge(p: PromotionDates, now: Date)
    ensures |Badges(p, now)| == 1
  {
    NotActiveAndUpcoming(p, now);
  }

  /** A disabled promotion whose start is in the future still reads "Upcoming". */
  lemma UpcomingIgnoresActiveFlag(startDate: Date, endDate: Option<Date>, now: Date)
    requires startDate > now
    ensures Badges(PromotionDates(false, Some(startDate), endDate), now) == [UpcomingBadge]
  {
  }
}
