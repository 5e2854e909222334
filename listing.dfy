/**
 * The listing pass `extractPageJobs` (server.js:136-266): the vacancy-anchor pass with its
 * seen-set, metadata filter and title preference, and the weaker fallback pass over detail
 * anchors when the first pass finds nothing. The DOM is replaced by sequences of anchors.
 */
module Listing {
  import opened Wrappers
  import opened Text
  import opened Entities
  import opened Card
  import opened Records

  /**
   * An anchor as the page shows it: its `href` attribute, its inner HTML, the inner HTML of
   * the first title element inside it, and that of the first title element of its enclosing
   * article (None where there is no such element).
   */
  datatype Anchor = Anchor(
    href: string,
    innerHtml: string,
    nestedHeading: Option<string>,
    articleHeading: Option<string>)

  /**
   * One listing page: the anchors matched by the vacancy selector (`main a[href*="/vacanc"]`)
   * and those matched by the fallback selector (`a[href*="/vacancies/detail/"]`), in
   * document order.
   */
  datatype ListingPage = ListingPage(vacancyAnchors: seq<Anchor>, detailAnchors: seq<Anchor>)

  /**
   * `href.startsWith('http') ? href : new URL(href, location.origin).href`, with an empty
   * href skipped. `resolve` stands for the URL library and gives None where it throws.
   */
  function ResolveHref(href: string, resolve: string -> Option<string>): (r: Option<string>)
    ensures href == [] ==> r.None?
    ensures "http" <= href ==> r == Some(href)
    ensures href != [] && !("http" <= href) ==> r == resolve(href)
  {
    if href == [] then None
    else if "http" <= href then Some(href)
    else resolve(href)
  }

  /**
   * What one element puts before the first-occurrence filter: nothing, when it yields no
   * usable URL; otherwise its URL and, when it also passes its pass's filter, its job.
   */
  datatype Offer = NoUrl | Offer(url: string, job: Option<Job>)

  /** The URLs of the offers that have one: the `seen` set after these elements. */
  function Urls(offers: seq<Offer>): set<string>
    decreases |offers|
  {
    if offers == [] then {}
    else
      var last := offers[|offers| - 1];
      Urls(offers[..|offers| - 1]) + (if last.Offer? then {last.url} else {})
  }

  /**
   * The first-occurrence filter both passes and the cross-page merge share, with `known` the
   * URLs seen before the first element. An element without a URL is skipped; one whose URL
   * was seen before is skipped; otherwise its URL is recorded as seen (before its job is
   * looked at) and its job, if any, is kept.
   */
  function Dedup(offers: seq<Offer>, known: set<string>): seq<Job>
    decreases |offers|
  {
    if offers == [] then []
    else
      var prev := offers[..|offers| - 1];
      var last := offers[|offers| - 1];
      Dedup(prev, known)
        + (if last.Offer? && last.url !in known + Urls(prev) && last.job.Some? then [last.job.value] else [])
  }

  /** Every job on offer carries the offered URL as its link. */
  predicate LinkIsUrl(offers: seq<Offer>) {
    forall i :: 0 <= i < |offers| && offers[i].Offer? && offers[i].job.Some? ==>
      offers[i].job.value.link == offers[i].url
  }

  /** `x` is the job of one of the offers. */
  predicate Offered(offers: seq<Offer>, x: Job) {
    exists p :: 0 <= p < |offers| && offers[p].Offer? && offers[p].job == Some(x)
  }

  /** Appending one offer to those seen so far: the filter takes one more step. */
  lemma DedupSnoc(offers: seq<Offer>, o: Offer, known: set<string>)
    ensures Urls(offers + [o]) == Urls(offers) + (if o.Offer? then {o.url} else {})
    ensures Dedup(offers + [o], known) ==
      Dedup(offers, known) + (if o.Offer? && o.url !in known + Urls(offers) && o.job.Some? then [o.job.value] else [])
  {
    assert (offers + [o])[..|offers|] == offers;
  }

  /**
   * What the filter keeps has pairwise distinct links, each of them the URL of an offer and
   * none of them known beforehand, and each kept job is one on offer.
   */
  lemma {:induction false} DedupDistinct(offers: seq<Offer>, known: set<string>)
    requires LinkIsUrl(offers)
    ensures var r := Dedup(offers, known);
      && LinksDistinct(r)
      && (forall k :: 0 <= k < |r| ==> r[k].link !in known && r[k].link in Urls(offers))
      && (forall k :: 0 <= k < |r| ==> Offered(offers, r[k]))
    decreases |offers|
  {
    if offers != [] {
      var n := |offers| - 1;
      var prev := offers[..n];
      var last := offers[n];
      assert LinkIsUrl(prev) by {
        forall i | 0 <= i < |prev| ensures prev[i] == offers[i] { }
      }
      DedupDistinct(prev, known);
      var before := Dedup(prev, known);
      forall k | 0 <= k < |before| ensures Offered(offers, before[k]) {
        var p :| 0 <= p < |prev| && prev[p].Offer? && prev[p].job == Some(before[k]);
        assert offers[p] == prev[p];
      }
      var r := Dedup(offers, known);
      if last.Offer? && last.url !in known + Urls(prev) && last.job.Some? {
        assert r == before + [last.job.value];
        assert last.job.value.link == last.url;
        assert Offered(offers, r[|before|]);
      } else {
        assert r == before;
      }
    }
  }

  // ---------------------------------------------------------------- vacancy-anchor pass

  /** The regex test `/Place of work:|Workload:|Contract type:/i` on the card text. */
  predicate HasMeta(text: string) {
    || ContainsIgnoreCase(text, "place of work:")
    || ContainsIgnoreCase(text, "workload:")
    || ContainsIgnoreCase(text, "contract type:")
  }

  /** The resolved URL of a vacancy anchor, kept only when it matches `/\/vacanc/i`. */
  function VacancyUrl(a: Anchor, resolve: string -> Option<string>): (r: Option<string>)
    ensures r.Some? ==> ContainsIgnoreCase(r.value, "/vacanc") && r == ResolveHref(a.href, resolve)
    ensures ResolveHref(a.href, resolve).Some? && ContainsIgnoreCase(ResolveHref(a.href, resolve).value, "/vacanc")
      ==> r.Some?
  {
    match ResolveHref(a.href, resolve)
    case None => None
    case Some(u) => if ContainsIgnoreCase(u, "/vacanc") then Some(u) else None
  }

  /** The stripped heading: the nested title element if there is one, else the article's. */
  function HeadingTitle(a: Anchor): string {
    var h := if a.nestedHeading.Some? then a.nestedHeading else a.articleHeading;
    match h
    case None => ""
    case Some(html) => StripHtml(html)
  }

  /**
   * The job a vacancy anchor with URL `url` yields: None when the stripped card text has none
   * of the three labels; otherwise the parsed card, with the heading preferred as title.
   */
  function VacancyJob(a: Anchor, url: string): Option<Job> {
    var text := StripHtml(a.innerHtml);
    if !HasMeta(text) then None
    else
      var parsed := CardFieldsOf(text);
      var fromHeading := HeadingTitle(a);
      Some(Job(
        if fromHeading != "" then fromHeading else parsed.title,
        parsed.company, parsed.location, parsed.workload, parsed.contractType, parsed.postedText,
        url, None, None))
  }

  function VacancyOffer(a: Anchor, resolve: string -> Option<string>): Offer {
    match VacancyUrl(a, resolve)
    case None => NoUrl
    case Some(url) => Offer(url, VacancyJob(a, url))
  }

  function VacancyOffers(anchors: seq<Anchor>, resolve: string -> Option<string>): (r: seq<Offer>)
    ensures |r| == |anchors|
    ensures forall i {:trigger anchors[i]} :: 0 <= i < |anchors| ==> r[i] == VacancyOffer(anchors[i], resolve)
  {
    seq(|anchors|, i requires 0 <= i < |anchors| => VacancyOffer(anchors[i], resolve))
  }

  lemma VacancyOfferStep(anchors: seq<Anchor>, resolve: string -> Option<string>, offered: seq<Offer>, o: Offer, i: nat)
    requires i < |anchors| && |offered| == i && o == VacancyOffer(anchors[i], resolve)
    requires forall k {:trigger anchors[k]} :: 0 <= k < i ==> offered[k] == VacancyOffer(anchors[k], resolve)
    ensures forall k {:trigger anchors[k]} :: 0 <= k < i + 1 ==> (offered + [o])[k] == VacancyOffer(anchors[k], resolve)
  {
    forall k | 0 <= k < i + 1 ensures (offered + [o])[k] == VacancyOffer(anchors[k], resolve) {
      if k < i {
        assert (offered + [o])[k] == offered[k];
      }
    }
  }

  /** Offers that agree with `VacancyOffer` anchor by anchor are the pass's offers. */
  lemma VacancyOffersAre(anchors: seq<Anchor>, resolve: string -> Option<string>, offered: seq<Offer>)
    requires |offered| == |anchors|
    requires forall k {:trigger anchors[k]} :: 0 <= k < |anchors| ==> offered[k] == VacancyOffer(anchors[k], resolve)
    ensures offered == VacancyOffers(anchors, resolve)
  {
    forall k | 0 <= k < |anchors| ensures offered[k] == VacancyOffers(anchors, resolve)[k] {
      var a := anchors[k];
    }
  }

  /** What the vacancy-anchor pass returns. */
  function VacancyJobs(anchors: seq<Anchor>, resolve: string -> Option<string>): seq<Job> {
    Dedup(VacancyOffers(anchors, resolve), {})
  }

  /** The body of the vacancy loop once the anchor's URL is new: filter, parse, prefer the heading. */
  method ParseVacancyAnchor(a: Anchor, url: string) returns (job: Option<Job>)
    ensures job == VacancyJob(a, url)
  {
    var text := StripHtml(a.innerHtml);
    if !HasMeta(text) {
      return None;
    }
    var parsed := ParseCardText(text);
    var fromHeading := HeadingTitle(a);
    var title := if fromHeading != "" then fromHeading else parsed.title;
    job := Some(Job(title, parsed.company, parsed.location, parsed.workload,
                    parsed.contractType, parsed.postedText, url, None, None));
  }

  /** The vacancy-anchor loop, with its `results` array and `seen` set. */
  method ExtractVacancyJobs(anchors: seq<Anchor>, resolve: string -> Option<string>) returns (results: seq<Job>)
    ensures results == VacancyJobs(anchors, resolve)
  {
    ghost var offered: seq<Offer> := [];
    results := [];
    var seen: set<string> := {};
    var i := 0;
    while i < |anchors|
      invariant i <= |anchors| && |offered| == i
      invariant forall k {:trigger anchors[k]} :: 0 <= k < i ==> offered[k] == VacancyOffer(anchors[k], resolve)
      invariant seen == Urls(offered)
      invariant results == Dedup(offered, {})
    {
      var a := anchors[i];
      ghost var o := VacancyOffer(a, resolve);
      seen, results := VacancyTurn(offered, a, resolve, seen, results);
      VacancyOfferStep(anchors, resolve, offered, o, i);
      offered := offered + [o];
      i := i + 1;
    }
    VacancyOffersAre(anchors, resolve, offered);
  }

  /** One turn of the vacancy loop: the anchor's job is kept when its URL is new and it parses. */
  method VacancyTurn(ghost offered: seq<Offer>, a: Anchor, resolve: string -> Option<string>,
                     seen0: set<string>, results0: seq<Job>) returns (seen: set<string>, results: seq<Job>)
    requires seen0 == Urls(offered) && results0 == Dedup(offered, {})
    ensures seen == Urls(offered + [VacancyOffer(a, resolve)])
    ensures results == Dedup(offered + [VacancyOffer(a, resolve)], {})
  {
    VacancyDedupStep(offered, a, resolve);
    seen, results := seen0, results0;
    var url := VacancyUrl(a, resolve);
    if url.Some? && url.value !in seen {
      seen := seen + {url.value};
      var job := ParseVacancyAnchor(a, url.value);
      if job.Some? {
        results := results + [job.value];
      }
    }
  }

  /** One anchor's effect on the URLs seen and on the jobs kept by the vacancy pass. */
  lemma VacancyDedupStep(offered: seq<Offer>, a: Anchor, resolve: string -> Option<string>)
    ensures var url := VacancyUrl(a, resolve);
      && Urls(offered + [VacancyOffer(a, resolve)]) == Urls(offered) + (if url.Some? then {url.value} else {})
      && Dedup(offered + [VacancyOffer(a, resolve)], {}) == Dedup(offered, {}) +
           (if url.Some? && url.value !in Urls(offered) && VacancyJob(a, url.value).Some?
            then [VacancyJob(a, url.value).value] else [])
  {
    DedupSnoc(offered, VacancyOffer(a, resolve), {});
    assert {} + Urls(offered) == Urls(offered);
  }

  // ---------------------------------------------------------------- fallback pass

  /** The fallback's job: the first 140 characters of the tag-stripped text as title. */
  function FallbackJob(a: Anchor, url: string): Job {
    var text := StripTagsOnly(a.innerHtml);
    Job(if |text| < 140 then text else text[..140], "", "", "", "", "", url, None, None)
  }

  /** The fallback takes every resolved URL: no vacancy test and no metadata filter. */
  function FallbackOffer(a: Anchor, resolve: string -> Option<string>): Offer {
    match ResolveHref(a.href, resolve)
    case None => NoUrl
    case Some(url) => Offer(url, Some(FallbackJob(a, url)))
  }

  function FallbackOffers(anchors: seq<Anchor>, resolve: string -> Option<string>): (r: seq<Offer>)
    ensures |r| == |anchors|
    ensures forall i {:trigger anchors[i]} :: 0 <= i < |anchors| ==> r[i] == FallbackOffer(anchors[i], resolve)
  {
    seq(|anchors|, i requires 0 <= i < |anchors| => FallbackOffer(anchors[i], resolve))
  }

  lemma FallbackOfferStep(anchors: seq<Anchor>, resolve: string -> Option<string>, offered: seq<Offer>, o: Offer, i: nat)
    requires i < |anchors| && |offered| == i && o == FallbackOffer(anchors[i], resolve)
    requires forall k {:trigger anchors[k]} :: 0 <= k < i ==> offered[k] == FallbackOffer(anchors[k], resolve)
    ensures forall k {:trigger anchors[k]} :: 0 <= k < i + 1 ==> (offered + [o])[k] == FallbackOffer(anchors[k], resolve)
  {
    forall k | 0 <= k < i + 1 ensures (offered + [o])[k] == FallbackOffer(anchors[k], resolve) {
      if k < i {
        assert (offered + [o])[k] == offered[k];
      }
    }
  }

  /** Offers that agree with `FallbackOffer` anchor by anchor are the pass's offers. */
  lemma FallbackOffersAre(anchors: seq<Anchor>, resolve: string -> Option<string>, offered: seq<Offer>)
    requires |offered| == |anchors|
    requires forall k {:trigger anchors[k]} :: 0 <= k < |anchors| ==> offered[k] == FallbackOffer(anchors[k], resolve)
    ensures offered == FallbackOffers(anchors, resolve)
  {
    forall k | 0 <= k < |anchors| ensures offered[k] == FallbackOffers(anchors, resolve)[k] {
      var a := anchors[k];
    }
  }

  /** What the fallback pass returns. */
  function FallbackJobs(anchors: seq<Anchor>, resolve: string -> Option<string>): seq<Job> {
    Dedup(FallbackOffers(anchors, resolve), {})
  }

  method ExtractFallbackJobs(anchors: seq<Anchor>, resolve: string -> Option<string>) returns (results: seq<Job>)
    ensures results == FallbackJobs(anchors, resolve)
  {
    ghost var offered: seq<Offer> := [];
    results := [];
    var seen: set<string> := {};
    var i := 0;
    while i < |anchors|
      invariant i <= |anchors| && |offered| == i
      invariant forall k {:trigger anchors[k]} :: 0 <= k < i ==> offered[k] == FallbackOffer(anchors[k], resolve)
      invariant seen == Urls(offered)
      invariant results == Dedup(offered, {})
    {
      var a := anchors[i];
      ghost var o := FallbackOffer(a, resolve);
      seen, results := FallbackTurn(offered, a, resolve, seen, results);
      FallbackOfferStep(anchors, resolve, offered, o, i);
      offered := offered + [o];
      i := i + 1;
    }
    FallbackOffersAre(anchors, resolve, offered);
  }

  /** One turn of the fallback loop: the anchor's job is kept when its resolved URL is new. */
  method FallbackTurn(ghost offered: seq<Offer>, a: Anchor, resolve: string -> Option<string>,
                      seen0: set<string>, results0: seq<Job>) returns (seen: set<string>, results: seq<Job>)
    requires seen0 == Urls(offered) && results0 == Dedup(offered, {})
    ensures seen == Urls(offered + [FallbackOffer(a, resolve)])
    ensures results == Dedup(offered + [FallbackOffer(a, resolve)], {})
  {
    FallbackDedupStep(offered, a, resolve);
    seen, results := seen0, results0;
    var url := ResolveHref(a.href, resolve);
    if url.Some? && url.value !in seen {
      seen := seen + {url.value};
      results := results + [FallbackJob(a, url.value)];
    }
  }

  /** One fallback anchor claims its resolved URL and keeps its job exactly when the URL is new. */
  lemma FallbackDedupStep(offered: seq<Offer>, a: Anchor, resolve: string -> Option<string>)
    ensures var url := ResolveHref(a.href, resolve);
      && Urls(offered + [FallbackOffer(a, resolve)]) == Urls(offered) + (if url.Some? then {url.value} else {})
      && Dedup(offered + [FallbackOffer(a, resolve)], {}) ==
         Dedup(offered, {}) + (if url.Some? && url.value !in Urls(offered) then [FallbackJob(a, url.value)] else [])
  {
    DedupSnoc(offered, FallbackOffer(a, resolve), {});
    assert {} + Urls(offered) == Urls(offered);
  }

  // ---------------------------------------------------------------- the page

  /** `extractPageJobs`: the vacancy pass, or the fallback pass when that finds nothing. */
  function PageJobs(page: ListingPage, resolve: string -> Option<string>): seq<Job> {
    var jobs := VacancyJobs(page.vacancyAnchors, resolve);
    if |jobs| == 0 then FallbackJobs(page.detailAnchors, resolve) else jobs
  }

  method ExtractPageJobs(page: ListingPage, resolve: string -> Option<string>) returns (jobs: seq<Job>)
    ensures jobs == PageJobs(page, resolve)
    ensures LinksDistinct(jobs)
  {
    jobs := ExtractVacancyJobs(page.vacancyAnchors, resolve);
    if |jobs| == 0 {
      jobs := ExtractFallbackJobs(page.detailAnchors, resolve);
    }
    PageJobsDistinct(page, resolve);
  }

  /** The links one extraction pass returns are pairwise distinct. */
  lemma PageJobsDistinct(page: ListingPage, resolve: string -> Option<string>)
    ensures LinksDistinct(PageJobs(page, resolve))
  {
    VacancyOffersLinkIsUrl(page.vacancyAnchors, resolve);
    DedupDistinct(VacancyOffers(page.vacancyAnchors, resolve), {});
    FallbackOffersLinkIsUrl(page.detailAnchors, resolve);
    DedupDistinct(FallbackOffers(page.detailAnchors, resolve), {});
  }

  /**
   * What a vacancy anchor's job looks like: its link is the anchor's URL and matches
   * `/\/vacanc/i`, its company is "" (the parser sees a single line), and it has no
   * description or key facts yet.
   */
  lemma VacancyOfferShape(a: Anchor, resolve: string -> Option<string>)
    ensures var o := VacancyOffer(a, resolve);
      o.Offer? && o.job.Some? ==>
        && o.job.value.link == o.url
        && ContainsIgnoreCase(o.url, "/vacanc")
        && o.job.value.company == ""
        && o.job.value.description.None? && o.job.value.keyInfo.None?
  {
    var url := VacancyUrl(a, resolve);
    if url.Some? {
      VacancyJobShape(a, url.value);
    }
  }

  lemma VacancyJobShape(a: Anchor, url: string)
    ensures var j := VacancyJob(a, url);
      j.Some? ==>
        && j.value.link == url
        && j.value.company == ""
        && j.value.description.None? && j.value.keyInfo.None?
  {
    var text := StripHtml(a.innerHtml);
    var f := CardFieldsOf(text);
    StrippedCardHasNoCompany(a.innerHtml);
    assert VacancyJob(a, url).Some? ==> VacancyJob(a, url).value.company == f.company;
  }

  /** Every job of the vacancy pass has the shape `VacancyOfferShape` states. */
  lemma VacancyJobsShape(anchors: seq<Anchor>, resolve: string -> Option<string>)
    ensures forall j :: j in VacancyJobs(anchors, resolve) ==>
      && ContainsIgnoreCase(j.link, "/vacanc")
      && j.company == ""
      && j.description.None? && j.keyInfo.None?
  {
    var offers := VacancyOffers(anchors, resolve);
    VacancyOffersLinkIsUrl(anchors, resolve);
    DedupDistinct(offers, {});
    var r := Dedup(offers, {});
    forall j | j in r
      ensures ContainsIgnoreCase(j.link, "/vacanc") && j.company == "" && j.description.None? && j.keyInfo.None?
    {
      var k :| 0 <= k < |r| && r[k] == j;
      assert Offered(offers, r[k]);
      var p :| 0 <= p < |offers| && offers[p].Offer? && offers[p].job == Some(j);
      var a := anchors[p];
      VacancyOfferShape(a, resolve);
    }
  }

  lemma VacancyOffersLinkIsUrl(anchors: seq<Anchor>, resolve: string -> Option<string>)
    ensures LinkIsUrl(VacancyOffers(anchors, resolve))
  {
    var offers := VacancyOffers(anchors, resolve);
    forall i | 0 <= i < |offers| && offers[i].Offer? && offers[i].job.Some?
      ensures offers[i].job.value.link == offers[i].url
    {
      var a := anchors[i];
      VacancyOfferShape(a, resolve);
    }
  }

  lemma FallbackOffersLinkIsUrl(anchors: seq<Anchor>, resolve: string -> Option<string>)
    ensures LinkIsUrl(FallbackOffers(anchors, resolve))
  {
    var offers := FallbackOffers(anchors, resolve);
    forall i | 0 <= i < |offers| && offers[i].Offer? && offers[i].job.Some?
      ensures offers[i].job.value.link == offers[i].url
    {
      var a := anchors[i];
      FallbackOfferShape(a, resolve);
    }
  }

  /** A fallback job has a title of at most 140 characters and "" in every other listing field. */
  lemma FallbackOfferShape(a: Anchor, resolve: string -> Option<string>)
    ensures var o := FallbackOffer(a, resolve);
      o.Offer? ==>
        && o.job.Some? && o.job.value.link == o.url
        && |o.job.value.title| <= 140
        && o.job.value.company == "" && o.job.value.location == "" && o.job.value.workload == ""
        && o.job.value.contractType == "" && o.job.value.postedText == ""
        && o.job.value.description.None? && o.job.value.keyInfo.None?
  {
    var url := ResolveHref(a.href, resolve);
    if url.Some? {
      var text := StripTagsOnly(a.innerHtml);
      assert FallbackJob(a, url.value).title == if |text| < 140 then text else text[..140];
    }
  }

  /** Every job of the fallback pass has the shape `FallbackOfferShape` states. */
  lemma FallbackJobsShape(anchors: seq<Anchor>, resolve: string -> Option<string>)
    ensures forall j :: j in FallbackJobs(anchors, resolve) ==>
      && |j.title| <= 140
      && j.company == "" && j.location == "" && j.workload == ""
      && j.contractType == "" && j.postedText == ""
      && j.description.None? && j.keyInfo.None?
  {
    var offers := FallbackOffers(anchors, resolve);
    FallbackOffersLinkIsUrl(anchors, resolve);
    DedupDistinct(offers, {});
    var r := Dedup(offers, {});
    forall j | j in r
      ensures |j.title| <= 140 && j.company == "" && j.location == "" && j.workload == ""
              && j.contractType == "" && j.postedText == "" && j.description.None? && j.keyInfo.None?
    {
      var k :| 0 <= k < |r| && r[k] == j;
      assert Offered(offers, r[k]);
      var p :| 0 <= p < |offers| && offers[p].Offer? && offers[p].job == Some(j);
      var a := anchors[p];
      FallbackOfferShape(a, resolve);
    }
  }

  /** An offer whose URL an earlier offer already claimed is dropped, whatever its job. */
  lemma SecondOfferClaimed(o1: Offer, o2: Offer)
    requires o1.Offer? && o1.job.None? && o2.Offer? && o2.url == o1.url
    ensures Dedup([o1, o2], {}) == []
  {
    DedupSnoc([], o1, {});
    assert [] + [o1] == [o1];
    DedupSnoc([o1], o2, {});
    assert [o1] + [o2] == [o1, o2];
  }

  /**
   * The seen-set is updated before the metadata filter: when the first anchor with some URL
   * has no metadata, a later anchor with the same URL is not taken either.
   */
  lemma FirstAnchorClaimsUrl(a: Anchor, b: Anchor, resolve: string -> Option<string>)
    requires VacancyUrl(a, resolve).Some? && VacancyUrl(a, resolve) == VacancyUrl(b, resolve)
    requires VacancyJob(a, VacancyUrl(a, resolve).value).None?
    ensures VacancyJobs([a, b], resolve) == []
  {
    var url := VacancyUrl(a, resolve).value;
    var o1 := VacancyOffer(a, resolve);
    var o2 := VacancyOffer(b, resolve);
    assert o1 == Offer(url, VacancyJob(a, url));
    assert o2.Offer? && o2.url == url;
    TwoVacancyOffers(a, b, resolve);
    SecondOfferClaimed(o1, o2);
  }

  lemma TwoVacancyOffers(a: Anchor, b: Anchor, resolve: string -> Option<string>)
    ensures VacancyOffers([a, b], resolve) == [VacancyOffer(a, resolve), VacancyOffer(b, resolve)]
  {
    assert [a, b][0] == a && [a, b][1] == b;
    VacancyOffersAre([a, b], resolve, [VacancyOffer(a, resolve), VacancyOffer(b, resolve)]);
  }
}
