/**
 * `scrapeJobs` and the `/scrape` route (server.js:301-351, 354-627, 635-639): the cross-page
 * merge, the page loop and its bound, the enrichment of every job from its detail page, and
 * the request's defaults.
 */
module Scrape {
  import opened Wrappers
  import opened Text
  import opened Records
  import opened Listing
  import opened Details
  import Entities

  // ---------------------------------------------------------------- links

  /** The first job with a link in a concatenation: the first list's, if it has that link. */
  lemma {:induction false} FirstWithConcat(a: seq<Job>, b: seq<Job>, l: string)
    ensures FirstWith(a + b, l) == if l in Links(a) then FirstWith(a, l) else FirstWith(b, l)
    decreases |a|
  {
    if a == [] {
      assert a + b == b;
    } else {
      assert (a + b)[0] == a[0];
      assert a == [a[0]] + a[1..];
      LinksConcat([a[0]], a[1..]);
      LinksSnoc([], a[0]);
      assert [] + [a[0]] == [a[0]];
      if a[0].link != l {
        assert (a + b)[1..] == a[1..] + b;
        FirstWithConcat(a[1..], b, l);
      }
    }
  }

  // ---------------------------------------------------------------- the merge

  /**
   * The jobs the merge loop appends for one page, `known` being the links collected before it:
   * a job is appended when its link is neither known nor the link of an earlier job on the page.
   */
  function Appended(jobs: seq<Job>, known: set<string>): seq<Job>
    decreases |jobs|
  {
    if jobs == [] then []
    else
      var prev := jobs[..|jobs| - 1];
      var j := jobs[|jobs| - 1];
      Appended(prev, known) + (if j.link !in known + Links(prev) then [j] else [])
  }

  /** The merge loop of `scrapeJobs`: the collected jobs, then what the page adds. */
  function Merge(all: seq<Job>, jobs: seq<Job>): seq<Job> {
    all + Appended(jobs, Links(all))
  }

  /** One more job through the merge loop. */
  lemma AppendedSnoc(jobs: seq<Job>, i: nat, known: set<string>)
    requires i < |jobs|
    ensures Appended(jobs[..i + 1], known) ==
      Appended(jobs[..i], known) + (if jobs[i].link !in known + Links(jobs[..i]) then [jobs[i]] else [])
    ensures Links(jobs[..i + 1]) == Links(jobs[..i]) + {jobs[i].link}
  {
    assert jobs[..i + 1][..i] == jobs[..i];
  }

  /**
   * The loop: `known` starts as the links collected so far, and each of the page's jobs whose
   * link is not known is appended and its link becomes known.
   */
  method MergeJobs(all: seq<Job>, jobs: seq<Job>) returns (merged: seq<Job>)
    ensures merged == Merge(all, jobs)
  {
    merged := all;
    var known := Links(all);
    var i := 0;
    while i < |jobs|
      invariant i <= |jobs|
      invariant merged == all + Appended(jobs[..i], Links(all))
      invariant known == Links(all) + Links(jobs[..i])
    {
      AppendedSnoc(jobs, i, Links(all));
      if jobs[i].link !in known {
        merged := merged + [jobs[i]];
      }
      known := known + {jobs[i].link};
      i := i + 1;
    }
    assert jobs[..|jobs|] == jobs;
  }

  /** The links appended are the page's links that were not known. */
  lemma {:induction false} AppendedLinks(jobs: seq<Job>, known: set<string>)
    ensures Links(Appended(jobs, known)) == Links(jobs) - known
    decreases |jobs|
  {
    if jobs != [] {
      var n := |jobs| - 1;
      var prev := jobs[..n];
      var j := jobs[n];
      var d := Appended(prev, known);
      AppendedLinks(prev, known);
      if j.link !in known + Links(prev) {
        LinksSnoc(d, j);
      } else {
        assert d + [] == d;
      }
    }
  }

  /**
   * The appended jobs have pairwise distinct links, none of them known, and each is one of the
   * page's jobs.
   */
  lemma {:induction false} AppendedDistinct(jobs: seq<Job>, known: set<string>)
    ensures var r := Appended(jobs, known);
      && LinksDistinct(r)
      && (forall k :: 0 <= k < |r| ==> r[k].link !in known && r[k] in jobs)
    decreases |jobs|
  {
    if jobs != [] {
      var n := |jobs| - 1;
      var prev := jobs[..n];
      var j := jobs[n];
      var d := Appended(prev, known);
      AppendedDistinct(prev, known);
      AppendedLinks(prev, known);
      var r := Appended(jobs, known);
      forall k | 0 <= k < |d| ensures d[k] in jobs {
        assert d[k] in prev;
      }
      if j.link !in known + Links(prev) {
        assert r == d + [j];
        forall k | 0 <= k < |d| ensures d[k].link != j.link {
          LinksIff(d, d[k].link);
        }
      } else {
        assert r == d;
      }
    }
  }

  /** The merge keeps the old list as a prefix and adds every link of the page. */
  lemma MergeLinks(all: seq<Job>, jobs: seq<Job>)
    ensures var r := Merge(all, jobs);
      r[..|all|] == all && Links(r) == Links(all) + Links(jobs)
  {
    var added := Appended(jobs, Links(all));
    AppendedLinks(jobs, Links(all));
    LinksConcat(all, added);
    assert (all + added)[..|all|] == all;
  }

  /** The merge appends only jobs of the page, and only under links not known before. */
  lemma MergeAdded(all: seq<Job>, jobs: seq<Job>)
    ensures var r := Merge(all, jobs);
      forall k :: |all| <= k < |r| ==> r[k].link !in Links(all) && r[k] in jobs
  {
    var added := Appended(jobs, Links(all));
    var r := Merge(all, jobs);
    AppendedDistinct(jobs, Links(all));
    forall k | |all| <= k < |r| ensures r[k].link !in Links(all) && r[k] in jobs {
      assert r[k] == added[k - |all|];
    }
  }

  /** The merge keeps the links pairwise distinct. */
  lemma MergeDistinct(all: seq<Job>, jobs: seq<Job>)
    requires LinksDistinct(all)
    ensures LinksDistinct(Merge(all, jobs))
  {
    var added := Appended(jobs, Links(all));
    var r := Merge(all, jobs);
    AppendedDistinct(jobs, Links(all));
    forall i, j | 0 <= i < j < |r| ensures r[i].link != r[j].link {
      if j >= |all| && i < |all| {
        assert r[i] == all[i];
        assert r[j] == added[j - |all|];
        LinksIff(all, all[i].link);
      } else if i >= |all| {
        assert r[i] == added[i - |all|] && r[j] == added[j - |all|];
      }
    }
  }

  /** Both: what a merge of a list with distinct links gives. */
  lemma MergeSpec(all: seq<Job>, jobs: seq<Job>)
    requires LinksDistinct(all)
    ensures var r := Merge(all, jobs);
      && r[..|all|] == all
      && LinksDistinct(r)
      && Links(r) == Links(all) + Links(jobs)
      && (forall k :: |all| <= k < |r| ==> r[k].link !in Links(all) && r[k] in jobs)
  {
    MergeLinks(all, jobs);
    MergeAdded(all, jobs);
    MergeDistinct(all, jobs);
  }

  /** A page whose links are all known appends nothing. */
  lemma AppendedAllKnown(jobs: seq<Job>, known: set<string>)
    requires Links(jobs) <= known
    ensures Appended(jobs, known) == []
  {
    AppendedLinks(jobs, known);
  }

  /** A page with distinct links, none of them known, is appended whole. */
  lemma {:induction false} AppendedKeepsAll(jobs: seq<Job>, known: set<string>)
    requires LinksDistinct(jobs) && Links(jobs) !! known
    ensures Appended(jobs, known) == jobs
    decreases |jobs|
  {
    if jobs != [] {
      var n := |jobs| - 1;
      var prev := jobs[..n];
      var j := jobs[n];
      DistinctPrefix(jobs, n);
      AppendedKeepsAll(prev, known);
      assert j.link !in Links(prev) by {
        LinksIff(prev, j.link);
        forall k | 0 <= k < |prev| ensures prev[k].link != j.link {
          assert prev[k] == jobs[k];
        }
      }
      assert prev + [j] == jobs;
    }
  }

  /** Reading the same page twice adds nothing the second time. */
  lemma MergeIdempotent(all: seq<Job>, jobs: seq<Job>)
    ensures Merge(Merge(all, jobs), jobs) == Merge(all, jobs)
  {
    var r := Merge(all, jobs);
    AppendedLinks(jobs, Links(all));
    LinksConcat(all, Appended(jobs, Links(all)));
    AppendedAllKnown(jobs, Links(r));
    assert r + [] == r;
  }

  /** For a duplicate link the first-seen record wins: the old list's, else the page's first. */
  lemma MergeFirstSeen(all: seq<Job>, jobs: seq<Job>, l: string)
    ensures FirstWith(Merge(all, jobs), l) ==
      if l in Links(all) then FirstWith(all, l) else FirstWith(jobs, l)
  {
    FirstWithConcat(all, Appended(jobs, Links(all)), l);
    if l !in Links(all) {
      AppendedFirstWith(jobs, Links(all), l);
    }
  }

  lemma {:induction false} AppendedFirstWith(jobs: seq<Job>, known: set<string>, l: string)
    requires l !in known
    ensures FirstWith(Appended(jobs, known), l) == FirstWith(jobs, l)
    decreases |jobs|
  {
    if jobs != [] {
      var n := |jobs| - 1;
      var prev := jobs[..n];
      var j := jobs[n];
      var d := Appended(prev, known);
      AppendedFirstWith(prev, known, l);
      AppendedLinks(prev, known);
      assert prev + [j] == jobs;
      FirstWithConcat(prev, [j], l);
      assert [j][1..] == [];
      if j.link !in known + Links(prev) {
        FirstWithConcat(d, [j], l);
      } else {
        assert d + [] == d;
        FirstWithSome(d, l);
      }
    }
  }

  // ---------------------------------------------------------------- the page loop

  /** The jobs collected from pages listing `pageJobs`, in page order, starting from none. */
  function Collect(pageJobs: seq<seq<Job>>): seq<Job>
    decreases |pageJobs|
  {
    if pageJobs == [] then []
    else Merge(Collect(pageJobs[..|pageJobs| - 1]), pageJobs[|pageJobs| - 1])
  }

  lemma CollectSnoc(pageJobs: seq<seq<Job>>, jobs: seq<Job>)
    ensures Collect(pageJobs + [jobs]) == Merge(Collect(pageJobs), jobs)
  {
    assert (pageJobs + [jobs])[..|pageJobs|] == pageJobs;
  }

  /**
   * Whatever the pages list, the collected links are pairwise distinct and are exactly the
   * links the pages list.
   */
  lemma CollectSpec(pageJobs: seq<seq<Job>>)
    ensures LinksDistinct(Collect(pageJobs))
    ensures forall k :: 0 <= k < |pageJobs| ==> Links(pageJobs[k]) <= Links(Collect(pageJobs))
    ensures forall l :: l in Links(Collect(pageJobs)) ==> exists k :: 0 <= k < |pageJobs| && l in Links(pageJobs[k])
  {
    CollectDistinct(pageJobs);
    CollectCovers(pageJobs);
    CollectFrom(pageJobs);
  }

  lemma {:induction false} CollectDistinct(pageJobs: seq<seq<Job>>)
    ensures LinksDistinct(Collect(pageJobs))
    decreases |pageJobs|
  {
    if pageJobs != [] {
      var n := |pageJobs| - 1;
      CollectDistinct(pageJobs[..n]);
      MergeDistinct(Collect(pageJobs[..n]), pageJobs[n]);
    }
  }

  /** The links collected from `pageJobs`: those of the pages before the last, then the last's. */
  lemma CollectLinks(pageJobs: seq<seq<Job>>)
    requires pageJobs != []
    ensures Links(Collect(pageJobs)) ==
      Links(Collect(pageJobs[..|pageJobs| - 1])) + Links(pageJobs[|pageJobs| - 1])
  {
    var n := |pageJobs| - 1;
    MergeLinks(Collect(pageJobs[..n]), pageJobs[n]);
  }

  lemma {:induction false} CollectCovers(pageJobs: seq<seq<Job>>)
    ensures forall k :: 0 <= k < |pageJobs| ==> Links(pageJobs[k]) <= Links(Collect(pageJobs))
    decreases |pageJobs|
  {
    if pageJobs != [] {
      var n := |pageJobs| - 1;
      var prev := pageJobs[..n];
      CollectCovers(prev);
      CollectLinks(pageJobs);
      forall k | 0 <= k < |pageJobs| ensures Links(pageJobs[k]) <= Links(Collect(pageJobs)) {
        if k < n {
          assert pageJobs[k] == prev[k];
        }
      }
    }
  }

  lemma {:induction false} CollectFrom(pageJobs: seq<seq<Job>>)
    ensures forall l :: l in Links(Collect(pageJobs)) ==> exists k :: 0 <= k < |pageJobs| && l in Links(pageJobs[k])
    decreases |pageJobs|
  {
    if pageJobs != [] {
      var n := |pageJobs| - 1;
      var prev := pageJobs[..n];
      CollectFrom(prev);
      CollectLinks(pageJobs);
      forall l | l in Links(Collect(pageJobs)) ensures exists k :: 0 <= k < |pageJobs| && l in Links(pageJobs[k]) {
        if l in Links(Collect(prev)) {
          var k :| 0 <= k < |prev| && l in Links(prev[k]);
          assert prev[k] == pageJobs[k];
        } else {
          assert l in Links(pageJobs[n]);
        }
      }
    } else {
      assert Links([]) == {};
    }
  }

  /** Collecting one page's distinct jobs any number of times, at least once, gives that page's jobs. */
  lemma {:induction false} CollectRepeated(jobs: seq<Job>, n: nat)
    requires n >= 1 && LinksDistinct(jobs)
    ensures Collect(seq(n, _ => jobs)) == jobs
    decreases n
  {
    var r := seq(n, _ => jobs);
    assert r == seq(n - 1, _ => jobs) + [jobs];
    CollectSnoc(seq(n - 1, _ => jobs), jobs);
    AppendedKeepsAll(jobs, {});
    assert Merge([], jobs) == jobs by {
      assert Links([]) == {};
      assert [] + jobs == jobs;
    }
    if n > 1 {
      CollectRepeated(jobs, n - 1);
      MergeIdempotent([], jobs);
    } else {
      assert seq(0, _ => jobs) == [];
    }
  }

  /** `extractPageJobs` with the page's URL resolution fixed. */
  function Extractor(resolve: string -> Option<string>): ListingPage -> seq<Job> {
    p => PageJobs(p, resolve)
  }

  /** The jobs each page read lists, in order. */
  function JobsOf(read: seq<ListingPage>, extract: ListingPage -> seq<Job>): (r: seq<seq<Job>>)
    ensures |r| == |read|
    decreases |read|
  {
    if read == [] then [] else JobsOf(read[..|read| - 1], extract) + [extract(read[|read| - 1])]
  }

  lemma JobsOfSnoc(read: seq<ListingPage>, i: nat, extract: ListingPage -> seq<Job>)
    requires i < |read|
    ensures JobsOf(read[..i + 1], extract) == JobsOf(read[..i], extract) + [extract(read[i])]
  {
    assert read[..i + 1][..i] == read[..i];
  }

  lemma {:induction false} JobsOfAt(read: seq<ListingPage>, k: nat, extract: ListingPage -> seq<Job>)
    requires k < |read|
    ensures JobsOf(read, extract)[k] == extract(read[k])
    decreases |read|
  {
    var n := |read| - 1;
    if k < n {
      assert read[..n][k] == read[k];
      JobsOfAt(read[..n], k, extract);
    }
  }

  function Min(a: int, b: int): int {
    if a < b then a else b
  }

  /**
   * The listing pages as the search reaches them: `pages[0]` is the search page for the term,
   * and the "next" control on `pages[k]` exists exactly when `k + 1 < |pages|`, leading to
   * `pages[k + 1]`. The pages read, following "next", are the first `maxPages` of them.
   */
  function Visits(pages: seq<ListingPage>, maxPages: int): (read: seq<ListingPage>)
    ensures |read| <= |pages| && (maxPages <= 0 ==> read == []) && (maxPages > 0 ==> |read| <= maxPages)
    ensures maxPages > 0 ==> |read| == Min(maxPages, |pages|)
    ensures forall k :: 0 <= k < |read| ==> read[k] == pages[k]
  {
    if maxPages <= 0 then [] else pages[..Min(maxPages, |pages|)]
  }

  /** The collected jobs when "next" is followed. */
  function Collected(pages: seq<ListingPage>, resolve: string -> Option<string>, maxPages: int): seq<Job> {
    Collect(JobsOf(Visits(pages, maxPages), Extractor(resolve)))
  }

  /**
   * The page loop following the "next" control: read the current page, merge its jobs, stop
   * after `maxPages` pages or when there is no "next" control, else go on to the page it leads
   * to. `loads` counts the pages read.
   */
  method Paginate(pages: seq<ListingPage>, resolve: string -> Option<string>, maxPages: int)
    returns (all: seq<Job>, loads: nat)
    requires |pages| >= 1
    ensures all == Collected(pages, resolve, maxPages)
    ensures loads == |Visits(pages, maxPages)|
    ensures loads <= if maxPages <= 0 then 0 else maxPages
  {
    all := [];
    loads := 0;
    var i := 0;
    while i < maxPages
      invariant i < |pages| && (i == 0 || i < maxPages)
      invariant loads == i
      invariant all == Collect(JobsOf(pages[..i], Extractor(resolve)))
      decreases maxPages - i
    {
      var jobs := ExtractPageJobs(pages[i], resolve);
      PaginateStep(pages, i, resolve, all, jobs);
      all := MergeJobs(all, jobs);
      loads := loads + 1;
      if i == maxPages - 1 {
        break;
      }
      if i + 1 >= |pages| {
        break;
      }
      i := i + 1;
    }
  }

  lemma PaginateStep(pages: seq<ListingPage>, i: nat, resolve: string -> Option<string>, all: seq<Job>, jobs: seq<Job>)
    requires i < |pages| && all == Collect(JobsOf(pages[..i], Extractor(resolve))) && jobs == PageJobs(pages[i], resolve)
    ensures Merge(all, jobs) == Collect(JobsOf(pages[..i + 1], Extractor(resolve)))
  {
    JobsOfSnoc(pages, i, Extractor(resolve));
    CollectSnoc(JobsOf(pages[..i], Extractor(resolve)), jobs);
  }

  /** `n` copies of one page. */
  function Repeat(p: ListingPage, n: nat): (r: seq<ListingPage>)
    ensures |r| == n
  {
    seq(n, _ => p)
  }

  /**
   * The pages the loop reads as written: every iteration starts with `page.goto(url)`, and
   * `url` is the search URL and is never reassigned, so the page the "next" click led to is
   * left again at once and the first page is read on every iteration. The loop still runs
   * `maxPages` times when the first page has a "next" control, and once when it has none.
   */
  function AsWrittenVisits(pages: seq<ListingPage>, maxPages: int): seq<ListingPage>
    requires |pages| >= 1
  {
    if maxPages <= 0 then [] else if |pages| == 1 then [pages[0]] else Repeat(pages[0], maxPages)
  }

  method PaginateAsWritten(pages: seq<ListingPage>, resolve: string -> Option<string>, maxPages: int)
    returns (all: seq<Job>, loads: nat)
    requires |pages| >= 1
    ensures all == Collect(JobsOf(AsWrittenVisits(pages, maxPages), Extractor(resolve)))
    ensures loads == |AsWrittenVisits(pages, maxPages)|
  {
    all := [];
    loads := 0;
    var i := 0;
    while i < maxPages
      invariant i == 0 || (i < maxPages && |pages| >= 2)
      invariant loads == i
      invariant all == Collect(JobsOf(Repeat(pages[0], i), Extractor(resolve)))
      decreases maxPages - i
    {
      var jobs := ExtractPageJobs(pages[0], resolve);
      AsWrittenStep(pages[0], i, resolve, all, jobs);
      all := MergeJobs(all, jobs);
      loads := loads + 1;
      if i == maxPages - 1 {
        break;
      }
      if |pages| < 2 {
        assert Repeat(pages[0], 1) == [pages[0]];
        break;
      }
      i := i + 1;
    }
  }

  lemma AsWrittenStep(p: ListingPage, i: nat, resolve: string -> Option<string>, all: seq<Job>, jobs: seq<Job>)
    requires all == Collect(JobsOf(Repeat(p, i), Extractor(resolve))) && jobs == PageJobs(p, resolve)
    ensures Merge(all, jobs) == Collect(JobsOf(Repeat(p, i + 1), Extractor(resolve)))
  {
    assert Repeat(p, i + 1)[..i] == Repeat(p, i);
    assert Repeat(p, i + 1)[i] == p;
    JobsOfSnoc(Repeat(p, i + 1), i, Extractor(resolve));
    assert Repeat(p, i + 1)[..i + 1] == Repeat(p, i + 1);
    CollectSnoc(JobsOf(Repeat(p, i), Extractor(resolve)), jobs);
  }

  /** As written, the result is the first page's jobs however many times the loop runs. */
  lemma MergeRepeated(p: ListingPage, n: nat, resolve: string -> Option<string>)
    requires n >= 1
    ensures Collect(JobsOf(Repeat(p, n), Extractor(resolve))) == PageJobs(p, resolve)
  {
    var jobs := PageJobs(p, resolve);
    RepeatedJobs(p, n, Extractor(resolve));
    PageJobsDistinct(p, resolve);
    CollectRepeated(jobs, n);
  }

  lemma RepeatedJobs(p: ListingPage, n: nat, extract: ListingPage -> seq<Job>)
    ensures JobsOf(Repeat(p, n), extract) == seq(n, _ => extract(p))
  {
    forall k | 0 <= k < n ensures JobsOf(Repeat(p, n), extract)[k] == extract(p) {
      JobsOfAt(Repeat(p, n), k, extract);
    }
  }

  /**
   * The pagination as written misses every job that only a later page lists: with two pages
   * and `maxPages` at least 2, such a job is collected when "next" is followed and is not
   * collected by the loop as written.
   */
  lemma AsWrittenMissesSecondPage(pages: seq<ListingPage>, resolve: string -> Option<string>, maxPages: int, l: string)
    requires |pages| >= 2 && maxPages >= 2
    requires l in Links(PageJobs(pages[1], resolve)) && l !in Links(PageJobs(pages[0], resolve))
    ensures l in Links(Collected(pages, resolve, maxPages))
    ensures l !in Links(Collect(JobsOf(AsWrittenVisits(pages, maxPages), Extractor(resolve))))
  {
    MergeRepeated(pages[0], maxPages, resolve);
    var read := Visits(pages, maxPages);
    JobsOfAt(read, 1, Extractor(resolve));
    CollectSpec(JobsOf(read, Extractor(resolve)));
  }

  // ---------------------------------------------------------------- enrichment

  /**
   * A job after its detail page was read: description and key facts are set; title, company,
   * location (from the place of work), workload and contract type are replaced only by
   * non-empty values.
   */
  function WithDetail(job: Job, d: Detail): Job {
    job.(
      description := Some(d.description),
      keyInfo := Some(d.keyInfo),
      title := if d.title != "" then d.title else job.title,
      company := if d.company != "" then d.company else job.company,
      location := if d.keyInfo.placeOfWork != "" then d.keyInfo.placeOfWork else job.location,
      workload := if d.keyInfo.workload != "" then d.keyInfo.workload else job.workload,
      contractType := if d.keyInfo.contractType != "" then d.keyInfo.contractType else job.contractType)
  }

  /** A job whose detail page failed: the listing fields stay, missing detail fields get defaults. */
  function WithFailure(job: Job): Job {
    job.(
      description := Some(if job.description.Some? then job.description.value else ""),
      keyInfo := Some(if job.keyInfo.Some? then job.keyInfo.value else EmptyKeyInfo))
  }

  /** A listing field after enrichment: the detail's value when non-empty, else the listing's. */
  predicate Overlays(after: string, before: string, detail: string) {
    (detail != "" ==> after == detail) && (detail == "" ==> after == before)
  }

  /**
   * What a successful detail read changes: the link and posted text never; a listing field only
   * to a non-empty detail value, so no field that had text loses it; and reading the same
   * details twice changes nothing more.
   */
  lemma WithDetailSpec(job: Job, d: Detail)
    ensures var r := WithDetail(job, d);
      && r.link == job.link && r.postedText == job.postedText
      && r.description == Some(d.description) && r.keyInfo == Some(d.keyInfo)
      && Overlays(r.title, job.title, d.title)
      && Overlays(r.company, job.company, d.company)
      && Overlays(r.location, job.location, d.keyInfo.placeOfWork)
      && Overlays(r.workload, job.workload, d.keyInfo.workload)
      && Overlays(r.contractType, job.contractType, d.keyInfo.contractType)
      && (job.title != "" ==> r.title != "") && (job.company != "" ==> r.company != "")
      && WithDetail(r, d) == r
  {
  }

  /**
   * A failure leaves every listing field alone and keeps any description and key facts already
   * there; it fills in "" and five empty facts where there were none, and a second failure
   * changes nothing.
   */
  lemma WithFailureSpec(job: Job)
    ensures var r := WithFailure(job);
      && r.title == job.title && r.company == job.company && r.location == job.location
      && r.workload == job.workload && r.contractType == job.contractType
      && r.postedText == job.postedText && r.link == job.link
      && (job.description.Some? ==> r.description == job.description)
      && (job.description.None? ==> r.description == Some(""))
      && (job.keyInfo.Some? ==> r.keyInfo == job.keyInfo)
      && (job.keyInfo.None? ==> r.keyInfo == Some(EmptyKeyInfo))
      && WithFailure(r) == r
  {
  }

  /**
   * What reading each link's detail page gives: `visit` gives the detail page at a link, or
   * `None` when going there or reading it fails, and `extract` reads a page (`DetailOf`).
   */
  function DetailsOf(visit: string -> Option<DetailPage>, extract: DetailPage -> Detail): string -> Option<Detail> {
    l => if visit(l).Some? then Some(extract(visit(l).value)) else None
  }

  /**
   * `extract` reads every page as `DetailOf` does, so with this requirement `extract` is
   * `DetailOf` under another name. The enrichment methods take it as a ghost parameter so
   * that their proofs meet the page evaluation only through this equation, one page at a
   * time, instead of unfolding all of `DetailOf` at every step of the loop.
   */
  ghost predicate Reads(extract: DetailPage -> Detail) {
    forall p {:trigger DetailOf(p)} :: extract(p) == DetailOf(p)
  }

  /** A job after enrichment, from the details read at its link. */
  function Enriched(job: Job, details: string -> Option<Detail>): Job {
    match details(job.link)
    case None => WithFailure(job)
    case Some(d) => WithDetail(job, d)
  }

  /** After enrichment a job always has its description and key facts, under the same link. */
  lemma EnrichedComplete(job: Job, details: string -> Option<Detail>)
    ensures var r := Enriched(job, details);
      r.description.Some? && r.keyInfo.Some? && r.link == job.link && r.postedText == job.postedText
  {
  }

  /**
   * The enrichment loop, which updates each collected job in place; `extract` is `DetailOf`
   * by `Reads`, and `ScrapeJobs` passes `DetailOf` itself.
   */
  method Enrich(jobs: array<Job>, visit: string -> Option<DetailPage>, ghost extract: DetailPage -> Detail)
    requires Reads(extract)
    modifies jobs
    ensures forall k :: 0 <= k < jobs.Length ==> jobs[k] == Enriched(old(jobs[k]), DetailsOf(visit, extract))
  {
    for idx := 0 to jobs.Length
      invariant forall k :: 0 <= k < idx ==> jobs[k] == Enriched(old(jobs[k]), DetailsOf(visit, extract))
      invariant forall k :: idx <= k < jobs.Length ==> jobs[k] == old(jobs[k])
    {
      var job := EnrichOne(jobs[idx], visit, extract);
      jobs[idx] := job;
    }
  }

  /** One job through the enrichment loop's body, field by field. */
  method EnrichOne(job0: Job, visit: string -> Option<DetailPage>, ghost extract: DetailPage -> Detail)
    returns (job: Job)
    requires Reads(extract)
    ensures job == Enriched(job0, DetailsOf(visit, extract))
  {
    var page := visit(job0.link);
    if page.None? {
      job := ApplyFailure(job0);
    } else {
      var detail := ExtractDetail(page.value);
      assert detail == extract(page.value);
      job := ApplyDetail(job0, detail);
    }
  }

  /** The failure branch of the enrichment loop: missing detail fields get their defaults. */
  method ApplyFailure(job0: Job) returns (job: Job)
    ensures job == WithFailure(job0)
  {
    job := job0;
    job := job.(description := if job.description.Some? then job.description else Some(""));
    job := job.(keyInfo := if job.keyInfo.Some? then job.keyInfo else Some(EmptyKeyInfo));
  }

  /** The success branch of the enrichment loop: the detail's fields overlay the listing's. */
  method ApplyDetail(job0: Job, detail: Detail) returns (job: Job)
    ensures job == WithDetail(job0, detail)
  {
    job := job0.(description := Some(detail.description), keyInfo := Some(detail.keyInfo));
    if detail.title != "" { job := job.(title := detail.title); }
    if detail.company != "" { job := job.(company := detail.company); }
    if detail.keyInfo.placeOfWork != "" { job := job.(location := detail.keyInfo.placeOfWork); }
    if detail.keyInfo.workload != "" { job := job.(workload := detail.keyInfo.workload); }
    if detail.keyInfo.contractType != "" { job := job.(contractType := detail.keyInfo.contractType); }
  }

  /** Every collected job, enriched. */
  function EnrichAll(jobs: seq<Job>, details: string -> Option<Detail>): (r: seq<Job>)
    ensures |r| == |jobs|
  {
    seq(|jobs|, k requires 0 <= k < |jobs| => Enriched(jobs[k], details))
  }

  /**
   * What `scrapeJobs` returns with the page loop corrected to follow "next" (see
   * `AsWrittenMissesSecondPage`): the collected jobs, each enriched.
   */
  function Scraped(pages: seq<ListingPage>, resolve: string -> Option<string>, maxPages: int,
                   visit: string -> Option<DetailPage>): seq<Job>
  {
    EnrichAll(Collected(pages, resolve, maxPages), DetailsOf(visit, DetailOf))
  }

  /** `scrapeJobs` with the corrected page loop `Paginate`, then the enrichment pass. */
  method ScrapeJobs(pages: seq<ListingPage>, resolve: string -> Option<string>, maxPages: int,
                    visit: string -> Option<DetailPage>) returns (result: seq<Job>)
    requires |pages| >= 1
    ensures result == Scraped(pages, resolve, maxPages, visit)
  {
    var all, loads := Paginate(pages, resolve, maxPages);
    var jobs := new Job[|all|](k requires 0 <= k < |all| => all[k]);
    Enrich(jobs, visit, DetailOf);
    result := jobs[..];
  }

  /**
   * Enrichment keeps the collected links in order: the enriched jobs have pairwise distinct
   * links when the collected ones do, and every one has its description and key facts.
   */
  lemma EnrichAllSpec(jobs: seq<Job>, details: string -> Option<Detail>)
    ensures var r := EnrichAll(jobs, details);
      && (forall k :: 0 <= k < |r| ==> r[k].link == jobs[k].link && r[k].description.Some? && r[k].keyInfo.Some?)
      && (LinksDistinct(jobs) ==> LinksDistinct(r))
  {
    var r := EnrichAll(jobs, details);
    forall k | 0 <= k < |r| ensures r[k].link == jobs[k].link && r[k].description.Some? && r[k].keyInfo.Some? {
      EnrichedComplete(jobs[k], details);
    }
  }

  /**
   * With the corrected page loop, the response's jobs have pairwise distinct links, the links
   * of the jobs collected from the pages read, and every one has its description and key facts.
   */
  lemma ScrapedSpec(pages: seq<ListingPage>, resolve: string -> Option<string>, maxPages: int,
                    visit: string -> Option<DetailPage>)
    ensures var r := Scraped(pages, resolve, maxPages, visit);
      && LinksDistinct(r)
      && (forall k :: 0 <= k < |r| ==> r[k].description.Some? && r[k].keyInfo.Some?)
      && (forall k :: 0 <= k < |r| ==> r[k].link == Collected(pages, resolve, maxPages)[k].link)
  {
    CollectSpec(JobsOf(Visits(pages, maxPages), Extractor(resolve)));
    EnrichAllSpec(Collected(pages, resolve, maxPages), DetailsOf(visit, DetailOf));
  }

  /** What `scrapeJobs` returns with the page loop as written. */
  function ScrapedAsWritten(pages: seq<ListingPage>, resolve: string -> Option<string>, maxPages: int,
                            visit: string -> Option<DetailPage>): seq<Job>
    requires |pages| >= 1
  {
    EnrichAll(Collect(JobsOf(AsWrittenVisits(pages, maxPages), Extractor(resolve))), DetailsOf(visit, DetailOf))
  }

  /**
   * As written, the response is the first page's jobs, each enriched, whatever the later pages
   * list; nothing when `maxPages` is not positive.
   */
  lemma ScrapedAsWrittenSpec(pages: seq<ListingPage>, resolve: string -> Option<string>, maxPages: int,
                             visit: string -> Option<DetailPage>)
    requires |pages| >= 1
    ensures ScrapedAsWritten(pages, resolve, maxPages, visit) ==
      if maxPages <= 0 then [] else EnrichAll(PageJobs(pages[0], resolve), DetailsOf(visit, DetailOf))
  {
    if maxPages > 0 {
      if |pages| == 1 {
        assert AsWrittenVisits(pages, maxPages) == Repeat(pages[0], 1);
        MergeRepeated(pages[0], 1, resolve);
      } else {
        MergeRepeated(pages[0], maxPages, resolve);
      }
    } else {
      assert JobsOf([], Extractor(resolve)) == [];
    }
  }

  // ---------------------------------------------------------------- the request

  /** The term searched for when the query gives none. */
  const DefaultTerm := "software engineer"

  /** `term`: the query value trimmed, or "software engineer" when that is blank. */
  function RequestTerm(query: Option<string>): string {
    var raw := Trim(if query.Some? then query.value else "");
    if |raw| > 0 then raw else DefaultTerm
  }

  /** The term is never blank: a blank query gets the default, any other its trimmed value. */
  lemma RequestTermSpec(query: Option<string>)
    ensures RequestTerm(query) != "" && Trimmed(RequestTerm(query))
    ensures query.Some? && Trim(query.value) != "" ==> RequestTerm(query) == Trim(query.value)
  {
    var raw := Trim(if query.Some? then query.value else "");
    assert RequestTerm(query) == if |raw| > 0 then raw else DefaultTerm;
    assert Trimmed(DefaultTerm) by {
      assert DefaultTerm[0] == 's' && DefaultTerm[|DefaultTerm| - 1] == 'r';
    }
  }

  /** Sending the term back as the query gives the same term. */
  lemma RequestTermIdempotent(query: Option<string>)
    ensures RequestTerm(Some(RequestTerm(query))) == RequestTerm(query)
  {
    var t := RequestTerm(query);
    RequestTermSpec(query);
    var raw := Trim(t);
    assert raw == t;
  }

  /**
   * `Number.parseInt(s, 10)`: leading whitespace skipped, one optional sign, then the longest
   * run of digits; `None` stands for NaN, when there is no digit.
   */
  function ParseInt(s: string): Option<int>
    decreases |s|
  {
    if s != [] && IsSpace(s[0]) then ParseInt(s[1..]) else ParseSigned(s)
  }

  /** `Number.parseInt` once the leading whitespace is gone. */
  function ParseSigned(t: string): Option<int> {
    var neg := t != [] && t[0] == '-';
    var u := if t != [] && (t[0] == '-' || t[0] == '+') then t[1..] else t;
    var n := Entities.LeadingDigits(u);
    if n == 0 then None
    else
      var v := Entities.DecimalValue(u[..n]);
      Some(if neg then 0 - v else v)
  }

  /** The decimal form of a natural number. */
  function Decimal(n: nat): (r: string)
    ensures r != [] && forall i :: 0 <= i < |r| ==> IsDigit(r[i])
  {
    if n < 10 then [('0' as int + n) as char] else Decimal(n / 10) + [('0' as int + n % 10) as char]
  }

  /** The decimal form has the number's value. */
  lemma {:induction false} DecimalDigits(n: nat)
    ensures Entities.DecimalValue(Decimal(n)) == n
  {
    if n >= 10 {
      DecimalDigits(n / 10);
      var d := Decimal(n);
      assert d[..|d| - 1] == Decimal(n / 10);
    }
  }

  /** A string that does not start with whitespace is parsed as it is. */
  lemma NoLeadingSpace(s: string)
    requires s != [] && !IsSpace(s[0])
    ensures ParseInt(s) == ParseSigned(s)
  {
  }

  /** A run of digits is parsed to its value. */
  lemma ParseDigits(d: string)
    requires d != [] && forall i :: 0 <= i < |d| ==> IsDigit(d[i])
    ensures ParseSigned(d) == Some(Entities.DecimalValue(d))
  {
    assert !(d[0] == '-' || d[0] == '+');
    assert Entities.LeadingDigits(d) == |d|;
    assert d[..|d|] == d;
  }

  /** Parsing a number's decimal form gives the number back. */
  lemma ParseIntDecimal(n: nat)
    ensures ParseInt(Decimal(n)) == Some(n)
  {
    var d := Decimal(n);
    DecimalDigits(n);
    ParseDigits(d);
    NoLeadingSpace(d);
  }

  /** A minus sign and a run of digits are parsed to the negated value. */
  lemma ParseNegDigits(d: string)
    requires d != [] && forall i :: 0 <= i < |d| ==> IsDigit(d[i])
    ensures ParseInt("-" + d) == Some(0 - Entities.DecimalValue(d))
  {
    var m := "-" + d;
    assert m[0] == '-' && m[1..] == d;
    assert Entities.LeadingDigits(d) == |d|;
    assert d[..|d|] == d;
    NoLeadingSpace(m);
  }

  /** Parsing a minus sign and a number's decimal form gives the negated number. */
  lemma ParseIntNegDecimal(n: nat)
    ensures ParseInt("-" + Decimal(n)) == Some(0 - n)
  {
    var d := Decimal(n);
    ParseNegDigits(d);
    var v := Entities.DecimalValue(d);
    DecimalDigits(n);
    assert v == n;
  }

  /** `DEFAULT_MAX_PAGES`: the `MAX_PAGES` environment value, "5" when unset or empty, parsed. */
  function DefaultMaxPages(env: Option<string>): Option<int> {
    ParseInt(if env.Some? && env.value != "" then env.value else "5")
  }

  /** `maxPages`: the query value parsed, or the default when that is NaN or 0. */
  function MaxPages(query: Option<string>, default: Option<int>): Option<int> {
    var n := ParseInt(if query.Some? then query.value else "");
    if n.Some? && n.value != 0 then n else default
  }

  /** How many times `i < maxPages` lets the page loop run: NaN compares false, as does any n <= 0. */
  function LoopBound(maxPages: Option<int>): int {
    if maxPages.Some? then maxPages.value else 0
  }

  /** `parseInt` skips exactly the whitespace `trim` would remove at the front. */
  lemma {:induction false} ParseIntSkipsSpace(s: string)
    ensures ParseInt(s) == ParseSigned(TrimStart(s))
    decreases |s|
  {
    if s != [] && IsSpace(s[0]) {
      ParseIntSkipsSpace(s[1..]);
    }
  }

  /**
   * `parseInt` gives NaN exactly when no digit follows the leading whitespace and the optional
   * sign; "" and "abc" are such texts.
   */
  lemma ParseIntNone(s: string)
    ensures var t := TrimStart(s);
      var u := if t != [] && (t[0] == '-' || t[0] == '+') then t[1..] else t;
      ParseInt(s).None? <==> u == [] || !IsDigit(u[0])
    ensures ParseInt("").None? && ParseInt("abc").None?
  {
    ParseIntSkipsSpace(s);
    var abc := "abc";
    assert !IsSpace(abc[0]) && !IsDigit(abc[0]);
  }

  /** With `MAX_PAGES` unset the default is 5 pages. */
  lemma DefaultMaxPagesUnset()
    ensures DefaultMaxPages(None) == Some(5)
  {
    var five := "5";
    assert five == Decimal(5);
    ParseIntDecimal(5);
  }

  /**
   * The defaults: a missing query, a text `parseInt` reads as NaN (see `ParseIntNone`) or as 0
   * gives the default; the decimal form of any other number, negative ones included, gives
   * that number.
   */
  lemma MaxPagesSpec(n: nat, s: string, default: Option<int>)
    ensures MaxPages(None, default) == default
    ensures ParseInt(s).None? ==> MaxPages(Some(s), default) == default
    ensures MaxPages(Some(Decimal(n)), default) == if n == 0 then default else Some(n)
    ensures MaxPages(Some("-" + Decimal(n)), default) == if n == 0 then default else Some(0 - n)
  {
    ParseIntDecimal(n);
    ParseIntNegDecimal(n);
    assert ParseInt("") == None;
  }

  /**
   * How many pages the loop may read: 5 with no query and `MAX_PAGES` unset; none when
   * `MAX_PAGES` is not a number and the query gives none either, since `i < NaN` is false.
   */
  lemma LoopBoundSpec(pages: seq<ListingPage>)
    ensures LoopBound(MaxPages(None, DefaultMaxPages(None))) == 5
    ensures |pages| >= 5 ==> |Visits(pages, LoopBound(MaxPages(None, DefaultMaxPages(None))))| == 5
    ensures DefaultMaxPages(Some("abc")) == None
    ensures Visits(pages, LoopBound(MaxPages(None, DefaultMaxPages(Some("abc"))))) == []
  {
    DefaultMaxPagesUnset();
    ParseIntNone("abc");
    assert ParseInt("") == None;
  }
}
