/**
 * The `InternshipScraper` class: the seven page loops of the `scrape_*`
 * methods, the source orchestration of `run_scraper` with its early exit,
 * and the post-scrape pipeline (deduplicate, truncate, categorize).
 */
module Scraper {
  import opened Text
  import opened Records
  import opened Classifier
  import opened Deduplication
  import opened Export

  /** The answer to one page request: its status code and, for a 200
      response, the cards the HTML extraction finds on it. */
  datatype Page = Page(status: int, cards: seq<Card>)

  /** The network as the scraper sees it: what requesting a site's page
      number returns. */
  type Fetch = (Site, int) -> Page

  /** Indeed and LinkedIn count pages from 0 (`range(num_pages)`), the other
      sites from 1 (`range(1, num_pages + 1)`). */
  function FirstPage(site: Site): int {
    if site == Indeed || site == LinkedIn then 0 else 1
  }

  /** The record an adapter appends for one card, if any. */
  function Accepted(candidate: Option<Internship>): seq<Internship> {
    match candidate
    case Some(r) => [r]
    case None => []
  }

  /** The records an adapter appends for the cards of one page, in card order. */
  function CardRecords(site: Site, cards: seq<Card>): seq<Internship>
    decreases |cards|
  {
    if cards == [] then []
    else
      var init, last := cards[..|cards| - 1], cards[|cards| - 1];
      CardRecords(site, init) + Accepted(BuildRecord(site, last))
  }

  /** A page that did not come back with status 200 contributes nothing. */
  function PageRecords(site: Site, page: Page): seq<Internship> {
    if page.status == 200 then CardRecords(site, page.cards) else []
  }

  /** The records of `count` consecutive pages starting at page number `first`. */
  function Harvest(site: Site, first: int, count: nat, fetch: Fetch): seq<Internship>
    decreases count
  {
    if count == 0 then []
    else Harvest(site, first, count - 1, fetch) + PageRecords(site, fetch(site, first + count - 1))
  }

  /** Everything `scrape_<site>(numPages)` appends. */
  function Scraped(site: Site, numPages: nat, fetch: Fetch): seq<Internship> {
    Harvest(site, FirstPage(site), numPages, fetch)
  }

  /** The sources in priority order with the page budget `run_scraper` gives each. */
  const Schedule: seq<(Site, nat)> := [
    (Indeed, 8), (LinkedIn, 8), (Chegg, 4), (WayUp, 4), (Lumiere, 3), (FindECs, 3), (InternshipFinder, 3)
  ]

  /** One guarded step: scrape the site only while the buffer holds fewer
      than `target` records. */
  function TopUpOnce(acc: seq<Internship>, site: Site, numPages: nat, target: int, fetch: Fetch): seq<Internship> {
    if |acc| < target then acc + Scraped(site, numPages, fetch) else acc
  }

  /** Run each source of `steps` in order while fewer than `target` records
      have been gathered; skip it otherwise. */
  function TopUp(acc: seq<Internship>, steps: seq<(Site, nat)>, target: int, fetch: Fetch): seq<Internship>
    decreases |steps|
  {
    if steps == [] then acc
    else
      TopUp(TopUpOnce(acc, steps[0].0, steps[0].1, target, fetch), steps[1..], target, fetch)
  }

  /** What the source phase of `run_scraper` leaves in the buffer: Indeed
      always runs, every later source only to top up. */
  function Collect(acc: seq<Internship>, target: int, fetch: Fetch): seq<Internship> {
    TopUp(acc + Scraped(Indeed, 8, fetch), Schedule[1..], target, fetch)
  }

  /** What every source of `steps` would append if none were skipped. */
  function AllScraped(steps: seq<(Site, nat)>, fetch: Fetch): seq<Internship>
    decreases |steps|
  {
    if steps == [] then [] else Scraped(steps[0].0, steps[0].1, fetch) + AllScraped(steps[1..], fetch)
  }

  /** The whole of `run_scraper`: collect, deduplicate, cut to `target`, categorize. */
  function Pipeline(acc: seq<Internship>, target: int, fetch: Fetch): seq<Internship> {
    Categorize(Truncate(Dedup(Collect(acc, target, fetch)), target))
  }

  /** What an adapter appends for one page: one record per accepted card at
      most, each stamped with the site's source name and no category, and,
      for a site that filters, with "intern" in its lowered title. */
  lemma {:induction false} CardRecordsSpec(site: Site, cards: seq<Card>)
    ensures |CardRecords(site, cards)| <= |cards|
    ensures forall i :: 0 <= i < |CardRecords(site, cards)| ==>
      CardRecords(site, cards)[i].source == SourceName(site) &&
      CardRecords(site, cards)[i].category == None &&
      (FiltersOnIntern(site) ==> Contains(Lower(CardRecords(site, cards)[i].title), "intern"))
    decreases |cards|
  {
    if cards != [] {
      var last := cards[|cards| - 1];
      CardRecordsSpec(site, cards[..|cards| - 1]);
      BuildRecordSpec(site, last);
      if BuildRecord(site, last).Some? && FiltersOnIntern(site) {
        AcceptedTitleContainsIntern(site, last);
      }
    }
  }

  /** One more card appends that card's record, if it has one. */
  lemma CardRecordsSnoc(site: Site, cards: seq<Card>, c: nat)
    requires c < |cards|
    ensures CardRecords(site, cards[..c + 1]) ==
      CardRecords(site, cards[..c]) + Accepted(BuildRecord(site, cards[c]))
  {
    assert cards[..c + 1][..c] == cards[..c];
  }

  lemma AppendAssoc<T>(a: seq<T>, b: seq<T>, c: seq<T>)
    ensures a + (b + c) == (a + b) + c
  {
  }

  /** One more page appends that page's records. */
  lemma HarvestStep(site: Site, first: int, n: nat, fetch: Fetch)
    ensures Harvest(site, first, n + 1, fetch) == Harvest(site, first, n, fetch) + PageRecords(site, fetch(site, first + n))
  {
  }

  /** Sources only append: the buffer before the orchestration is a prefix
      of the buffer after it. */
  lemma {:induction false} TopUpExtends(acc: seq<Internship>, steps: seq<(Site, nat)>, target: int, fetch: Fetch)
    ensures acc <= TopUp(acc, steps, target, fetch)
    decreases |steps|
  {
    if steps != [] {
      var next := TopUpOnce(acc, steps[0].0, steps[0].1, target, fetch);
      TopUpExtends(next, steps[1..], target, fetch);
    }
  }

  /** Early exit: once the buffer holds `target` records no further source runs. */
  lemma {:induction false} TopUpSaturated(acc: seq<Internship>, steps: seq<(Site, nat)>, target: int, fetch: Fetch)
    requires |acc| >= target
    ensures TopUp(acc, steps, target, fetch) == acc
    decreases |steps|
  {
    if steps != [] {
      TopUpSaturated(acc, steps[1..], target, fetch);
    }
  }

  /** A buffer still short of `target` at the end means every source ran. */
  lemma {:induction false} TopUpShort(acc: seq<Internship>, steps: seq<(Site, nat)>, target: int, fetch: Fetch)
    requires |TopUp(acc, steps, target, fetch)| < target
    ensures TopUp(acc, steps, target, fetch) == acc + AllScraped(steps, fetch)
    decreases |steps|
  {
    if steps != [] {
      var next := TopUpOnce(acc, steps[0].0, steps[0].1, target, fetch);
      TopUpExtends(next, steps[1..], target, fetch);
      assert |acc| < target;
      TopUpShort(next, steps[1..], target, fetch);
      assert AllScraped(steps, fetch) == Scraped(steps[0].0, steps[0].1, fetch) + AllScraped(steps[1..], fetch);
      AppendAssoc(acc, Scraped(steps[0].0, steps[0].1, fetch), AllScraped(steps[1..], fetch));
    } else {
      assert acc + [] == acc;
    }
  }

  /** The orchestration keeps what was already there and everything Indeed
      found, in front of whatever the later sources add. */
  lemma CollectStartsWithIndeed(acc: seq<Internship>, target: int, fetch: Fetch)
    ensures acc + Scraped(Indeed, 8, fetch) <= Collect(acc, target, fetch)
    ensures |acc + Scraped(Indeed, 8, fetch)| >= target ==> Collect(acc, target, fetch) == acc + Scraped(Indeed, 8, fetch)
  {
    TopUpExtends(acc + Scraped(Indeed, 8, fetch), Schedule[1..], target, fetch);
    if |acc + Scraped(Indeed, 8, fetch)| >= target {
      TopUpSaturated(acc + Scraped(Indeed, 8, fetch), Schedule[1..], target, fetch);
    }
  }

  /** The categorize step reads only title and description, so it commutes
      with the cut. */
  lemma CategorizeTruncate(s: seq<Internship>, n: int)
    ensures Categorize(Truncate(s, n)) == Truncate(Categorize(s), n)
  {
  }

  /** Cutting a list with distinct keys leaves distinct keys. */
  lemma TruncateDistinct(s: seq<Internship>, n: int)
    requires DistinctKeys(s)
    ensures DistinctKeys(Truncate(s, n))
  {
  }

  /** Categorizing keeps every key. */
  lemma CategorizeKeepsKeys(s: seq<Internship>)
    ensures forall i :: 0 <= i < |s| ==> Key(Categorize(s)[i]) == Key(s[i])
  {
  }

  /** The result of `run_scraper`: at most `target` records (exactly
      `min(target, distinct keys)` for a non-negative target), a prefix of
      the deduplicated buffer (up to categories), no two sharing a key, each
      with a valid category. */
  lemma PipelineSpec(acc: seq<Internship>, target: int, fetch: Fetch)
    ensures var collected := Collect(acc, target, fetch);
      var out := Pipeline(acc, target, fetch);
      && (target >= 0 ==> |out| == if target <= |KeySet(collected)| then target else |KeySet(collected)|)
      && out == Truncate(Categorize(Dedup(collected)), target)
      && out <= Categorize(Dedup(collected))
      && DistinctKeys(out)
      && forall i :: 0 <= i < |out| ==> out[i].category.Some? && IsCategoryName(out[i].category.value)
  {
    var collected := Collect(acc, target, fetch);
    var unique := Dedup(collected);
    DedupLength(collected);
    DedupDistinct(collected);
    TruncateSpec(unique, target);
    TruncateDistinct(unique, target);
    var cut := Truncate(unique, target);
    CategorizeFrame(cut);
    CategorizeKeepsKeys(cut);
    CategorizeTruncate(unique, target);
    TruncateSpec(Categorize(unique), target);
    var out := Pipeline(acc, target, fetch);
    assert forall i :: 0 <= i < |out| ==> Key(out[i]) == Key(cut[i]);
  }

  /** Stepping the schedule by one source. */
  lemma TopUpStep(acc: seq<Internship>, k: nat, target: int, fetch: Fetch)
    requires 1 <= k < |Schedule|
    ensures TopUp(acc, Schedule[k..], target, fetch) ==
      TopUp(TopUpOnce(acc, Schedule[k].0, Schedule[k].1, target, fetch), Schedule[k + 1..], target, fetch)
  {
    assert Schedule[k..][0] == Schedule[k];
    assert Schedule[k..][1..] == Schedule[k + 1..];
  }

  /** The six guarded calls after Indeed, written out, are the schedule. */
  lemma TopUpUnrolled(s0: seq<Internship>, s1: seq<Internship>, s2: seq<Internship>, s3: seq<Internship>,
                      s4: seq<Internship>, s5: seq<Internship>, s6: seq<Internship>, target: int, fetch: Fetch)
    requires s1 == TopUpOnce(s0, LinkedIn, 8, target, fetch)
    requires s2 == TopUpOnce(s1, Chegg, 4, target, fetch)
    requires s3 == TopUpOnce(s2, WayUp, 4, target, fetch)
    requires s4 == TopUpOnce(s3, Lumiere, 3, target, fetch)
    requires s5 == TopUpOnce(s4, FindECs, 3, target, fetch)
    requires s6 == TopUpOnce(s5, InternshipFinder, 3, target, fetch)
    ensures TopUp(s0, Schedule[1..], target, fetch) == s6
  {
    TopUpStep(s0, 1, target, fetch);
    TopUpStep(s1, 2, target, fetch);
    TopUpStep(s2, 3, target, fetch);
    TopUpStep(s3, 4, target, fetch);
    TopUpStep(s4, 5, target, fetch);
    TopUpStep(s5, 6, target, fetch);
    assert Schedule[7..] == [];
  }

  class InternshipScraper {
    /** The accumulation buffer, later the final list. */
    var internships: seq<Internship>

    constructor ()
      ensures internships == []
    {
      internships := [];
    }

    /** One `scrape_<site>(numPages)` call: request each page in turn and
        append what it yields. */
    method Scrape(site: Site, numPages: nat, fetch: Fetch)
      modifies this
      ensures internships == old(internships) + Scraped(site, numPages, fetch)
    {
      var first := FirstPage(site);
      for n := 0 to numPages
        invariant internships == old(internships) + Harvest(site, first, n, fetch)
      {
        var response := fetch(site, first + n);
        HarvestStep(site, first, n, fetch);
        ScrapePage(site, response);
        AppendAssoc(old(internships), Harvest(site, first, n, fetch), PageRecords(site, response));
      }
    }

    /** The body of the page loop: for a 200 response turn each card into a
        record and append the accepted ones; otherwise append nothing. */
    method ScrapePage(site: Site, response: Page)
      modifies this
      ensures internships == old(internships) + PageRecords(site, response)
    {
      if response.status == 200 {
        var cards := response.cards;
        for c := 0 to |cards|
          invariant internships == old(internships) + CardRecords(site, cards[..c])
        {
          CardRecordsSnoc(site, cards, c);
          var candidate := BuildRecord(site, cards[c]);
          AppendAssoc(old(internships), CardRecords(site, cards[..c]), Accepted(candidate));
          if candidate.Some? {
            internships := internships + [candidate.value];
          }
        }
        assert cards[..|cards|] == cards;
      }
    }

    /** `categorize_internships`: give each record, in place, the category
        of its lowered title and description. */
    method CategorizeInternships()
      modifies this
      ensures internships == Categorize(old(internships))
    {
      var i := 0;
      while i < |internships|
        invariant 0 <= i <= |internships| == |old(internships)|
        invariant forall j :: 0 <= j < i ==> internships[j] == Categorize(old(internships))[j]
        invariant forall j :: i <= j < |internships| ==> internships[j] == old(internships)[j]
      {
        var internship := internships[i];
        var text := Lower(internship.title + " " + internship.description);
        var category := FindCategory(text);
        internships := internships[i := internship.(category := Some(category))];
        i := i + 1;
      }
    }

    /** `run_scraper`: Indeed always, each later source only while the buffer
        holds fewer than `target` records; then deduplicate, cut and categorize. */
    method RunScraper(target: int, fetch: Fetch) returns (result: seq<Internship>)
      modifies this
      ensures internships == Pipeline(old(internships), target, fetch)
      ensures result == internships
    {
      CollectSources(target, fetch);
      var unique := RemoveDuplicates(internships);
      internships := Truncate(unique, target);
      CategorizeInternships();
      result := internships;
    }

    /** The source phase of `run_scraper`: Indeed, then each later source
        in turn while the buffer holds fewer than `target` records. */
    method CollectSources(target: int, fetch: Fetch)
      modifies this
      ensures internships == Collect(old(internships), target, fetch)
    {
      Scrape(Indeed, 8, fetch);
      ghost var s0 := internships;
      TopUpSource(LinkedIn, 8, target, fetch);
      ghost var s1 := internships;
      TopUpSource(Chegg, 4, target, fetch);
      ghost var s2 := internships;
      TopUpSource(WayUp, 4, target, fetch);
      ghost var s3 := internships;
      TopUpSource(Lumiere, 3, target, fetch);
      ghost var s4 := internships;
      TopUpSource(FindECs, 3, target, fetch);
      ghost var s5 := internships;
      TopUpSource(InternshipFinder, 3, target, fetch);
      TopUpUnrolled(s0, s1, s2, s3, s4, s5, internships, target, fetch);
    }

    /** One guarded step of `run_scraper`: scrape the site only while the
        buffer holds fewer than `target` records. */
    method TopUpSource(site: Site, numPages: nat, target: int, fetch: Fetch)
      modifies this
      ensures internships == TopUpOnce(old(internships), site, numPages, target, fetch)
    {
      if |internships| < target {
        Scrape(site, numPages, fetch);
      }
    }

    /** `save_categorized_csv` without the writing: one file per category
        present, in first-seen order, named after the category and the date,
        holding that category's records in their order. */
    method CategorizedFiles(date: string) returns (files: seq<(string, seq<Internship>)>)
      requires AllCategorized(internships)
      ensures |files| == |SeenCategories(internships)|
      ensures forall k :: 0 <= k < |files| ==>
        files[k] == (CategoryFileName(SeenCategories(internships)[k], date),
                     InCategory(internships, SeenCategories(internships)[k]))
    {
      var order, groups := GroupByCategory(internships);
      files := seq(|order|, k requires 0 <= k < |order| => (CategoryFileName(order[k], date), groups[order[k]]));
    }

    /** The counting loop of `print_by_category`. */
    method CategoryCounts() returns (order: seq<string>, counts: map<string, nat>)
      requires AllCategorized(internships)
      ensures order == SeenCategories(internships)
      ensures forall c :: c in counts <==> c in order
      ensures forall c :: c in counts ==> counts[c] == |InCategory(internships, c)|
    {
      order, counts := CountByCategory(internships);
    }
  }
}
