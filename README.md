# Internship scraper pipeline, modelled in Dafny

`webScraper.py` defines one class, `InternshipScraper`. Its seven `scrape_*`
adapters fetch listing pages from seven sites:

- Indeed
- LinkedIn
- Chegg Internships
- WayUp
- Lumiere
- FindECs
- InternshipFinder

Each adapter turns every listing card into an internship record (title,
company, location, description, url, source) and appends the accepted ones
to the buffer `self.internships`.

`run_scraper(target_count)` works in four steps:

1. It always runs Indeed. It runs each later source only while the buffer
   holds fewer than `target_count` records.
2. It drops every record whose (title, company) pair was already seen.
3. It cuts the list to its first `target_count` records.
4. It gives each record a category. A keyword taxonomy of eight categories
   is scanned in order and the first match wins. A record nothing matches is
   "Other".

`save_categorized_csv` groups the records by category and names one file per
category. `print_by_category` counts them.

The model has six modules, one per file:

- `text.dfy` (`Text`): the string operations the code uses, restricted to
  ASCII. They are `str.lower()`, `str.strip()`, the substring test `in` and
  `str.replace`.
- `records.dfy` (`Records`): the record, the sites and what an adapter does
  with one card. That covers the title filter, the stripping, the defaults
  for missing elements, the link prefixes and the source name.
- `classifier.dfy` (`Classifier`): the taxonomy, exactly as declared, and
  first-match classification.
- `dedup.dfy` (`Deduplication`): first-occurrence-wins deduplication and
  the cut with Python slice semantics.
- `export.dfy` (`Export`): grouping in first-seen order, counting and the
  file name of each category.
- `scraper.dfy` (`Scraper`): the class `InternshipScraper`. Its field
  `internships` is changed by the page and card loops, the guarded source
  calls, the deduplication and the categorization. The specification
  functions describe what those methods compute.

The network is a parameter `fetch: (Site, int) -> Page`. A page is a status
code plus the cards the HTML extraction finds on it.

A card is one of two things:

- A `Card` holding the raw text of each element. A field is absent exactly
  when `find` found no such element. An element that is present but empty
  gives the empty text, not the default.
- `Malformed`, when extraction raises. The adapter then drops the card.

Some consequences of the code as written are proved as lemmas:

- **Every default description is classified Technology.** The Technology
  keyword "AI", once lowered, occurs inside "details" and inside
  "available". So every record with a default description is classified
  Technology, and so is every record from LinkedIn, WayUp and FindECs.
  (`Classifier.DefaultDescriptionIsTechnology`,
  `Classifier.SeeLinkSourcesAreTechnology`)
- **Nothing with "engineering" in it is filed under Engineering.**
  "engineering" is a Technology keyword, and Technology comes first.
  (`Classifier.EngineeringIsTechnology`)
- **Blank titles are accepted.** A title that is present but blank passes
  the sites without a title filter and becomes the empty title. The code
  does not guarantee a non-empty title. (`Records.BlankTitleAccepted`)
- **The "internship" test adds nothing.** In the LinkedIn and WayUp filters,
  whatever contains "internship" also contains "intern".
  (`Records.TitleAcceptedIff`)

## Model

| member | source | states |
|---|---|---|
| Text.Lower | webScraper.py:47 | lowering keeps the length and lowers each ASCII letter, leaving every other character alone |
| Text.Strip | webScraper.py:48 | the stripped text is the slice of the input left after removing leading and trailing whitespace: it starts and ends with a non-space, and is empty exactly when the input is all whitespace |
| Text.ContainsIgnoresStrip | webScraper.py:47-48 | for a pattern without whitespace, the filter's test on the raw title and the same test on the stripped title agree |
| Records.BuildRecordSpec | webScraper.py:40-62 | a card becomes a record exactly when it is well formed, has a title and passes the site's filter ("intern" in the lowered title for Indeed, LinkedIn, WayUp and Lumiere; none for the rest). The title is stripped and the source is the site's name. A missing company or location reads "Not specified" (Lumiere fixes "Lumiere Education" and "Various/Remote"). The description defaults to "No description available" or "See link for details" by site. A missing link reads "No link available" |
| Records.TitleAcceptedIff | webScraper.py:90 | every site's filter is either "intern" in the lowered raw title or no filter; the "internship" alternative never changes the outcome |
| Records.InternshipSubsumesIntern | webScraper.py:172 | any text containing "internship" contains "intern" |
| Records.AcceptedTitleContainsIntern | webScraper.py:211-212 | every record built by a filtering site has "intern" in its lowered, stripped title |
| Records.BlankTitleAccepted | webScraper.py:131-132 | a Chegg card with the title " " is accepted and gets the empty title |
| Classifier.FirstMatchSpec | webScraper.py:316-325 | with no entry matching, the category is "Other"; otherwise it is the name of the earliest entry that has a lowered keyword occurring in the lowered "title description" text |
| Classifier.FirstMatchSkips | webScraper.py:321-325 | every entry before the chosen one had no matching keyword |
| Classifier.ClassifyTotal | webScraper.py:17-26 | every record gets one of the eight taxonomy names or "Other" |
| Classifier.EngineeringIsTechnology | webScraper.py:18 | a record whose lowered text contains "engineering" is classified Technology |
| Classifier.EngineeringOnlyAsLastResort | webScraper.py:25 | a record classified Engineering matched none of the seven earlier categories and did match an Engineering keyword |
| Classifier.DefaultDescriptionIsTechnology | webScraper.py:18 | with the description "See link for details" or "No description available", any title is classified Technology |
| Classifier.SeeLinkSourcesAreTechnology | webScraper.py:100 | every record LinkedIn, WayUp or FindECs builds is classified Technology |
| Classifier.CategorizeFrame | webScraper.py:313-328 | categorizing keeps the length, the order and every other field, and gives each record a valid category |
| Classifier.CategorizeIdempotent | webScraper.py:316 | categorizing twice gives the same list as categorizing once |
| Classifier.FindCategory | webScraper.py:319-325 | the scan with early exit returns the first-match category |
| Deduplication.DedupSpec | webScraper.py:353-360 | the result is a subsequence of the input, no two of its records share a (title, company) key, every key of the input appears, and the kept records are exactly the first occurrences of the keys, in the order of their positions in the input |
| Deduplication.DedupOrder | webScraper.py:357-360 | first-seen order: there are ascending positions, one per kept record, each the first occurrence of its key and holding that record, and every first occurrence is among them |
| Deduplication.KeptIndicesSpec | webScraper.py:357-360 | the j-th kept record is the record at the j-th first-occurrence position of the input, in ascending order |
| Deduplication.DedupKeepsFirstAt | webScraper.py:358-360 | the j-th kept record is the first record of the input with its key |
| Deduplication.DedupOfDistinct | webScraper.py:353-360 | a list whose keys are already distinct is left unchanged |
| Deduplication.DedupIdempotent | webScraper.py:353-360 | deduplicating twice equals deduplicating once |
| Deduplication.DedupLength | webScraper.py:353-360 | the result has one record per distinct key of the input |
| Deduplication.RemoveDuplicates | webScraper.py:353-360 | the loop with its `seen` set computes the first-occurrence-wins deduplication |
| Deduplication.TruncateSpec | webScraper.py:362 | `[:n]` yields a prefix of length min(n, length) for n >= 0, and drops the last -n records for n < 0 |
| Export.InCategorySpec | webScraper.py:390-395 | a group holds exactly the records of its category, as a subsequence of the list in its order |
| Export.SeenCategoriesSpec | webScraper.py:390-395 | the group keys are distinct and are exactly the categories some record has |
| Export.SeenCategoriesOrder | webScraper.py:390-395 | the groups come in the order in which their categories are first seen |
| Export.GroupSizesSum | webScraper.py:390-395 | the group sizes add up to the number of records |
| Export.GroupByCategory | webScraper.py:389-395 | the grouping loop yields the first-seen category order and a map from exactly those categories to their groups |
| Export.CountByCategory | webScraper.py:425-431 | the counting loop yields the first-seen category order and a map from exactly those categories to their group sizes |
| Export.FileStemCharacters | webScraper.py:399 | a category's file-name part contains no space and no upper-case letter |
| Export.ArtsMediaStem | webScraper.py:399 | "Arts & Media" gives "arts_media" |
| Export.GovernmentLawStem | webScraper.py:399 | "Government & Law" gives "government_law" |
| Export.CategoryStem | webScraper.py:399 | each of the nine category names gives the file-name part listed in the table `TaxonomyStem` |
| Export.CategoryFileNamesDistinct | webScraper.py:398-399 | two different categories are written to two different files on the same date |
| Scraper.CardRecordsSpec | webScraper.py:40-62 | a page yields at most one record per card; each carries the site's source name and no category, and, for a filtering site, "intern" in its lowered title |
| Scraper.TopUpExtends | webScraper.py:334-350 | sources only append: the buffer before the orchestration is a prefix of the buffer after it |
| Scraper.TopUpSaturated | webScraper.py:334-350 | once the buffer holds `target_count` records, no later source runs |
| Scraper.TopUpShort | webScraper.py:334-350 | a buffer still short of `target_count` at the end means every source ran, in schedule order |
| Scraper.TopUpUnrolled | webScraper.py:334-350 | the six guarded calls (LinkedIn 8, Chegg 4, WayUp 4, Lumiere 3, FindECs 3, InternshipFinder 3) are the schedule |
| Scraper.CollectStartsWithIndeed | webScraper.py:332 | Indeed's records always come first after what was already there; if they reach the target, nothing else is added |
| Scraper.CategorizeTruncate | webScraper.py:362-365 | categorizing after the cut equals cutting after categorizing |
| Scraper.PipelineSpec | webScraper.py:352-367 | the result of `run_scraper` has min(target, distinct keys) records for a non-negative target, is a prefix of the categorized deduplicated buffer, has no repeated key, and gives every record a valid category |
| Scraper.InternshipScraper.constructor | webScraper.py:10-11 | the buffer starts empty |
| Scraper.InternshipScraper.Scrape | webScraper.py:28-311 | one adapter call appends the records of pages first .. first + numPages - 1 in page order (pages count from 0 for Indeed and LinkedIn, from 1 for the others) |
| Scraper.InternshipScraper.ScrapePage | webScraper.py:36-66 | a 200 response appends the accepted cards' records in card order; any other status appends nothing |
| Scraper.InternshipScraper.TopUpSource | webScraper.py:334-335 | a guarded call scrapes only while the buffer is below `target_count` |
| Scraper.InternshipScraper.CollectSources | webScraper.py:332-350 | the source phase leaves the buffer the schedule describes |
| Scraper.InternshipScraper.CategorizeInternships | webScraper.py:313-328 | the in-place loop sets every record's category to its first-match category and changes nothing else |
| Scraper.InternshipScraper.RunScraper | webScraper.py:330-367 | the buffer becomes, and the method returns, the categorized cut of the deduplicated collected records |
| Scraper.InternshipScraper.CategorizedFiles | webScraper.py:385-399 | one (file name, records) pair per category present, in first-seen order, each holding exactly that category's records in order |
| Scraper.InternshipScraper.CategoryCounts | webScraper.py:423-431 | the per-category counts, keyed by exactly the categories present |

## Left out

- HTTP: `requests.get`, the URLs and the headers are not modelled. A
  response is the value `fetch` returns for a (site, page number) pair.
  An exception raised by `requests.get` is not caught by the code, and the
  model has no such path.
- HTML extraction: BeautifulSoup's `find_all` and `find` with CSS classes
  and regular expressions are not modelled. Their result is the `Card`
  value, with `Malformed` standing for a card whose extraction raises.
- Delays: the `time.sleep(random.uniform(...))` pauses are timing only.
- Console output: every `print`, `print_internships`, the descending sort
  used only for printing in `print_by_category`, and the preview in
  `__main__` are output only.
- Files: `save_to_csv` and the writing in `save_categorized_csv` (`open`,
  `csv.DictWriter`) are not modelled. The date from `datetime.now()` is a
  parameter.
- Text.Lower: ASCII only. Python lowers every Unicode letter.
- Text.Strip: removes the ASCII whitespace only. Python also strips the
  other Unicode whitespace characters.
- Text.Replace: does not model an empty pattern. The code never uses one.
- Scraper.InternshipScraper.Scrape: the default `num_pages` values (10 and
  5) are not modelled. `run_scraper` always passes its own counts.
- Scraper.InternshipScraper.RunScraper: the default `target_count=100` is
  not modelled. The target is always an explicit argument.
- Errors outside the per-card `try` are not modelled. An exception from
  `BeautifulSoup(...)` or `find_all` on a page escapes `run_scraper`, and
  the model has no such path.
- Export.GroupByCategory, Export.CountByCategory,
  Scraper.InternshipScraper.CategorizedFiles and
  Scraper.InternshipScraper.CategoryCounts require every record to have a
  category. For a record without one, `internship['category']` raises
  `KeyError` in `save_categorized_csv` and `print_by_category`, and the
  model does not describe that error.
- Records are values, not shared dictionaries. `categorize_internships`
  updates the same dict objects the deduplication kept, and each of them
  occurs once in the list. So updating a sequence element is equivalent.
