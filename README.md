# jobs-ch-scraper, modelled in Dafny

`jobs-ch-scraper` is a small HTTP service. It drives a headless browser over the jobs.ch vacancy
search and returns the jobs it finds. For each job it reads the detail page and adds the job's
description and key facts: publication date, workload, contract type, language and place of work.
This project models the service's text-processing and bookkeeping core, all of it in `server.js`.

- **The normaliser** (`entities.dfy`, `text.dfy`). It decodes HTML entities, including the
  numeric `&#NNN;` form, strips tags, collapses whitespace and trims, with JavaScript's `\s`
  and `trim` character set.
- **The card parser** (`card.dfy`). It splits a card's text into title, company, location,
  workload, contract type and posted text.
- **The listing pass** (`listing.dfy`). The vacancy-anchor pass has a seen-set, a metadata
  filter and a preference for a heading title. The weaker fallback pass runs over detail
  anchors only when the first pass finds nothing.
- **The page loop** (`scrape.dfy`). It merges each page's jobs into the collected list, first
  sighting wins. As written, the loop reloads the first search page on every iteration; the
  model has that loop (`PaginateAsWritten`, `ScrapedAsWritten`) and, separately, the corrected
  loop that follows "next" up to a bound (`Paginate`, `Scraped`, `ScrapeJobs`). See "## Findings".
- **The detail page** (`keyfacts.dfy`, `detail.dfy`, `description.dfy`). These cover the label
  normaliser and canonical key, the dt/dd map, the "Label: value" block scan, synonym lookup
  and the company filter. They also cover the heading walk that assembles the description, with
  its longest-paragraph fallback, and the sanitiser.
- **Enrichment** (`scrape.dfy`). The detail record is overlaid on the listed job. A failed
  detail page gives empty defaults.
- **The `/scrape` defaults** (`scrape.dfy`). These are the search term and the page count,
  including the `MAX_PAGES` environment default.

The browser is replaced by its inputs:
- a listing page is a sequence of anchors (href, inner HTML, heading HTML) plus its "next" page;
- a detail page is the texts the page script reads: h1, company-selector texts, dt/dd pairs,
  p/li/div block texts, h2/h3 headings with their following siblings, and p/li texts;
- URL resolution is a parameter `resolve`;
- going to a link and reading it is a parameter `visit`.

Stateful loops are methods proved against specification functions:
- `MergeJobs`, `Paginate`, `ExtractVacancyJobs`, `BuildDlMap`, `ScanPairs`,
  `CollectUntilNextHeading` and `ExtractDescription`;
- `Enrich`, which updates an `array<Job>` in place.

The properties are proved as lemmas about those functions.

## Model

| member | source | states |
|---|---|---|
| Text.Lower | server.js:50 | lower-casing keeps the length and maps every character by ASCII case folding |
| Text.TrimStart | server.js:32 | the result is a suffix of the input that does not start with whitespace, and everything removed before it is whitespace |
| Text.TrimEnd | server.js:32 | the result is a prefix of the input that does not end with whitespace, and everything removed after it is whitespace |
| Text.Trim | server.js:32 | the result has no whitespace at either end, is no longer than the input, and equals an already trimmed input |
| Text.LeadingSpace | server.js:32 | the count is the length of the input's leading whitespace run: all before it is whitespace, the character at it is not |
| Text.TrimSpec | server.js:32 | `trim` gives what `TrimStart` leaves minus a trailing run that is all whitespace |
| Text.LeadingSpaceTrimStart | server.js:32 | the leading whitespace run is exactly what `TrimStart` removes |
| Text.NonSpaceTrim | server.js:32 | trimming keeps every non-whitespace character, in order |
| Text.TrimTrimmed | server.js:38 | trimming a trimmed string changes nothing |
| Text.Collapse | server.js:32 | `replace(/\s+/g, ' ')` keeps every non-whitespace character in order, is no longer than its input, is empty only for empty input, and starts with a space exactly when the input starts with whitespace; what becomes of a run between words is `CollapseRun` |
| Text.CollapseRun | server.js:32 | a whitespace run between two words becomes exactly one space: `a + w + b` collapses to `a` collapsed, one space, and `b` collapsed |
| Text.CollapseIsSingleSpaced | server.js:32 | after collapsing, no whitespace other than single spaces remains and no two spaces are adjacent |
| Text.CollapseSingleSpaced | server.js:32 | collapsing already single-spaced text changes nothing (idempotence) |
| Text.TrimSingleSpaced | server.js:32 | trimming keeps single spacing |
| Text.SingleSpacedHasNoNewline | server.js:32 | collapsed text has no line break |
| Text.ReplaceAllHit | server.js:21 | a global literal replace rewrites an occurrence at the front and carries on after it |
| Text.ReplaceAllAbsent | server.js:21-27 | a global replace of a pattern whose first character is absent changes nothing |
| Text.NonSpaceReplaceSpace | server.js:576 | replacing a whitespace character (the no-break space) by a space keeps the non-whitespace characters |
| Text.IndexOf | server.js:37 | the index found holds the character and nothing before it does |
| Text.Split | server.js:37 | `split` gives at least one part, no part contains the separator, and joining the parts with it gives back the input |
| Text.SplitJoin | server.js:37 | splitting parts joined by a separator none of them contains gives back the parts |
| Text.NonBlank | server.js:38-39 | trimming and dropping blanks gives non-empty trimmed lines, no more than there were parts |
| Text.NonBlankMembers | server.js:38-39 | every part that is not blank after trimming is kept, trimmed, and every kept line is some part trimmed |
| Text.NonBlankConcat | server.js:38-39 | the filter works part by part: filtering a concatenation concatenates the filtered halves |
| Text.Letters | server.js:401 | `replace(/[^a-z]/g, '')` after lower-casing keeps only lower-case letters |
| Text.LettersTrim | server.js:396-401 | trimming does not change which letters a label has |
| Text.LettersCollapse | server.js:394-401 | collapsing whitespace does not change which letters a label has |
| Text.OnlyLowerLettersOfLower | server.js:397-401 | dropping non-letters after lower-casing equals lower-casing the letters |
| Text.LettersFixed | server.js:401 | a string of lower-case letters keeps all of them |
| Entities.LeadingDigits | server.js:28 | `\d+` matches exactly the maximal run of leading decimal digits |
| Entities.FromCharCode | server.js:28 | `String.fromCharCode` takes the code modulo 2^16 and gives that code unit outside the surrogate range |
| Entities.DecodeEntitiesNoAmpersand | server.js:18-29 | text without `&` decodes to itself |
| Entities.DecodeNumericNoAmpersand | server.js:28 | the numeric rule leaves text without `&` unchanged |
| Entities.DecodeCascades | server.js:21-23 | the replaces run in sequence, so `&amp;lt;` decodes all the way to `<` |
| Entities.DecodeAmpersand | server.js:22 | `A&amp;B` decodes to `A&B` |
| Entities.DecodeNumericExample | server.js:28 | `&#65;` decodes to `A` |
| Entities.StripHtmlShape | server.js:31-33 | stripped HTML is trimmed and single-spaced, with no line break |
| Entities.StripTagsOnlyShape | server.js:239-241 | the fallback pass's strip (no entity decoding) gives trimmed, single-spaced text |
| Entities.StripTagsNoTag | server.js:32 | text without `<` has no tag to remove |
| Entities.StripHtmlIdempotent | server.js:31-33 | stripping text that has no `<` and no `&` changes nothing |
| Card.CardLines | server.js:36-39 | every card line is non-empty and trimmed |
| Card.CardLinesSpec | server.js:36-39 | the card lines of pieces joined by line breaks are the non-blank pieces, trimmed, in order |
| Card.ParseCardText | server.js:35-78 | the parser's loops compute the card's fields as the field definitions give them |
| Card.FirstCompanyLine | server.js:43-56 | the company loop returns the first non-metadata line after the title |
| Card.LastPostedLine | server.js:68-75 | the backward loop returns the last line with a time word |
| Card.FirstNonMetaSpec | server.js:43-56 | the company is "" iff every later line is metadata; otherwise it is the first non-metadata line |
| Card.FindAfterSpec | server.js:58-62 | a label found nowhere gives ""; otherwise the first line starting with it, minus the label, trimmed |
| Card.LastTimeLineSpec | server.js:68-75 | the posted text is "" iff no line has a time word; otherwise it is the last such line |
| Card.SingleLineCard | server.js:36-41 | a card with no line break has one line, its trimmed text, unless that is blank |
| Card.StrippedCardHasNoCompany | server.js:206-218 | a card parsed from stripped HTML has one line, so its title is that line and its company is "" |
| Card.PluralNotRecognised | server.js:71 | "3 days ago" is not recognised as posted text, because `\bday\b` needs a whole word |
| Records.LinksIff | server.js:334 | a link is in the set of links iff some job has it |
| Records.LinksConcat | server.js:334-340 | the links of a concatenation are the union of the links |
| Records.FirstWith | server.js:334-340 | the job found for a link has that link |
| Records.FirstWithSome | server.js:334-340 | a job with a link is found iff the link is in the list |
| Records.FirstWithFirst | server.js:334-340 | the job found for a link is the first job with it; none is found iff no job has it |
| Listing.ResolveHref | server.js:198-200 | an empty href gives nothing; an href starting with "http" is used as is; any other href is resolved |
| Listing.VacancyUrl | server.js:198-201 | the vacancy pass keeps an anchor's resolved URL iff it contains "/vacanc", case ignored |
| Listing.DedupDistinct | server.js:202-203 | the jobs kept have distinct links, each an offered URL not already known |
| Listing.ParseVacancyAnchor | server.js:205-228 | one anchor's body gives the job the vacancy reading defines |
| Listing.ExtractVacancyJobs | server.js:193-233 | the anchor loop with its seen-set computes the vacancy jobs |
| Listing.ExtractFallbackJobs | server.js:238-264 | the fallback loop with its seen-set computes the fallback jobs |
| Listing.ExtractPageJobs | server.js:136-266 | the page's jobs are the vacancy jobs, or the fallback jobs when there are none; their links are distinct |
| Listing.PageJobsDistinct | server.js:196-264 | no link appears twice among one page's jobs |
| Listing.VacancyOfferShape | server.js:201-228 | a vacancy job links to its URL, which contains "/vacanc"; its description and key facts are unset |
| Listing.VacancyJobShape | server.js:220-228 | a vacancy job carries the anchor URL as its link and starts with no description or key facts |
| Listing.VacancyJobsShape | server.js:196-232 | every vacancy job links to a "/vacanc" URL and has no description or key facts |
| Listing.VacancyOffersLinkIsUrl | server.js:220-228 | every vacancy job's link is the URL it was claimed under |
| Listing.FallbackOffersLinkIsUrl | server.js:252-260 | every fallback job's link is the URL it was claimed under |
| Listing.FallbackOfferShape | server.js:252-260 | a fallback job has a title of at most 140 characters and empty company, location, workload, contract type and posted text |
| Listing.FallbackJobsShape | server.js:237-265 | every fallback job has a title of at most 140 characters and every other listing field empty |
| Listing.SecondOfferClaimed | server.js:202-208 | a URL is claimed even when its card is dropped, so a later anchor with the same URL yields nothing |
| Listing.FirstAnchorClaimsUrl | server.js:202-208 | two anchors with one URL, the first without metadata: the page yields no job |
| KeyFacts.NormLabelShape | server.js:392-398 | a normalised label is trimmed, single-spaced, without line breaks or upper-case ASCII |
| KeyFacts.CanonicalKey | server.js:400-402 | a canonical key consists of lower-case ASCII letters only |
| KeyFacts.CanonicalKeyIsNormalisedLetters | server.js:400-402 | the canonical key is the letters of the label, lower-cased |
| KeyFacts.CanonicalKeyIdempotent | server.js:392-402 | canonicalising a canonical key changes nothing, and neither does normalising it |
| KeyFacts.NormLabelColon | server.js:395 | normalising a label with a trailing colon gives the label without it |
| KeyFacts.DropTrailingColonSingleSpaced | server.js:395 | dropping the trailing colon keeps single spacing |
| KeyFacts.Lookup | server.js:445 | a key is found iff the map has it, and the value found is that entry's |
| KeyFacts.PutLookup | server.js:414-415 | after an assignment the key reads the new value and every other key reads as before |
| KeyFacts.PutKeys | server.js:414-415 | assigning to a new key adds it last; an existing key keeps its place |
| KeyFacts.PutDistinct | server.js:414-415 | assignment keeps the keys distinct |
| KeyFacts.LastWrite | server.js:405-438 | the last write to a key is one of the writes; no write means the key was never written |
| KeyFacts.ApplyLookup | server.js:405-417 | after a run of writes a key reads its last write, else what it read before |
| KeyFacts.ApplyKeepsOrder | server.js:405-417 | writing never reorders or removes existing keys |
| KeyFacts.BuiltMap | server.js:405-417 | a map built from writes reads each key's last write and has exactly the written keys |
| KeyFacts.BuildDlMap | server.js:405-417 | the dt/dd loop builds the map its writes define |
| KeyFacts.AddDt | server.js:407-416 | one dt writes its canonical and its plain label, if it has a label and a non-empty dd |
| KeyFacts.DlMapSpec | server.js:405-417 | the dt/dd map is well formed and reads each key's last write |
| KeyFacts.DlMapLastWins | server.js:414-415 | the last dt with a label wins under both its plain and its canonical key |
| KeyFacts.LastWriteSuffix | server.js:414-415 | later writes override earlier ones |
| KeyFacts.ScanPairs | server.js:420-438 | the block scan builds the map its writes define |
| KeyFacts.ScanBlock | server.js:425-435 | one block writes one canonical key per label that matches it |
| KeyFacts.LabelHitsStep | server.js:428-434 | one more label assigns its value under its canonical key exactly when its pattern matches |
| KeyFacts.PairValueGood | server.js:429-432 | a value read from "Label: value" is non-empty, trimmed and on one line |
| KeyFacts.PairValueRoundTrip | server.js:429-432 | reading "name: v" back under `name` gives `v` |
| KeyFacts.PairsSpec | server.js:420-438 | the scanned pairs are keyed by canonical labels, reading their last match |
| KeyFacts.LookupDistinct | server.js:445-452 | in a map with distinct keys, each entry's key reads its value |
| Details.MatchesAnyIff | server.js:443-446 | a key matches a synonym group iff it equals or contains one synonym's canonical key |
| Details.FirstMatchAt | server.js:441-447 | the lookup returns the value of the first key that matches |
| Details.FirstMatchNone | server.js:441-447 | the lookup finds nothing iff no key matches |
| Details.FirstMatchFrom | server.js:441-447 | a value found is the value of an entry whose key matches the synonyms |
| Details.BySynonymsPrefersDl | server.js:440-447 | a match in the dt/dd map wins over any scanned pair |
| Details.BySynonymsFallsBack | server.js:448-454 | with no dt/dd match, the first matching scanned pair is used |
| Details.BySynonymsEmpty | server.js:440-456 | the result is "" iff neither map matches; otherwise it is a non-empty trimmed value |
| Details.BySynonymsFrom | server.js:440-456 | a non-empty result is the value of a matching entry of the dt/dd map or of the scanned pairs |
| Details.HitsAny | server.js:443-446 | the inner synonym loop decides the match predicate |
| Details.FindByKeys | server.js:441-447 | the outer key loop returns the first match |
| Details.GetBySynonyms | server.js:440-456 | `getBySynonyms`'s loops compute the synonym lookup |
| Details.KeyAroundSynonymMatches | server.js:445 | a key containing a synonym's canonical key matches |
| Details.FirstCompanyAt | server.js:547-565 | the company is the first selector text that passes the filter |
| Details.FirstCompanyNone | server.js:547-565 | no company is found iff no selector text passes the filter |
| Details.FirstCompanyIsCompany | server.js:552-560 | a company found is non-empty, at most 160 characters and not a navigation label |
| Details.PickCompany | server.js:547-565 | the selector loop returns the filtered company, or "" |
| Details.PickCompanyOrLookUp | server.js:540-566 | with no selector company, the company synonyms give it |
| Details.CompanyShape | server.js:540-566 | the company is a filtered selector text, "", or a non-empty trimmed value of an entry matching the company synonyms |
| Details.Clean | server.js:576 | `clean` gives trimmed text; its spacing is `CleanShape` and `CleanRun` |
| Details.CleanShape | server.js:576 | `clean` gives single-spaced text |
| Details.CleanFixed | server.js:576 | trimmed single-spaced text is clean already |
| Details.CleanIdempotent | server.js:576 | cleaning twice is cleaning once |
| Details.CleanKeeps | server.js:576 | `clean` keeps every non-whitespace character, in order |
| Details.CleanRun | server.js:576 | between two clean texts, any whitespace run, no-break spaces included, cleans to exactly one space |
| Details.StripPrefix | server.js:577-578 | `stripPrefix` gives trimmed text; without the label it is the cleaned value, with it a suffix of the cleaned value after the label, the exact one given by `StripPrefixSpec` and `StripPrefixUnique` |
| Details.StripPrefixNoLabel | server.js:577-578 | a value that does not start with the label is only cleaned |
| Details.StripPrefixRoundTrip | server.js:577-578 | stripping the label from "label: v" gives back `v` |
| Details.StripPrefixSpec | server.js:577-578 | with the label present, the result is what is left after the label and the greedy `\s*:?\s*`: only whitespace and at most one colon are removed, the result does not start with whitespace, and it starts with a colon only if a colon was removed |
| Details.StripPrefixUnique | server.js:577-578 | any text left after the label and such a greedy separator is the result of `stripPrefix` |
| Details.StripPrefixSpacedColon | server.js:577-578 | the separator takes a space before the colon as well: `stripPrefix("Workload : 80%", "Workload")` is `"80%"` |
| Details.LabelTailSplit | server.js:578 | removing `\s*:?\s*` from the text after the label leaves exactly what the greedy separator leaves |
| Details.AfterSeparatorUnique | server.js:578 | a greedy `\s*:?\s*` match at the front of a text leaves only one possible remainder |
| Details.SanitizeField | server.js:580-596 | an empty fact stays empty; any other fact is its label stripped, and trimmed |
| Details.LookUpKeyInfo | server.js:529-535 | the five key facts are looked up by their synonym groups |
| Details.ExtractDetail | server.js:365-599 | the page script returns the record `DetailOf` defines |
| Details.DetailShape | server.js:538-596 | the record's title and every key fact are trimmed; the company is a filtered selector text, "", or a non-empty trimmed value matching the company synonyms in the page's dt/dd map or scanned pairs |
| Descriptions.Trims | server.js:523 | each element is the corresponding text trimmed |
| Descriptions.PickLongest | server.js:521-526 | the fallback loop picks the longest text of more than 20 words, the first among equals |
| Descriptions.LongestFrom | server.js:521-526 | the fallback is "" or one of the wordy texts |
| Descriptions.LongestMax | server.js:524 | no wordy text is longer than the fallback |
| Descriptions.LongestFirst | server.js:524 | among equally long wordy texts the first wins (`>` is strict) |
| Descriptions.ContainsAnyIff | server.js:484-510 | a heading is wanted iff it contains one of the twelve words, case ignored |
| Descriptions.CollectUntilNextHeading | server.js:486-505 | the sibling walk joins with line breaks the chunks collected up to the next heading |
| Descriptions.AddChunks | server.js:492-501 | a sibling contributes its non-blank p/li texts, or its own text when it has more than five words |
| Descriptions.ChunksStopAtHeading | server.js:490 | nothing after a heading sibling contributes to the section |
| Descriptions.ChunksShape | server.js:492-501 | every chunk is non-empty and trimmed |
| Descriptions.JoinParts | server.js:504-519 | the first part starts the join and no part is longer than it |
| Descriptions.Flatten | server.js:513-514 | each section's heading and body appear in order, two strings per section |
| Descriptions.FlattenConcat | server.js:513-514 | flattening a concatenation concatenates the flattened halves |
| Descriptions.ExtractDescription | server.js:480-527 | the description is the sections joined with blank lines, or the longest-paragraph fallback when there are none |
| Descriptions.FoundFrom | server.js:508-517 | every section comes from a heading that yields one |
| Descriptions.FoundNone | server.js:518 | there are no sections iff no heading yields one |
| Descriptions.DescriptionSpec | server.js:507-526 | no yielding heading gives the longest-paragraph fallback; otherwise the description is the first yielding heading's trimmed text, a blank line, its body, then the later sections in order, and is over 60 characters |
| Descriptions.DescriptionFirst | server.js:507-519 | with a first yielding heading, the description starts with that heading's section and goes on with the later ones |
| Scrape.MergeJobs | server.js:334-340 | the merge loop appends the page's jobs whose links are not yet known, as `Merge` defines it |
| Scrape.AppendedLinks | server.js:334-340 | the links appended are exactly the page's links not already known |
| Scrape.AppendedDistinct | server.js:336-338 | the appended jobs have distinct, previously unknown links and come from the page |
| Scrape.MergeSpec | server.js:334-340 | merging keeps the collected jobs as a prefix, keeps links distinct, takes the union of links, and appends only page jobs with new links |
| Scrape.MergeIdempotent | server.js:334-340 | merging the same page twice adds nothing the second time |
| Scrape.MergeFirstSeen | server.js:336 | the job kept for a link is its first sighting |
| Scrape.AppendedAllKnown | server.js:336 | a page whose links are all known adds nothing |
| Scrape.AppendedKeepsAll | server.js:336-338 | a page of distinct, unknown links is appended whole |
| Scrape.CollectSpec | server.js:318-351 | across pages the collected links are distinct, include every page's links, and come only from the pages |
| Scrape.CollectRepeated | server.js:318-340 | collecting the same distinct-link page n times gives that page once |
| Scrape.Visits | server.js:318-345 | the loop reads the first `min(maxPages, pages)` pages, none when `maxPages <= 0`, following "next" from the first page |
| Scrape.Paginate | server.js:316-351 | the page loop (corrected) collects the merged jobs of the pages it visits, at most `maxPages` loads |
| Scrape.PaginateAsWritten | server.js:316-351 | the page loop as written collects the jobs of the pages `goto(url)` reloads |
| Scrape.MergeRepeated | server.js:316-340 | merging one page's jobs any number of times gives them once |
| Scrape.AsWrittenMissesSecondPage | server.js:316-319 | a job only on the second page is collected by the corrected loop but not by the loop as written |
| Scrape.WithDetailSpec | server.js:601-608 | a detail record sets description and key facts, overrides each listing field only with a non-empty detail value, and applying it twice changes nothing |
| Scrape.WithFailureSpec | server.js:612-622 | on failure only missing description and key facts get defaults ("" and all-empty facts); applying it twice changes nothing |
| Scrape.EnrichedComplete | server.js:354-623 | every enriched job has a description and key facts and keeps its link |
| Scrape.Enrich | server.js:354-623 | the enrichment loop updates each job in place to its enriched value |
| Scrape.EnrichOne | server.js:355-622 | one iteration gives the job overlaid with its detail record, or the failure default |
| Scrape.EnrichAllSpec | server.js:354-623 | enrichment keeps each job's link and position and gives every job a description and key facts |
| Scrape.ScrapeJobs | server.js:301-628 | with the corrected page loop, `scrapeJobs` returns the collected jobs, each enriched |
| Scrape.ScrapedSpec | server.js:301-628 | with the corrected page loop, the result has distinct links, in collection order, each with a description and key facts |
| Scrape.ScrapedAsWrittenSpec | server.js:301-628 | as written, the result is empty when `maxPages <= 0` and otherwise the first page's jobs, each enriched |
| Scrape.RequestTermSpec | server.js:637-638 | the term is never empty and is trimmed; a non-blank query term is used trimmed |
| Scrape.RequestTermIdempotent | server.js:637-638 | feeding the chosen term back gives the same term |
| Scrape.Decimal | server.js:639 | the decimal rendering of a number is a non-empty string of digits |
| Scrape.DecimalDigits | server.js:639 | reading back a number's decimal rendering gives the number |
| Scrape.ParseDigits | server.js:639 | `parseInt` of a digit string is its decimal value |
| Scrape.ParseIntDecimal | server.js:639 | `parseInt` of a number's decimal rendering gives the number |
| Scrape.ParseIntNegDecimal | server.js:639 | `parseInt` of "-" and a rendering gives the negated number |
| Scrape.DefaultMaxPagesUnset | server.js:10 | with `MAX_PAGES` unset the default is 5 |
| Scrape.MaxPagesSpec | server.js:639 | a missing query value, one `parseInt` cannot read (NaN), or one that reads 0 gives the default; any other decimal value is used as it reads, a negative one included |
| Scrape.ParseIntSkipsSpace | server.js:639 | `parseInt` skips leading whitespace |
| Scrape.ParseIntNone | server.js:639 | `parseInt` gives NaN iff no digit follows the leading whitespace and optional sign; "" and "abc" give NaN |
| Scrape.LoopBoundSpec | server.js:10 | with `MAX_PAGES` unset the page loop (line 319) reads 5 pages; a non-numeric `MAX_PAGES` is NaN, so `i < maxPages` is false at once and no page is read |

## Left out

- The browser (Playwright), every wait, the scrolling, `maybeAcceptCookies`, `maybeExpandDescription` and `findNextPage`. These are I/O. A listing page's "next" page is part of the page value, and a detail page is the texts its script reads.
- Express, the JSON response, the `/healthz` route and the 500 error path. These are transport.
- `buildSearchUrl` and `new URL(href, location.origin)`. URL resolution is the parameter `resolve`; a resolution that throws is `None`, which the anchor loop's `catch` skips.
- `findValueByPrefix` (server.js:370-390) is defined but never called, so it is not modelled.
- `Array.from(...) || [document.body]` (server.js:422): an array is always truthy, so the `document.body` fallback never runs. The model scans only the blocks of `main`, `article` and `section`.
- Strings are sequences of Unicode scalar values, not UTF-16 code units. Lengths (`slice(0, 140)`, `length > 600`, `<= 160`, `length > 60`) count characters. `String.fromCharCode` of a lone surrogate gives U+FFFD.
- Case folding is ASCII-only, both for `/i` against the ASCII patterns and for `toLowerCase`.
- JavaScript objects are modelled as entry sequences in insertion order. `Object.keys` lists integer-like keys first, and a `__proto__` key is not an own key. Such a key has no letters, or is not a synonym's canonical key, so it cannot match a synonym group and the lookups are unaffected.
- The DOM reading (`innerText` against `textContent`, `nextElementSibling`, `querySelectorAll` order) is taken as given. The detail page lists dt/dd pairs, blocks, headings and their following siblings in document order.
- The heading walk stops at a sibling whose tag matches `/^H2|H3$/` as written: a tag starting with "H2" or ending with "H3". For real tag names this is exactly H2 or H3.
- Scrape.Enrich: an exception thrown after the field assignments (the 200 ms delay) would run the failure default on an already enriched job. That default leaves an enriched job unchanged (see `WithFailureSpec`), so the model does not separate the two.
- Scrape.Enrich: the job objects are updated in place in `allJobs`. The model replaces the array element, because no other reference to a job object exists.
- Entities.DecodeNumeric: JavaScript's `parseInt` returns a double, so `&#9007199254740993;` reads as 2^53 and more than about 309 digits read as Infinity, which `fromCharCode` turns into U+0000. The model reads the digits as an exact integer, so such entities decode to a different character.
- The `MAX_PAGES` environment variable is a parameter. `Number.parseInt` is modelled for decimal digits with an optional sign after leading whitespace. Precision loss above 2^53 is not modelled, and neither are array-valued query parameters (`?maxPages=1&maxPages=2`).
- The vacancy pass parses the card from stripped HTML, in which every line break has already become a space. The model keeps this, so such a card has one line and its company is always "" (`Card.StrippedCardHasNoCompany`). The detail page supplies the fields later.
- A card metadata line only has to contain its label (`includes`), not start with it. A relative time needs a whole time word, so "3 days ago" gives no posted text (`Card.PluralNotRecognised`).

## Findings

| source | as written | input that shows it | evidently intended | confidence | as-written member | corrected member |
|---|---|---|---|---|---|---|
| server.js:316-319 | `url` is never reassigned, so every iteration's `page.goto(url)` reloads the first search page, and clicking "next" is undone | a first page with a "next" page whose jobs differ from the first page's, and `maxPages >= 2` | each iteration reads the page reached by following "next" | not executed | Scrape.AsWrittenMissesSecondPage | Scrape.Paginate |
