# Puzzle Pirates flag scraper, modelled in Dafny

The scraper builds the data set of one Puzzle Pirates flag in six stages:

1. **crews** reads the flag page, finds the crews table by its header words
   (or falls back to the eleventh table), skips its first row and keeps every
   row with four cells and a linked first cell.
2. **crew details** fetches each crew page and reads the crew name, the
   public statement and the captain.
3. **pirate URLs** walks each crew page up to the "jobbing pirates" marker
   and collects the pirate profile links, made absolute and without a
   fragment, each link kept once.
4. **pirates** reads each profile: the name (with a title fallback), the
   crew and flag roles from the left-column panel (the last matching row
   wins), and the 22 skills.
5. **shoppes** reads each profile's left column: one record per
   "Name on Location" pair of every shop row, then one record per stall icon.
6. **finalize** derives the royals table and stamps every non-empty data
   set with one shared timestamp. The royals are the pirates whose cleaned
   flag title is one of six, restricted to six columns, sorted by title rank
   and name, and de-duplicated by URL (or by name).

The four per-key stages share one runner, `Stages.Run`. It reads the key
column, drops missing cells, strips the rest, drops empties and keeps first
occurrences. Then it fetches and parses each key in order, and records the
key's rows or one failure row before going on. A missing key column aborts
the stage.

The model is pure. Pages are datatypes that hold exactly what the code reads
from the parsed HTML. The HTTP client is a function argument `fetch` that
returns either a response (status and page) or the exception it raised. The
clock reading is the `stamp` argument of `Finalize.RunFinalize`. A data
frame is a `Tables.Table`: a column list and rows that map columns to
strings.

Modules:
- `base.dfy` (Option, Result).
- `text.dfy`: ASCII `strip`/`lower`/`title`/`split`/`join`, and the `\s+`
  collapse of `_clean`.
- `seqs.dfy`: first match, filter-map, de-duplication by key.
- `sorting.dfy`: insertion sort over a total preorder.
- `html.dfy`: the stripped text nodes of an element and `get_text` with a
  separator.
- `tables.dfy`.
- `stages.dfy`.
- One file per stage: `crews.dfy`, `crew_details.dfy`, `pirate_urls.dfy`,
  `pirates.dfy`, `shoppes.dfy`, `finalize.dfy`.

Behaviour of the code that the model keeps, and that reads oddly:
- `parse_skills("5")` is `"5 / "`, with a trailing space.
- In "A on B, C on D" the second shop name is `", C"`. The pairs pattern's
  lookahead leaves the comma to the next match, and `_clean` does not remove
  it.
- The "Error" location substitute in `_extract_name_loc_pairs` never
  applies, because a location group never cleans to "".
- The shoppes stage takes the crew link of the FIRST row mentioning the crew.
  The pirates stage takes the LAST matching row.
- A site-relative crew URL is prefixed only when it starts with "/".

## Model

| member | source | states |
|---|---|---|
| Stages.Attempt | scraper/pirates.py:37-40 | an exception from the client is a failure of that exception's type; a status other than 200 is a `ValueError` "HTTP Error: <status>"; only a 200 response reaches the parser |
| Stages.KeyOf | scraper/pirates.py:107-113 | a cell yields a key exactly when it is present and not all whitespace, and the key is stripped and non-empty |
| Stages.StrippedValues | scraper/pirates.py:108-112 | one stripped value per present, non-blank cell, in column order, and none for any other cell |
| Stages.PrepareKeys | scraper/pirates.py:107-113 | the keys are the first occurrences of the stripped non-blank cells, in column order: the j-th key is the value at the j-th position whose value did not occur earlier |
| Stages.PrepareKeysMembers | scraper/pirates.py:107-113 | the keys are exactly the stripped non-blank cells of the column, each once, none blank or padded |
| Stages.StrippedValuesComplete | scraper/pirates.py:108-112 | every present, non-blank cell contributes its stripped value |
| Stages.StrippedValuesSound | scraper/pirates.py:108-112 | every value kept comes from a present, non-blank cell |
| Stages.Run | scraper/pirates.py:120-133 | every key is counted once, as a success or as a failure |
| Stages.RunRecords | scraper/pirates.py:120-133 | a failure row exists exactly for each key whose attempt failed, with its type and message; every row comes from a key that succeeded |
| Stages.RunRowsHold | scraper/pirates.py:120-124 | a property of the rows of every successful attempt holds of all the rows the loop collects |
| Stages.RunAppend | scraper/pirates.py:120-133 | the loop over two key lists in a row is the two loops' outputs concatenated: keys are handled in order and independently |
| Stages.RunOneRowEach | scraper/pirates.py:120-124 | when each success yields one row, rows plus failures equal the keys |
| Stages.RunKeyedStage | scraper/pirates.py:103-113 | a missing key column aborts with the stage's message, and only then; otherwise every prepared key is accounted for |
| Stages.FailureTable | scraper/pirates.py:137 | the failures table has the key, "Error Type" and "Message" columns and one row per failure, in order |
| Pirates.SkillColumns | scraper/pirates.py:135 | the skill columns are the skill names in order |
| Pirates.ParseSkills | scraper/pirates.py:26-30 | the result is "" or holds the " / " separator |
| Pirates.ParseSkillsFields | scraper/pirates.py:26-30 | for `a/b/...` the result is "" when both fields are blank, else "<a stripped> / <b stripped>"; later fields are ignored |
| Pirates.ParseSkillsSingle | scraper/pirates.py:26-30 | a string without "/" gives "<stripped> / ", or "" when blank |
| Pirates.ParseSkillsFormatted | scraper/pirates.py:26-30 | a formatted "<experience> / <standing>" parses back to itself |
| Pirates.ParseSkillsIdempotent | scraper/pirates.py:26-30 | parsing an already parsed value changes nothing |
| Pirates.ParseSkillsExampleSingle | scraper/pirates.py:30 | "5" gives "5 / " |
| Pirates.ParseSkillsExampleBlank | scraper/pirates.py:30 | " / " gives "" |
| Pirates.SkillMapOver | scraper/pirates.py:78-89 | the skills dictionary has exactly the vocabulary's keys whatever the icons |
| Pirates.SkillMap | scraper/pirates.py:16-20 | the skills dictionary has exactly the 22 skills as keys |
| Pirates.SkillMapUnwritten | scraper/pirates.py:78 | a skill no icon writes stays "" |
| Pirates.SkillMapLastWriter | scraper/pirates.py:79-89 | a skill holds the parsed value cell of the last icon whose stripped alt names it |
| Pirates.SkillMapIgnores | scraper/pirates.py:80-81 | an icon whose alt is not a skill changes nothing |
| Pirates.Search | scraper/pirates.py:22-23 | the search finds the leftmost match at or after the start, and none when there is none |
| Pirates.MatchedWordIsWhole | scraper/pirates.py:22-23 | the `\w+` group of the leftmost match starts at a word boundary |
| Pirates.MatchImpliesGuard | scraper/pirates.py:63-64 | a row the role pattern matches also passes the lower-case substring guard |
| Pirates.NoGuardNoMatch | scraper/pirates.py:63-64 | a row failing the guard never matches the pattern |
| Pirates.RowRole | scraper/pirates.py:63-66 | a row yields a rank exactly when the pattern matches somewhere, and the rank is a non-empty word |
| Pirates.RowRoleAt | scraper/pirates.py:63-66 | when the leftmost match starts at p, the rank is exactly the whole word at p (`m.group(1)` of the first match) |
| Pirates.RowRoleValue | scraper/pirates.py:63-66 | any rank a row yields is the word of the leftmost match |
| Pirates.RowRoleOfWord | scraper/pirates.py:63-66 | a line "<word> <phrase> <rest>", after non-word characters only, yields exactly that word |
| Pirates.RowRoleCaptainExample | scraper/pirates.py:63-66 | "Captain of the crew Foo" gives the crew rank "Captain" |
| Pirates.SafeText | scraper/pirates.py:33-34 | a link's text nodes stripped and joined with no separator; "" when the row has no link |
| Pirates.LastRoleNone | scraper/pirates.py:53-75 | with no matching row the rank and name stay "" |
| Pirates.LastRoleLastMatch | scraper/pirates.py:60-75 | the last matching row decides the rank, and the name is its link text (nodes joined with no separator) or "" |
| Pirates.ProfileName | scraper/pirates.py:44-51 | the `font size=+1` text when non-empty, else the title's text, else "" |
| Pirates.ScrapePirate | scraper/pirates.py:91-99 | the record carries the requested URL and all 22 skills |
| Pirates.ScrapePirateNoPanel | scraper/pirates.py:56-59 | a page without a left column or its tables has empty crew and flag roles |
| Pirates.PirateRowIdentity | scraper/pirates.py:91-97 | the row's URL, name, ranks and names are the record's |
| Pirates.PirateRowSkill | scraper/pirates.py:98 | every skill's cell is the record's skill value |
| Pirates.PirateRowColumns | scraper/pirates.py:135-136 | a row has exactly the table's columns |
| Pirates.RunPirates | scraper/pirates.py:103-105 | a missing "Pirate URL" column aborts the stage, and only that |
| Pirates.RunPiratesAccounting | scraper/pirates.py:107-133 | each prepared URL gives one pirate row or one failure; rows carry prepared URLs and all skills |
| Pirates.PirateAttemptRows | scraper/pirates.py:120-124 | a successful attempt on a URL gives exactly one row, for that URL, with every skill |
| Pirates.PiratesTable | scraper/pirates.py:135-136 | the pirates table has the six base columns then the skills, one row per record |
| Pirates.PirateRowsColumns | scraper/pirates.py:135-136 | every record's row fills every column of the table |
| Shoppes.Humanize | scraper/shoppes.py:39-41 | the empty slug gives "" |
| Shoppes.HumanizeNoHyphen | scraper/shoppes.py:39-44 | no hyphen survives humanising |
| Shoppes.HumanizeWord | scraper/shoppes.py:39-44 | a lower-case one-word slug other than "ironmonger…" is capitalised and otherwise kept |
| Shoppes.TitleWord | scraper/shoppes.py:42 | title-casing a lower-case word raises only its first letter |
| Shoppes.CapitalNotIronmonger | scraper/shoppes.py:43 | a capitalised word that did not start with "ironmonger" does not start with "Ironmonger" |
| Shoppes.ShopLabelCanon | scraper/shoppes.py:17-27 | a canonical slug gets its fixed label, any other its humanised form |
| Shoppes.IconSearch | scraper/shoppes.py:30 | the icon pattern is found at its leftmost position, or nowhere |
| Shoppes.ParseIconSrc | scraper/shoppes.py:46-58 | the result is absent (the source's ("", "")) exactly when the pattern matches nowhere |
| Shoppes.IconSrcRoundTrip | scraper/shoppes.py:29-30 | decoding the owned or managed icon path of a slug gives the slug's label and that role |
| Shoppes.IconSrcManaged | scraper/shoppes.py:30 | a "shop-managed-<slug>" path matches with the managed mark and that slug |
| Shoppes.IconSrcOwned | scraper/shoppes.py:30 | a "shop-<slug>" path matches without the managed mark |
| Shoppes.ParseIconSrcEmpty | scraper/shoppes.py:51-53 | an empty src is not a shop icon |
| Shoppes.StripOwnsPrefix | scraper/shoppes.py:62 | dropping the "Owns:"/"Manages:" prefix leaves a suffix of the text; which suffix is pinned by the two lemmas below |
| Shoppes.StripOwnsPrefixRemoves | scraper/shoppes.py:62 | "Owns:" or "Manages:" in any letter case, then any whitespace, is removed and exactly the rest is kept |
| Shoppes.StripOwnsPrefixKeeps | scraper/shoppes.py:62 | a text that starts with neither prefix, in any letter case, is returned unchanged |
| Shoppes.PairSepFrom | scraper/shoppes.py:33 | the lazy name group ends at the first " on " followed by a non-comma |
| Shoppes.PairsShape | scraper/shoppes.py:33 | on single-spaced text every pair has a non-empty name and a non-empty, comma-free location, and each later name starts with a comma |
| Shoppes.PairNameLocation | scraper/shoppes.py:64-69 | the name group is already clean, and the location group cleans to a non-empty string, so "Error" is never substituted |
| Shoppes.ExtractPairsShape | scraper/shoppes.py:60-70 | the extracted pairs are shaped as above for any text |
| Shoppes.ExtractPairsExample | scraper/shoppes.py:60-70 | "a on b, c on d" gives ("a", "b") and (", c", "d") |
| Shoppes.StallSepFrom | scraper/shoppes.py:125 | the stall name ends at the first " on " after its first character |
| Shoppes.ParseStallTitle | scraper/shoppes.py:122-131 | the location is never empty; the result is ("", "Error") exactly when the cleaned title has no separator |
| Shoppes.StallGroups | scraper/shoppes.py:125-128 | both groups of a matched title clean to non-empty strings |
| Shoppes.StallTitleRoundTrip | scraper/shoppes.py:122-131 | a clean name without " on " and a clean location, written "name on location", parse back to that pair |
| Shoppes.ShopIcon | scraper/shoppes.py:85-91 | a shop icon always has a non-empty shop type |
| Shoppes.ShopIconDecodes | scraper/shoppes.py:85-91 | an image is a shop icon exactly when its src (or "" without one) decodes to a non-empty shop type, and it then carries that decoding's type and role |
| Shoppes.RowPairs | scraper/shoppes.py:94-98 | the pairs of the cleaned text, or the single pair ("", "Error") when there are none; every location is non-empty |
| Shoppes.ShoppeRowsOf | scraper/shoppes.py:80-109 | a row gives records exactly when it has two cells and a shop icon first; each is a shoppe of that pirate and crew with a location |
| Shoppes.PairRecords | scraper/shoppes.py:100-109 | one record per pair, in order, with the pair's name and location |
| Shoppes.ShoppeRowNoPairs | scraper/shoppes.py:96-98 | a shop row whose text has no pair gives the single record ("", "Error") |
| Shoppes.ShoppeRowPairs | scraper/shoppes.py:96-109 | a shop row with pairs gives one record per pair, in order |
| Shoppes.ShoppeRows | scraper/shoppes.py:80-109 | every shoppe record names the pirate and crew, has a shop type and a location |
| Shoppes.ShoppeRowsAppend | scraper/shoppes.py:80-109 | the records of two runs of rows are those of the first run followed by those of the second |
| Shoppes.ShoppeRowsSingle | scraper/shoppes.py:80-109 | one row alone gives exactly that row's records |
| Shoppes.StallRecords | scraper/shoppes.py:117-141 | an icon gives at most one record, a stall of that pirate and crew with a shop type and a location |
| Shoppes.StallRows | scraper/shoppes.py:117-141 | at most one stall per icon, each with the pirate, crew, a shop type and a location |
| Shoppes.StallRowsAppend | scraper/shoppes.py:117-141 | the records of two runs of icons are those of the first run followed by those of the second |
| Shoppes.StallRowsSingle | scraper/shoppes.py:117-141 | an icon that is not a shop icon gives nothing; a shop icon gives one stall with its type and role and the name and location parsed from its title |
| Shoppes.StallRowNoSeparator | scraper/shoppes.py:122-131 | a shop icon whose cleaned title has no " on " separator gives one stall with name "" and location "Error" |
| Shoppes.StallsBlock | scraper/shoppes.py:112-116 | the paragraph after the first "Stalls" heading, and none without a heading |
| Shoppes.ExtractShopRows | scraper/shoppes.py:73-143 | no left column gives no rows; every row has the pirate, crew, type and location; the output is the rows loop's records followed by the stall loop's records over the first Stalls paragraph, or the rows loop's alone without one |
| Shoppes.CrewLinkText | scraper/shoppes.py:164-166 | the crew link's text nodes stripped and joined with a space; "" when the row has no link |
| Shoppes.FirstCrewLink | scraper/shoppes.py:156-167 | the link text (nodes joined with a space) of the first row mentioning "of the crew", or "" |
| Shoppes.ScrapeShops | scraper/shoppes.py:146-169 | every record carries the page's name, a shop type and the crew name of the first crew row; the records of the left column's rows come first; no left column gives none |
| Shoppes.RunShops | scraper/shoppes.py:172-175 | a missing "Pirate URL" column aborts the stage, and only that |
| Shoppes.RunShopsAccounting | scraper/shoppes.py:177-203 | every prepared URL is a success or one failure; every shop row has a type |
| Shoppes.ShopAttemptRows | scraper/shoppes.py:177-203 | a successful attempt gives only records with a shop type |
| Shoppes.ShopRowWords | scraper/shoppes.py:100-109 | the size cell is "Shoppe" or "Stall" and the role cell "Owns" or "Manages" |
| Shoppes.ShopsTable | scraper/shoppes.py:205-206 | the shoppes table has the seven columns and one row per record |
| PirateUrls.ProfileHrefIsPirateLink | scraper/stages/pirate_urls.py:23-24 | a profile link with a target is a pirate link |
| PirateUrls.NotPirateLinkWithoutMark | scraper/stages/pirate_urls.py:23-24 | an href without the profile path is not one |
| PirateUrls.MakeAbsolute | scraper/stages/pirate_urls.py:27-32 | the result has a scheme and ends with the href; schemed hrefs are kept, others get the site and a "/" if needed |
| PirateUrls.MakeAbsoluteIdempotent | scraper/stages/pirate_urls.py:27-32 | making an absolute URL absolute changes nothing |
| PirateUrls.DropFragment | scraper/stages/pirate_urls.py:71-72 | the result is the prefix before the first "#", and the whole URL when it has none |
| PirateUrls.DropFragmentIdempotent | scraper/stages/pirate_urls.py:71-72 | dropping the fragment twice is dropping it once |
| PirateUrls.DropFragmentKeepsScheme | scraper/stages/pirate_urls.py:67-72 | an absolute URL stays absolute without its fragment |
| PirateUrls.PirateUrlOf | scraper/stages/pirate_urls.py:67-72 | a collected pirate URL has a scheme and no fragment |
| PirateUrls.PirateUrlOfAbsolute | scraper/stages/pirate_urls.py:67-72 | an absolute URL without a fragment is kept as it is |
| PirateUrls.LinkOf | scraper/stages/pirate_urls.py:63-79 | an element gives a row exactly when it is an anchor with a pirate-link href |
| PirateUrls.BeforeMarker | scraper/stages/pirate_urls.py:47-61 | the elements before the first jobbing marker |
| PirateUrls.CollectFromReached | scraper/stages/pirate_urls.py:57-61 | once the marker is reached nothing is collected |
| PirateUrls.CollectCutoff | scraper/stages/pirate_urls.py:51-79 | the walk collects exactly the links before the marker |
| PirateUrls.LinksAppend | scraper/stages/pirate_urls.py:56-79 | links are collected element by element, in document order |
| PirateUrls.LinksRows | scraper/stages/pirate_urls.py:63-79 | every row comes from a pirate-link anchor and carries the page's crew name and URL |
| PirateUrls.DedupRows | scraper/stages/pirate_urls.py:82-91 | exactly the first row of each (URL, name, crew) key, in input order; no key twice and no key lost |
| PirateUrls.ScrapeCrew | scraper/stages/pirate_urls.py:35-93 | the crew name is the page's, and no two rows share a key |
| PirateUrls.ScrapeCrewRows | scraper/stages/pirate_urls.py:45-93 | the rows are exactly the first occurrences, in document order, of each (URL, name, crew) key among the links before the marker, each with the crew's name and URL |
| PirateUrls.ScrapeCrewNoBody | scraper/stages/pirate_urls.py:56 | a page without a body yields no rows |
| PirateUrls.RunPirateUrls | scraper/stages/pirate_urls.py:99-100 | a missing "Crew URL" column aborts the stage, and only that |
| PirateUrls.RunPirateUrlsAccounting | scraper/stages/pirate_urls.py:102-125 | every prepared crew URL is a success or one failure; every row's crew URL is a prepared one |
| PirateUrls.CrewAttemptRows | scraper/stages/pirate_urls.py:74-79 | the rows of a crew carry that crew's URL |
| PirateUrls.PirateUrlsTable | scraper/stages/pirate_urls.py:127-130 | the table has the four columns and one row per link |
| CrewDetails.ExtractCrewName | scraper/stages/crew_details.py:16-23 | the bold text under the font, or the error naming what is missing (font first) |
| CrewDetails.PublicStatementIgnoresLabel | scraper/stages/crew_details.py:39-41 | with two or more lines the first is dropped and the rest joined by spaces |
| CrewDetails.PublicStatementSplits | scraper/stages/crew_details.py:40-41 | splitting the statement at spaces gives back the lines after the label |
| CrewDetails.PublicStatementShort | scraper/stages/crew_details.py:31-42 | one line is kept; no paragraph or no lines give "" |
| CrewDetails.CaptainTable | scraper/stages/crew_details.py:50-60 | the first table with the captain icon and a link in the next row, or none |
| CrewDetails.CaptainFirstQualifying | scraper/stages/crew_details.py:45-61 | the captain is the link text of the first qualifying table |
| CrewDetails.ScrapeDetail | scraper/stages/crew_details.py:64-93 | fewer than two tables, no centre cell, no font or no bold each fail with their message; otherwise the detail row |
| CrewDetails.ScrapeDetailNameErrors | scraper/stages/crew_details.py:84 | a page with a centre cell fails with the name heading's error |
| CrewDetails.RunCrewDetails | scraper/stages/crew_details.py:99-100 | a missing "Crew URL" column aborts the stage, and only that |
| CrewDetails.DetailAttemptRow | scraper/stages/crew_details.py:88-93 | a successful crew gives one row, carrying its URL |
| CrewDetails.RunCrewDetailsAccounting | scraper/stages/crew_details.py:102-128 | every prepared crew URL gives one detail row or one failure |
| CrewDetails.DetailRowsKeys | scraper/stages/crew_details.py:115-118 | every detail row's URL is a prepared one |
| CrewDetails.CrewDetailsTable | scraper/stages/crew_details.py:130-133 | the table has the four columns and one row per detail |
| Html.StrippedStrings | scraper/stages/crews.py:60-67 | one stripped string per text node that is not all whitespace, in document order; blank nodes give none |
| Html.StrippedStringsNoBlank | scraper/stages/crews.py:60-67 | with no blank node, the i-th string is the i-th node stripped |
| Html.StrippedStringsBlank | scraper/stages/crews.py:60-67 | a blank text node adds nothing |
| Crews.CellTexts | scraper/stages/crews.py:24 | one text per header cell |
| Crews.HeaderMatchesIgnoresCase | scraper/stages/crews.py:27 | the header test does not depend on the header's case |
| Crews.FindCrewsTable | scraper/stages/crews.py:11-29 | the first table whose header holds all four words, or none |
| Crews.ChooseTable | scraper/stages/crews.py:40-48 | the matching table, else the eleventh, else the stage fails with its message |
| Crews.CrewUrlOf | scraper/stages/crews.py:61-63 | only an href starting with "/" is prefixed with the site |
| Crews.CrewRowOf | scraper/stages/crews.py:56-67 | the crew name is the link's text nodes joined with no separator, the URL is its href made absolute (never empty), and rank, members and fame are the texts of the next three cells |
| Crews.CrewRowsOf | scraper/stages/crews.py:51-75 | one crew per usable row, in row order: the j-th crew is the crew row of the j-th usable row, and unusable rows give none |
| Crews.CrewRowsOfComplete | scraper/stages/crews.py:51-75 | every usable row gives its crew |
| Crews.CrewRowsOfSound | scraper/stages/crews.py:51-75 | every crew comes from a usable row |
| Crews.CrewRowsOfNone | scraper/stages/crews.py:52-58 | rows with fewer than four cells or no linked href give nothing |
| Crews.CrewRowsSkipsFirst | scraper/stages/crews.py:51 | the first row never contributes |
| Crews.RunCrews | scraper/stages/crews.py:31-75 | transport errors and 4xx/5xx statuses abort; otherwise the chosen table's crews |
| Crews.CrewsTable | scraper/stages/crews.py:77 | the table has the five columns and one row per crew |
| Finalize.TitleClean | scraper/stages/finalize.py:14-19 | the stripped text with its first letter upper-cased and the rest lower-cased; "" exactly for blank input |
| Finalize.TitleCleanTrimmed | scraper/stages/finalize.py:15 | a cleaned title has no surrounding whitespace |
| Finalize.TitleCaseUnique | scraper/stages/finalize.py:19 | two title-cased strings equal up to case are equal |
| Finalize.TitleCleanIdempotent | scraper/stages/finalize.py:14-19 | cleaning a clean title changes nothing |
| Finalize.TitleCleanIgnoresCase | scraper/stages/finalize.py:14-19 | "queen", "QUEEN" and "Queen" clean alike |
| Finalize.OnlyValidTitle | scraper/stages/finalize.py:21-23 | the cleaned title when it is one of the six, else "" |
| Finalize.OnlyValidTitleIdempotent | scraper/stages/finalize.py:21-23 | filtering twice is filtering once |
| Finalize.RoleRank | scraper/stages/finalize.py:64-66 | a valid title's position in King, Queen, Prince, Princess, Lord, Lady; 999 otherwise |
| Finalize.NormalizeRow | scraper/stages/finalize.py:50-51 | the title is filtered, the flag name stripped ("nan" when missing), other cells kept |
| Finalize.Normalize | scraper/stages/finalize.py:45-51 | both flag columns exist afterwards and no row is lost |
| Finalize.ValidRows | scraper/stages/finalize.py:53 | the kept rows hold a valid title and keep their order |
| Finalize.ValidRowsComplete | scraper/stages/finalize.py:53 | every row with a valid title is kept |
| Finalize.ValidRowsInOrder | scraper/stages/finalize.py:53 | the kept rows are exactly the valid rows, one per valid input position, in input order |
| Finalize.ValidRowsCount | scraper/stages/finalize.py:53 | each row occurs as often as in the input when its title is valid, and not at all otherwise |
| Finalize.KeyLeTotal | scraper/stages/finalize.py:63-70 | any two sort keys compare |
| Finalize.KeyLeTransitive | scraper/stages/finalize.py:63-70 | the sort-key order is transitive |
| Finalize.RowOrderPreorder | scraper/stages/finalize.py:64-70 | the row order by (rank, name) is a total preorder |
| Finalize.DedupRoyals | scraper/stages/finalize.py:72-76 | by URL when that column is kept, else by name, else nothing dropped; the kept rows are exactly the first row of each key, in order |
| Finalize.ProjectRows | scraper/stages/finalize.py:61 | each row restricted to the kept columns |
| Finalize.SortedProjection | scraper/stages/finalize.py:53-70 | every sorted row is an input row, restricted, with a valid title |
| Finalize.RoyalsFromRows | scraper/stages/finalize.py:53-76 | every royal is a restricted input row with a valid title |
| Finalize.RoyalsFromOrder | scraper/stages/finalize.py:63-76 | royals are in (rank, name) order and no two share a URL (or a name) |
| Finalize.RoyalsFromShape | scraper/stages/finalize.py:53-76 | the kept columns, titles, provenance, order and uniqueness of the royals together |
| Finalize.RoyalsShape | scraper/stages/finalize.py:41-76 | for any pirates table: the kept columns are the present ones among the six, in order; every royal is a restricted normalised row with a valid title; the order and uniqueness of RoyalsFromShape |
| Finalize.ProjectKeepsUrl | scraper/stages/finalize.py:56-61 | restricting a row keeps its URL when the URL column is kept |
| Finalize.RoyalsKeepEveryUrl | scraper/stages/finalize.py:53-76 | every pirate with a valid title is represented by its URL |
| Finalize.ValidRowSorted | scraper/stages/finalize.py:53-70 | a row with a valid title reaches the sorted table, restricted to the kept columns |
| Finalize.SortedRoyalsInput | scraper/stages/finalize.py:63-70 | the sorted table is in (rank, name) order, under a total order |
| Finalize.RoyalLeast | scraper/stages/finalize.py:63-76 | a surviving royal sorts no later than any sorted row with its key |
| Finalize.ProjectKeepsName | scraper/stages/finalize.py:56-61 | restricting a row keeps its name when the name column is kept |
| Finalize.RoyalsFromLeast | scraper/stages/finalize.py:63-76 | the royal kept for a URL (or a name, without the URL column) sorts no later in (rank, name) order than any valid-title input row with that URL, restricted to the kept columns |
| Finalize.Stamp | scraper/stages/finalize.py:79-82 | an empty table is left alone; otherwise every row gets the stamp and keeps its other cells |
| Finalize.FileNamesDistinct | scraper/stages/finalize.py:84-97 | the ten output files have distinct names |
| Finalize.RunFinalize | scraper/stages/finalize.py:25-97 | all ten files; failure logs and empty sets as held; every other set stamped with one shared stamp, cells kept |
| Seqs.FirstIndex | scraper/stages/crews.py:17-29 | the first position satisfying the test, none before it, and none exactly when no position does |
| Seqs.LeastFrom | scraper/pirates.py:22-23 | the least position at or after the start that satisfies the test, none before it, and none exactly when no position in range does |
| Seqs.LastSomeAt | scraper/pirates.py:60-75 | the last accepted element decides the result of a loop in which each accepted element overwrites it |
| Seqs.LastSomeNone | scraper/pirates.py:60-75 | with no accepted element there is no result |
| Seqs.Filter | scraper/stages/finalize.py:53 | the kept elements satisfy the test and keep their order |
| Seqs.FilterComplete | scraper/stages/finalize.py:53 | every element that satisfies the test is kept |
| Seqs.FilterIsFilterMap | scraper/stages/finalize.py:53 | filtering is the conversion that keeps an element exactly when the test holds |
| Seqs.FilterInOrder | scraper/stages/finalize.py:53 | the j-th kept element is the j-th input element that satisfies the test, one per such position |
| Seqs.FilterCount | scraper/stages/finalize.py:53 | each value occurs as often as in the input when it satisfies the test, and not at all otherwise |
| Seqs.FilterMapComplete | scraper/stages/crews.py:51-75 | every element the conversion accepts contributes its value |
| Seqs.FilterMapSound | scraper/stages/crews.py:51-75 | every value comes from an accepted element |
| Seqs.FilterMapNone | scraper/stages/crews.py:52-58 | nothing accepted, nothing produced |
| Seqs.FilterMapInOrder | scraper/stages/crews.py:51-75 | the j-th value comes from the j-th accepted element: accepted positions, increasing, one value each |
| Seqs.FilterMapAll | scraper/stages/crews.py:24 | when every element is accepted, the i-th value is the i-th element's |
| Seqs.FlatMapAppend | scraper/shoppes.py:80-141 | a loop appending each element's output, over two runs, is the two outputs concatenated |
| Seqs.FlatMapSingle | scraper/shoppes.py:80-141 | over one element it is that element's output |
| Seqs.FlatMapEvery | scraper/shoppes.py:80-141 | a property of every element's outputs holds of the whole output |
| Seqs.FlatMapShort | scraper/shoppes.py:117-141 | at most one output per element gives at most as many outputs as elements |
| Seqs.DedupBy | scraper/stages/pirate_urls.py:82-91 | the result is an order-keeping subsequence with the same set of keys |
| Seqs.DedupByFirstOccurrences | scraper/stages/pirate_urls.py:82-91 | no key twice, and every first occurrence kept |
| Seqs.KeysOfPrefix | scraper/stages/pirate_urls.py:82-91 | a key is among those already seen exactly when an earlier element has it |
| Seqs.FirstOfKeyPrefix | scraper/stages/pirate_urls.py:82-91 | whether an element is the first of its key depends only on the elements before it |
| Seqs.DedupByInOrder | scraper/stages/pirate_urls.py:82-91 | the result is exactly the first occurrences, in order: its j-th element is the element at the j-th position whose key no earlier element has |
| Seqs.DedupByIdempotent | scraper/stages/pirate_urls.py:82-91 | a list with distinct keys is kept as it is |
| Seqs.DedupByIdMembers | scraper/pirates.py:113 | `unique()` keeps exactly the values, each once |
| Sorting.Sort | scraper/stages/finalize.py:70 | the sorted rows are a permutation of the input |
| Sorting.SortSorted | scraper/stages/finalize.py:70 | under a total preorder the output is sorted |
| Sorting.SortedSubsequence | scraper/stages/finalize.py:70-76 | de-duplicating a sorted list keeps it sorted |
| Sorting.FirstOccurrenceLeast | scraper/stages/finalize.py:70-76 | in a sorted list, the first element with a key sorts no later than every element with that key |
| Sorting.FirstOccurrenceLeastAt | scraper/stages/finalize.py:70-76 | the same for one survivor and one element |
| Sorting.TotalReflexive | scraper/stages/finalize.py:70 | a total order relates each element to itself |
| Tables.ColumnValues | scraper/pirates.py:108 | one cell per row, missing where the row lacks the column |
| Tables.SetColumn | scraper/stages/finalize.py:45-48 | the column exists afterwards, every row holds the value, other cells are kept |
| Tables.ProjectRow | scraper/stages/finalize.py:61 | the row restricted to the kept columns it has, values unchanged |
| Tables.PresentColumns | scraper/stages/finalize.py:56-59 | exactly the wanted columns the table has, in the order of the wanted list |
| Text.LeadingSpaces | scraper/pirates.py:28 | the length of the whitespace run the string opens with |
| Text.Strip | scraper/pirates.py:28 | the result neither opens nor closes with whitespace |
| Text.StripSlice | scraper/pirates.py:28 | the stripped string is the stretch of the input that starts after its leading whitespace and is followed only by whitespace |
| Text.StripIdempotent | scraper/stages/finalize.py:15 | stripping twice is stripping once |
| Text.StripLower | scraper/stages/finalize.py:19 | stripping and lower-casing commute |
| Text.Clean | scraper/shoppes.py:36-37 | no surrounding whitespace |
| Text.Words | scraper/shoppes.py:36-37 | the maximal non-whitespace runs, in order, each non-empty and without whitespace |
| Text.CleanWords | scraper/shoppes.py:36-37 | `_clean(s)` is the words of `s` joined by one space |
| Text.CollapseWords | scraper/shoppes.py:37 | collapsing whitespace runs and then stripping joins the words with one space |
| Text.JoinWordsTrimmed | scraper/shoppes.py:37 | words joined by one space never open or close with whitespace, and are "" only without words |
| Text.CleanShape | scraper/shoppes.py:36-37 | single-spaced, the same non-space characters, "" exactly for blank input |
| Text.CleanIdempotent | scraper/shoppes.py:36-37 | cleaning twice is cleaning once |
| Text.Split | scraper/pirates.py:27 | at least one part, none holding the separator, joined back to the input |
| Text.SplitJoin | scraper/stages/crew_details.py:41 | splitting a join of separator-free parts gives the parts back |
| Text.TitleFrom | scraper/shoppes.py:42 | letters starting a word are upper-cased, other letters lower-cased, the rest kept |
| Text.ReplaceAllAvoids | scraper/shoppes.py:42-43 | replacing never introduces a character absent from the input and the replacement |
| Text.NatToString | scraper/pirates.py:40 | the status code in decimal: digits only, whose value is the code, with no leading zero |

## Left out

- HTTP: `requests`, sessions, timeouts, headers and `time.sleep` are left out. The response is the `fetch` argument. An exception's class name and message are given, not derived.
- Progress printing and the `meta` dictionaries each stage returns are left out. They do not feed any output table.
- HTML parsing and BeautifulSoup traversal are left out. Each page datatype holds only what the code reads, for example:
  - the left column's first table rows;
  - a skill icon's stripped alt and next-cell text;
  - a crew page's body elements in document order;
  - whether a table holds the captain icon.
- Unicode is left out. Case mapping, `\w` and `\s` cover ASCII only.
- The regular expressions are written as hand-coded matchers. They are not a general regex engine.
- The shop pairs pattern is analysed on single-spaced text only. `_extract_name_loc_pairs` only ever sees `_clean`ed text.
- `urllib.parse.urlsplit`/`urlunsplit` is modelled only as dropping the fragment from the first "#". Scheme, host and query normalisation are not modelled.
- The clock is left out. The finalize timestamp is the `stamp` parameter.
- Writing the CSV files (scraper/pipeline.py) is not part of this model. Neither is looking up the stages' outputs in the context dictionary, or a `KeyError` from a missing stage.
- pandas is modelled only in the operations the stages use: column lookup, `dropna`, `unique`, boolean filtering, column selection, sorting, `drop_duplicates` and column assignment. Tables hold strings. A missing cell reads as "nan" when `astype(str)` is applied.
- `requests` following 3xx redirects is left out. `raise_for_status` is modelled only on the status the client returns.
- Finalize.RoyalsFromOrder: the order among rows with equal sort keys is not stated. With a "Pirate Name" column pandas sorts on two keys with a stable lexicographic sort; with the rank key alone its default sort is not stable. The model states that the output is sorted, and Finalize.RoyalsFromLeast states that the row kept for a URL has the least key; which of several rows with equal keys is kept is not promised.
- Shoppes.Humanize: only the empty-slug case is in the contract. Lower-case one-word slugs are covered by Shoppes.HumanizeWord. Multi-word slugs have only the hyphen lemma.
- Shoppes.ExtractPairsExample: stated for one-letter names and locations, not for arbitrary words.
- Pirates.ParseSkills: the exact result is stated by Pirates.ParseSkillsFields and Pirates.ParseSkillsSingle for inputs split into their fields, not for an arbitrary string directly.
