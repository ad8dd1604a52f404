# cnddb_search: a Dafny model of the name-reconciliation and harvest logic

`main.py` of cnddb_search builds a species-occurrence dataset for a study
area. It takes CNDDB (the California natural diversity database, a GIS
shapefile) records inside the search quads. It scrapes the CNPS rare-plant
registry for the same quads. It merges the species names of both into one
search list, and it pages through the GBIF occurrence API once per name. This
project models the sequential logic inside that script and proves what it
guarantees:

- **Taxon classification and filter** (`taxon.dfy`, module `Taxon`). Each
  CNDDB row gets the category `Plant`, `Animal` or `Other` from its taxonomic
  group, and the `Other` rows are dropped.
- **CNPS search URL** (`cnps_query.dfy`, module `CnpsQuery`). A loop appends
  each quad code and a colon to `&quad=`, and the result goes after the
  fixed prefix `https://rareplants.cnps.org/Search/result?&crpr=1B:2B:4`.
- **Name reconciliation** (`search_names.dfy`, module `SearchNames`, over
  `dedup.dfy`, module `Dedup`). Each distinct CNDDB name is cut at its first
  `pop. ` and trimmed the way Python's `str.strip()` trims. The results are
  then appended to the distinct CNPS names, and a membership check skips
  names already listed. The CNDDB names are the `SNAME` column of the
  filtered table that `Taxon.SelectListedTaxa` describes.
- **Bounded retry** (`retry.dfy`, module `Retry`). Up to three GET attempts,
  stopping at the first HTTP 200. The same loop shape appears for the CNPS
  page (main.py:60-67) and for the first GBIF request of each name
  (main.py:101-111).
- **GBIF pagination** (`gbif_harvest.dfy`, module `GbifHarvest`). While the
  current page is not flagged `endOfRecords`, the loop appends its results
  tagged with the search name and requests `offset + limit`. Then it appends
  the final page. An outer loop does this for every name of the search list.
- **Count summary** (`count_summary.dfy`, module `CountSummary`). The number
  of harvested rows per search name.

The network is a parameter. The retry loop sees a total function
`call: nat -> Attempt` that gives the outcome of the i-th GET: it raised, or
it gave a response with a status and a body. Paging sees the decoded first
reply and a finite sequence of replies to the follow-up requests. A reply is
`Undecodable` when the request raised, the body was not JSON, or it lacks
`endOfRecords` or `results`. Each of these raises before any row of that
reply is appended (main.py:113-116, 122-123), and the `except` clause skips
the rest of that name. Otherwise the reply is a page whose `offset` and
`limit` are optional. A page without `endOfRecords` that lacks either of
them still has its rows appended (main.py:116-118), and paging for that
name then fails at main.py:119.

Each loop of the source is a `method` with a `while` or `for` loop. Its
`ensures` ties the result to a specification function, and lemmas state
what the source promises about that function.

Pages appended before a failing follow-up request stay in `data`
(main.py:118, 127-129). A name loses only the pages from the failure on,
not the whole name, and the model keeps the earlier pages.

## Model

| member | source | states |
|---|---|---|
| Taxon.AssignTaxonCategory | main.py:32-44 | The category is Plant exactly when the group is one of the seven plant groups. It is Animal exactly when the group is one of the nine animal groups. It is Other exactly when the group is in neither list. The lists are disjoint, so every string gets one category. |
| Taxon.DropOther | main.py:49 | Every kept row is a row of the input whose category is not Other. Every input row whose category is not Other is kept. |
| Taxon.DropOtherAppend | main.py:49 | Filtering a concatenation is the concatenation of the filtered parts, so kept rows keep their original relative order. |
| Taxon.DropOtherKeepsListed | main.py:49 | When no row is Other, the filter returns the table unchanged. |
| Taxon.SelectListedTaxa | main.py:47-49 | After classification (`Classify`, the row-wise `apply` of main.py:47) and filtering, every remaining row is an input record whose category is Plant or Animal. Plant holds exactly when its group is a plant group, and Animal exactly when it is an animal group. Every input record with a listed group survives with its category. |
| CnpsQuery.BuildSearchUrl | main.py:53-58 | The URL is the fixed `crpr=1B:2B:4` prefix, then `&quad=`, then each quad code followed by a colon, in list order. The URL starts with the fixed prefix. |
| CnpsQuery.QuadListRoundTrip | main.py:54-57 | When no code contains a colon, splitting the quad parameter at its colons gives back the quad list, so the parameter determines the list and its order. |
| SearchNames.Strip | main.py:88 | The result is the slice of the name that starts at its first non-whitespace character. Only whitespace comes before or after it, and it neither starts nor ends with whitespace. Whitespace is Python's `str.isspace` set. |
| SearchNames.StripIdempotent | main.py:88 | Stripping a stripped string changes nothing. |
| SearchNames.BeforeFirstCutsAtFirstOccurrence | main.py:88 | `split(pat)[0]` stops at the first occurrence. The pattern starts nowhere before the cut. It starts at the cut when it occurs at all, and nothing is cut when it does not occur. |
| SearchNames.NormalizeName | main.py:88 | A normalised name never contains `pop. `. A name without `pop. ` is only trimmed. |
| SearchNames.NormalizeCutsAtFirstMarker | main.py:88 | A name containing `pop. ` normalises to the trimmed text before its first `pop. `. |
| SearchNames.NormalizeCutsQualifier | main.py:88 | A qualifier-free part followed by `pop. ` and anything else normalises to that part, trimmed. This holds because `pop. ` cannot overlap itself. |
| SearchNames.NormalizeIdempotent | main.py:88 | Normalising a name twice gives the same result as normalising it once. |
| SearchNames.MergedSearchList | main.py:86-94 | The CNDDB names are normalised one by one (`NormalizeAll`, the list comprehension of main.py:88). The search list starts with the distinct CNPS names in their original order and has no duplicates, even when several `pop.` variants collapse to one name. It contains every normalised CNDDB name. Everything after the CNPS names is a normalised CNDDB name that is not a CNPS name. |
| SearchNames.BuildSearchList | main.py:90-94 | The membership-guarded append loop computes exactly the merged search list. |
| Dedup.AppendNew | main.py:92-94 | The guarded append keeps the list it starts from as a prefix and adds every candidate. Whatever it adds is a candidate not already present. It creates no duplicates. |
| Dedup.AppendNewFirstOccurrenceOrder | main.py:92-94 | Added names appear in the order of their first occurrence among the candidates. |
| Dedup.Unique | main.py:90 | `unique()` gives each value of the column exactly once and nothing else. |
| Dedup.UniqueFirstOccurrenceOrder | main.py:86 | `unique()` lists the values in order of first appearance. |
| Retry.AttemptsMade | main.py:101-111 | The loop makes between one and three attempts. No attempt before the last one returned 200. Fewer than three are made only when the last one returned 200. |
| Retry.LastResponse | main.py:61-62 | The held response is None exactly when every attempt so far raised. Otherwise it is the response of one of those attempts. |
| Retry.LastResponseIsLatest | main.py:60-67 | The held response is the one from the latest attempt that did not raise. Later attempts that raised leave it in place. |
| Retry.FetchWithRetry | main.py:60-67 | The retry loop makes exactly the attempts `AttemptsMade` counts and ends holding the last response it received. When the last attempt returned 200, that response is the one held. |
| GbifHarvest.Walk | main.py:115-126 | Every row paging appends is tagged with the search name, as `Tag` adds the `search_name` column (main.py:116-117). It makes at most one request per follow-up reply, plus one when the replies run out. |
| GbifHarvest.WalkAppendsPagesRead | main.py:115-126 | The rows appended are the results of every page read, in order, and nothing else. The pages read after the first are the follow-up replies, in order. |
| GbifHarvest.WalkStopsAtEndOfRecords | main.py:115 | Every page read but the last continues, meaning it lacks `endOfRecords` and has an offset and a limit. Only the last page can carry `endOfRecords`, and it carries it exactly when paging completed. |
| GbifHarvest.WalkRequestsNextOffsets | main.py:119-121 | After each page that continues, the next request asks for that page's offset plus its limit. There is one request per continuing page and no other. |
| GbifHarvest.WalkStops | main.py:115-123 | When some follow-up reply is undecodable or does not continue, paging ends before the replies run out. |
| GbifHarvest.WalkWithoutOffset | main.py:116-119 | A page that lacks `endOfRecords` but also lacks its offset or limit still has its rows appended, and paging then fails without requesting another page. |
| GbifHarvest.WalkOutcome | main.py:115-129 | Paging is Unfinished exactly when the last page read continues and every reply was used. It is Failed in exactly two cases. Either the last page lacks `endOfRecords` and also lacks its offset or limit. Or the last page continues and the reply after it is undecodable. So the last page read fixes which pages a failed name contributes. |
| GbifHarvest.RequestedOffsetsIncrease | main.py:119-122 | When the server serves each page at the requested offset and every follow-up limit is positive, the requested offsets strictly increase, so no offset is requested twice. |
| GbifHarvest.HarvestPages | main.py:112-129 | The paging loop for one name appends exactly the rows of the paging specification, with the same requests and outcome. Every row carries the name. |
| GbifHarvest.HarvestName | main.py:100-129 | All rows of one pass of the outer loop carry that pass's name. A name whose attempts all raised contributes no rows. |
| GbifHarvest.HarvestNameUsesLatestResponse | main.py:100-113 | A name pages from the body of the latest response its attempts received, which is the 200 response when the last attempt returned 200. |
| GbifHarvest.HarvestList | main.py:99-129 | Every harvested row carries a name of the search list. |
| GbifHarvest.HarvestListByName | main.py:99-129 | Over a search list without duplicates, which `MergedSearchList` guarantees, the rows tagged with a name are exactly the rows of that name's own harvest, in order. |
| GbifHarvest.HarvestAll | main.py:99-129 | The loop over the search list appends, name by name, the rows of retry-then-paging, including rows from a name whose paging failed part-way. Every row carries a name of the list. |
| CountSummary.TallyTotal | main.py:160-161 | Over distinct names that cover the column, the counts add up to the number of rows. |
| CountSummary.ValueCounts | main.py:160-161 | There is one entry per distinct search name and no name twice. Each count is the positive number of rows under that name. The counts add up to the number of rows. |
| CountSummary.SearchNameCounts | main.py:160-161 | The summary of the harvested rows has no name twice and covers every row's name. Each entry is some row's name, and its count is the positive number of rows under that name. The counts total the number of rows. |

## Left out

- Spatial search-area derivation (main.py:11-26) is not modelled: the intersects and touches tests, the concatenation, the union, the reprojection and the WKT serialisation. It is floating-point geometry inside geopandas and shapely.
- File reads (main.py:8, 14, 29), the HTTP requests themselves and printing are I/O. Their results are parameters of the model.
- HTML parsing of the CNPS result table (main.py:69-81) and the pandas work of `json_normalize`, `points_from_xy` and the column projection (main.py:116, 124, 131-157) are library wrappers. A page's results are an opaque sequence of records.
- The GBIF URL text (main.py:104-105, 120-121) is not built as a string. The model records the offset each follow-up request asks for, which is the only part that changes between pages.
- Retry.FetchWithRetry: when every attempt raises, the model returns None. The source behaves differently at each call site:
  - In the CNPS fetch, `response` is then unbound, and main.py:69 raises an uncaught UnboundLocalError that ends the script. The model does not stop there.
  - For the first GBIF name, `response` is unbound too. The NameError at main.py:113 is caught at main.py:127, so the name contributes no rows, exactly as in the model.
  - For a later GBIF name, `response` still holds the previous name's last response. The source pages from it and tags those rows with the current name. The model gives the name no rows instead.
- GbifHarvest.HarvestPages: the source keeps paging for as long as the server withholds `endOfRecords`, possibly forever. The model sees a finite sequence of follow-up replies and reports `Unfinished` when they run out first.
- CountSummary.ValueCounts: pandas orders `value_counts` by descending count. The model lists the names in order of first appearance and does not model that sort.
