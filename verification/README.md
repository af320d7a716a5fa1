# EdSight scraper core, modelled in Dafny

This project models the two pure pieces of the EdSight data-scraping tool. It proves properties about both.

1. **The download-target compiler** (`helpers.py`). It takes a catalog dataset (filters with `name`, `xpath_id` and
   `options`), a geography (`District` or `School`) and an output directory. It produces the ordered list of
   `{url, param, filename}` targets. The steps are:
   - choose the filters that take part;
   - build the row-major cross product of their options;
   - strip trailing whitespace from each chosen value;
   - add "State of Connecticut" copies of every parameter set;
   - derive a slugged `.csv` file name for each target;
   - for the `Enrollment` dataset, append a fixed table of 56 state-level targets.
2. **The per-target retry/save decision** (`fetch_async.get_report`) and the one-call-per-target loop of
   `fetch_async`. The loop runs sequentially against an oracle of response bodies.

Files and modules:

- `wrappers.dfy` (`Wrappers`): `Option` and `Result`.
- `text.dfy` (`Text`): the Python string and path operations the tool uses. These are `str.rstrip`,
  `str.find`, `'_'.join`, `str.lower` (ASCII), `str.replace` and the two-argument POSIX `os.path.join`.
  The tool never splits a string; `Text.Split` is there only to show that the `'_'.join` of a file name can
  be undone.
- `cross_product.dfy` (`CrossProduct`): `itertools.product` and its row-major order.
- `entities.dfy` (`Entities`): filters, datasets, catalog entries, parameter sets and targets.
- `state_enrollment.dfy` (`StateEnrollment`): the fixed 56-row Enrollment table.
- `helpers.py` model (`helpers.dfy`, module `Helpers`): the target compiler.
- `fetch.dfy` (`Fetch`): `get_report` and `fetch_async`.

Behaviour of the code that is easy to misread, which the model follows:

- **Empty option lists.** An included filter with no options yields zero parameter sets. It is not an error.
  See `Helpers.EmptyOptionsNoParams`.
- **State copies.** They are deduplicated only among themselves, not against the original sets. A parameter set
  that is already a state row therefore appears twice. See `Helpers.AddCtCanRepeat`.
- **Enrollment.** The dataset still gets one target per parameter set from its filters, without state copies.
  The 56 fixed targets come after those.
- **Forcing the state.** The state copy writes the literal key `_district`, whatever the District filter's
  `xpath_id` is.
- **Unknown geography.** A geography other than `District` or `School` leaves `exclude_vars` unbound. The code fails only
  when the variable list compares a filter name against it (`helpers.py:172`), so a dataset with filters fails
  before any target is built, and the model returns `Err(UnknownGeography)`. A dataset without filters never
  reads the list and compiles exactly as it would for `District`. See `Helpers.NoFiltersGeographyIgnored`.
- **Errors in `get_report`.** There is no transport-error outcome. Exceptions simply propagate, so the model has
  none.

## Model

| member | source | states |
|---|---|---|
| Text.RStrip | ctdata_edsight_scraping_tool/helpers.py:104 | the stripped value is a prefix of the option, so leading and internal characters are kept; it does not end in whitespace; everything removed was whitespace |
| Text.RStripUnique | ctdata_edsight_scraping_tool/helpers.py:99-104 | those three properties determine the stripped value uniquely |
| Text.ContainsIffOccurrence | ctdata_edsight_scraping_tool/fetch_async.py:43 | `data.find(m) != -1` holds exactly when some index of the body starts an occurrence of the marker |
| Text.SplitJoin | ctdata_edsight_scraping_tool/helpers.py:125 | joining with `_` can be undone by splitting on `_` when no piece contains `_` |
| Text.PathJoin | ctdata_edsight_scraping_tool/helpers.py:128 | the joined path ends with the file name; for a relative name, what precedes it is the directory, with `/` added unless the directory is empty or already ends in `/` |
| Text.PathJoinInjective | ctdata_edsight_scraping_tool/helpers.py:52 | distinct relative names joined onto one directory give distinct paths |
| CrossProduct.Product | ctdata_edsight_scraping_tool/helpers.py:94 | the number of combinations is the product of the option counts; each combination takes its j-th value from the j-th list |
| CrossProduct.RowMajorIndex | ctdata_edsight_scraping_tool/helpers.py:94 | the mixed-radix position of an option choice lies below the number of combinations |
| CrossProduct.ProductAt | ctdata_edsight_scraping_tool/helpers.py:94 | row-major order: the combination at the mixed-radix position of choice `d` (last list fastest) is the one that picks option `d[j]` from list `j` |
| CrossProduct.DecodeCorrect | ctdata_edsight_scraping_tool/helpers.py:94 | every position below the number of combinations decodes to a valid option choice whose row-major position is that position, so row-major positions cover the whole product |
| CrossProduct.DecodeIndex | ctdata_edsight_scraping_tool/helpers.py:94 | decoding the position of a choice gives the choice back, so distinct choices sit at distinct positions |
| CrossProduct.ProductDecode | ctdata_edsight_scraping_tool/helpers.py:94 | the combination at every position of the product is the one its decoded choice picks |
| CrossProduct.EmptyListEmptiesProduct | ctdata_edsight_scraping_tool/helpers.py:94 | one empty option list makes the cross product empty |
| StateEnrollment.Targets | ctdata_edsight_scraping_tool/helpers.py:32-70 | exactly 10×5 + 6 = 56 targets, all with empty `param`, every file name ending in `_ct.csv`; year y with display code k is at row 5y+k, with the yearly-export url and the path `enrollment__{year}_{var}_ct.csv` directly inside the output directory; trend subgroup g is at row 50+g, with the trend-export url and `enrollment__trend_{slug}_ct.csv` inside the output directory |
| StateEnrollment.TrendSlugs | ctdata_edsight_scraping_tool/helpers.py:66 | lower-casing a subgroup and replacing `+` by `-` gives `all-students`, `race`, `gender`, `lunch`, `special-education` and `ell` |
| StateEnrollment.BasenamesDistinct | ctdata_edsight_scraping_tool/helpers.py:47-68 | no two of the 56 rows share a file name |
| StateEnrollment.TargetsFilenamesDistinct | ctdata_edsight_scraping_tool/helpers.py:47-68 | no two of the 56 targets are saved to the same path |
| Helpers.FiltersWhere | ctdata_edsight_scraping_tool/helpers.py:112 | keeps the filters whose name passes the test, in catalog order (a subsequence), each kept filter exactly as often as it occurs and no other filter |
| Helpers.FiltersWhereUnique | ctdata_edsight_scraping_tool/helpers.py:112 | no other subsequence of the filters holds every kept filter as often as the catalog does and no other filter, so the filtered list is pinned down |
| Helpers.FiltersWhereAgree | ctdata_edsight_scraping_tool/helpers.py:94-95 | two name tests that agree on every filter name select the same filters |
| Helpers.NamesWhere | ctdata_edsight_scraping_tool/helpers.py:88 | the names of the filtered filters, in catalog order, with repeated names kept: exactly the names of the list `FiltersWhere` keeps |
| Helpers.BuildCatalogGeoList | ctdata_edsight_scraping_tool/helpers.py:82-90 | one entry per catalog dataset, in catalog order; its geos are the names of the dataset's District/School filters, in filter order, a repeated filter named as often as it occurs |
| Helpers.ExcludedVars | ctdata_edsight_scraping_tool/helpers.py:167-170 | `District` excludes District and School; `School` excludes only District; any other value has no exclusion list |
| Helpers.ExclusionFor | ctdata_edsight_scraping_tool/helpers.py:166-172 | a known geography keeps its exclusion list; an unknown one fails exactly when the dataset has a filter name to compare against the unbound list |
| Helpers.Variables | ctdata_edsight_scraping_tool/helpers.py:172 | the variable names are the names of the non-excluded filters, in catalog order, repeats kept |
| Helpers.IncludedAreNotExcluded | ctdata_edsight_scraping_tool/helpers.py:93-112 | selecting filters by membership in the variable list picks exactly the filters the geography does not exclude |
| Helpers.GetXpaths | ctdata_edsight_scraping_tool/helpers.py:111-112 | the xpath list has one key per included filter, with the same filters in the same order as the option lists |
| Helpers.FirstValues | ctdata_edsight_scraping_tool/helpers.py:105-107 | every base-query key keeps the first element of its value list |
| Helpers.Assign | ctdata_edsight_scraping_tool/helpers.py:98-104 | the keys are the base keys plus the xpaths; untouched base values are kept; under each xpath (its last occurrence) is the combination's value with trailing whitespace removed |
| Helpers.BuildParamsList | ctdata_edsight_scraping_tool/helpers.py:93-109 | as many parameter sets as the product of the included filters' option counts; each has the base keys plus the xpaths; non-overwritten base keys keep their first value |
| Helpers.ParamsRowMajor | ctdata_edsight_scraping_tool/helpers.py:94-104 | the set at the row-major position of choice `d` holds, under the j-th xpath, option `d[j]` of the j-th included filter with trailing whitespace removed |
| Helpers.ParamsAt | ctdata_edsight_scraping_tool/helpers.py:94-104 | every parameter set, at any position i, holds under the j-th xpath (when no later xpath repeats it) the j-th included filter's option picked by i's j-th decoded digit, with trailing whitespace removed |
| Helpers.EmptyOptionsNoParams | ctdata_edsight_scraping_tool/helpers.py:94-97 | an included filter with no options yields zero parameter sets and no error |
| Helpers.StateCopy | ctdata_edsight_scraping_tool/helpers.py:140-143 | the copy has `_district` = State of Connecticut, no `_school` key, and every other key as in its source |
| Helpers.CollectStateCopies | ctdata_edsight_scraping_tool/helpers.py:138-145 | the collected copies are pairwise distinct; they are exactly the state copies of the inputs; there is one at least when there is an input |
| Helpers.AddCt | ctdata_edsight_scraping_tool/helpers.py:137-146 | the input is an unchanged prefix; the copies after it are pairwise distinct and are exactly the inputs' state copies; the length lies between n and 2n, and above n for non-empty input |
| Helpers.AddCtCanRepeat | ctdata_edsight_scraping_tool/helpers.py:144-146 | a parameter set that is already a state row is followed by an identical copy |
| Helpers.FilenameParts | ctdata_edsight_scraping_tool/helpers.py:122-124 | one value per xpath in xpath order (`''` when absent), then `ct` exactly when `_district` is State of Connecticut |
| Helpers.FileStemDecodes | ctdata_edsight_scraping_tool/helpers.py:122-126 | the stem starts with `dataset__`, and its remainder splits on `_` back into the file-name parts when no part contains `_` |
| Helpers.TargetFilename | ctdata_edsight_scraping_tool/helpers.py:125-128 | the path ends with the slugged stem plus `.csv`; when that name is relative it sits directly in the output directory, otherwise it replaces the directory |
| Helpers.BuildUrlList | ctdata_edsight_scraping_tool/helpers.py:115-135 | one target per parameter set in order, sharing the url, carrying its set unchanged and its derived file name; exactly the 56-row table follows for `Enrollment`, nothing for other datasets |
| Helpers.Lookup | ctdata_edsight_scraping_tool/helpers.py:163 | finds a dataset when some catalog entry carries the name, and fails exactly when none does |
| Helpers.LookupFindsEntry | ctdata_edsight_scraping_tool/helpers.py:163 | in a catalog with distinct names, every entry's dataset is what its own name looks up |
| Helpers.SetupDownloadTargets | ctdata_edsight_scraping_tool/helpers.py:149-189 | an unknown dataset fails first; for a known one, an unknown geography fails exactly when the dataset has filters; success implies the geography is District or School or the dataset has no filters |
| Helpers.CompiledParamsShape | ctdata_edsight_scraping_tool/helpers.py:182-184 | Enrollment keeps its cross product alone; every other dataset gets the cross product unchanged followed by exactly its distinct state copies, at least one when there is a set |
| Helpers.NoFiltersGeographyIgnored | ctdata_edsight_scraping_tool/helpers.py:163-189 | for a dataset without filters, any geography compiles to the same result as `District` |
| Helpers.SetupOutcome | ctdata_edsight_scraping_tool/helpers.py:163-189 | for a known dataset and a geography that does not fail: success exactly when every parameter set has `_district`, the only other error; the target count is n + 56 for Enrollment, and for other datasets between n and 2n and above n when n > 0, with n the product of the kept filters' option counts |
| Helpers.DistrictInBaseQuery | ctdata_edsight_scraping_tool/helpers.py:123 | when the base query has `_district`, every compiled parameter set has it |
| Fetch.Poll | ctdata_edsight_scraping_tool/fetch_async.py:40-50 | the loop makes no more than 4 requests; it requests again only after a loading page; it stops at the first body that is not the loading page |
| Fetch.GetReport | ctdata_edsight_scraping_tool/fetch_async.py:35-57 | 1 to 4 requests; every body before the last is the loading page; with fewer than 4 requests the last body is not the loading page; the final body is written verbatim exactly when `save` is set and it has neither marker |
| Fetch.PollStopsAtFirstReady | ctdata_edsight_scraping_tool/fetch_async.py:43-50 | the loop ends right after the first ready body, or after 4 requests |
| Fetch.AttemptsFromFirstReady | ctdata_edsight_scraping_tool/fetch_async.py:43-50 | the number of requests is the index of the first ready body plus one, capped at 4 |
| Fetch.AlwaysPendingGivesUp | ctdata_edsight_scraping_tool/fetch_async.py:43-52 | a portal that answers only with the loading page gets exactly 4 requests, and nothing is written |
| Fetch.NoResultsFirstNotSaved | ctdata_edsight_scraping_tool/fetch_async.py:43-52 | a first body with the no-results sentinel and no loading marker ends after one request and is not saved |
| Fetch.PollIgnoresLaterBodies | ctdata_edsight_scraping_tool/fetch_async.py:43-50 | the loop's result depends only on the bodies of the requests it made |
| Fetch.LaterBodiesIgnored | ctdata_edsight_scraping_tool/fetch_async.py:43-50 | oracle responses after the last request made are never requested |
| Fetch.FetchAll | ctdata_edsight_scraping_tool/fetch_async.py:63-66 | exactly one `get_report` call per target, in target order, each with that target |
| Fetch.SavedFiles | ctdata_edsight_scraping_tool/fetch_async.py:51-55 | the files written are exactly the (file name, content) pairs of the targets whose report wrote something |
| Fetch.SavedFilesAreExports | ctdata_edsight_scraping_tool/fetch_async.py:51-55 | each written file is a target's own file name holding that target's final body, which is a real export; with `save` off nothing is written |
| Fetch.FetchAsync | ctdata_edsight_scraping_tool/fetch_async.py:60-66 | a compile error ends the run before any request; otherwise one outcome per compiled target, in order |

## Left out

- `cli.py` as a whole is left out. It holds the command wiring, the catalog download and caching, the licence
  text, the output-directory check and `gen_resource`. All of it is I/O or presentation.
- Slugify is not modelled. It is a function parameter `slug`, and nothing is assumed about it.
- `os.path.abspath` is not modelled. The output directory is passed in already absolute. `os.path.join` is
  modelled by its POSIX two-argument rule.
- `urlparse` and `parse_qs` are not modelled. A dataset carries its request url and its parsed base query as
  given. Blank dropping and percent-decoding are not modelled. Each value list is assumed non-empty, which
  `parse_qs` guarantees.
- Helpers.FirstValues: the base values are reduced to their first element before the filter values are written
  rather than after. The result is the same, because every overwritten key then holds a string.
- Parameter sets are maps. The Python dictionaries' insertion order, which orders the query string, is not
  modelled.
- The `p['_district']` lookup fails when the key is absent. `BuildUrlList` makes its presence a precondition,
  and `SetupDownloadTargets` returns `Err(MissingDistrict)` instead of raising.
- The catalog is an ordered list of entries with distinct names, as the keys of a JSON object are.
- Text.Lower lower-cases ASCII letters only. It is applied only to the fixed ASCII subgroup names.
- Helpers.AddCt: does not state the order among the state copies, which is the order of first occurrence.
- Concurrency is not modelled: the semaphore of 10, `asyncio.gather` and the event loop. The fetch runs
  sequentially.
- The 0.75-second sleep between tries is not modelled.
- Output is not modelled: the progress messages, the warm-up GET to the portal root (its response is
  discarded), the user-agent header, HTTP sessions and the file writes. A write is the returned `written` value.
- Transport errors are not modelled, because the code has no handling for them.
- Fetch.FetchAll: the portal is an oracle indexed by target position and request number. Responses are not a
  function of the url and parameters.
