# async-crawler: a verified model of the URL frontier and the crawl loop

The crawler starts from one URL. It fetches a page, keeps the links of the page
that start with `"http"`, and queues the ones it has not seen before. It keeps
going until no URL is waiting. The state behind this is `UrlManager`: a set of
`visited` URLs and a set of URLs still `to_visit`. Each URL moves from the
second set to the first at most once.

The model has four modules:

- `Wrappers` (`wrappers.dfy`): `Option`, the result type of `get_next_url`.
- `Frontier` (`frontier.dfy`): the two sets as a value (`State`). It defines
  what `add_url` does (`Added`) and what `get_next_url` may do (`Taken`; the
  source takes an arbitrary element of a `HashSet`). A call sequence (`Call`,
  `Step`, `IsRun`) supports the lemma that no URL is ever handed out twice.
- `UrlManagement` (`url_manager.dfy`, modelling `src/url_manager.rs`): the
  class `UrlManager`. Its fields `visited` and `toVisit` are updated in place
  by `AddUrl` (a `for` loop over the input, like the source) and by
  `GetNextUrl`. `IsEmpty` only reads the
  state. `UrlManagementTest` replays the unit test `url_management`.
- `Crawler` (`crawler.dfy`, modelling `src/main.rs`):
  - `Anchor` and `ExtractLinks` model the `filter_map` of `extract_links`.
  - The class `Crawler.UrlManager` is the copy of `UrlManager` that the binary
    uses (it has no `is_empty`). Both classes are proved against the same
    `Frontier` definitions.
  - `Crawl` is the `while let` loop of `main`. The network fetch is a parameter
    `fetch: string -> FetchResult`, where a page is given by its anchors. Every
    URL is fetched at most once, so a function of the URL is as general as an
    arbitrary outcome for each fetch.

The code is sequential: it fetches one URL at a time. It has no concurrent
scheduler, no in-flight counter and no polling loop, and the model adds none.

## Model

| member | source | states |
|---|---|---|
| `Frontier.Added` | src/url_manager.rs:16-22 | the frontier after `add_url(urls)`: `visited` unchanged, and `to_visit` grown by exactly the given URLs that are not in `visited` |
| `Frontier.Taken` | src/url_manager.rs:24-30 | what a successful `get_next_url` may do: hand out any one URL of `to_visit`, remove it from `to_visit` and add it to `visited`, nothing else |
| `Frontier.AddedSpec` | src/url_manager.rs:16-22 | after `add_url`, every given URL that was not visited is waiting and every visited one is not; nothing is lost; the only new waiting URLs come from the input; `visited` is unchanged; the two sets stay disjoint |
| `Frontier.AddedIdempotent` | src/url_manager.rs:18-19 | adding the same URLs again changes nothing; adding URLs that are all already visited or waiting leaves the frontier as it was |
| `Frontier.AddedConcat` | src/url_manager.rs:17-21 | adding a list in one call is the same as adding its two halves one after the other, so the per-element loop does not depend on how the input is split |
| `Frontier.TakenSpec` | src/url_manager.rs:24-30 | a URL handed out moves from waiting to visited. It was not visited before. Visited grows by exactly one, waiting shrinks by one, their union is unchanged and they stay disjoint |
| `Frontier.StepInvariant` | src/url_manager.rs:16-30 | a single `add_url` or `get_next_url` call keeps the sets disjoint and adds to `visited` exactly the URL it hands out (if any), which was not visited before |
| `Frontier.RunInvariant` | src/url_manager.rs:16-30 | over any sequence of `add_url` and `get_next_url` calls, disjointness holds throughout. The final visited set is the initial one plus the URLs handed out, so visited only grows. No URL is handed out twice, and none that was already visited |
| `Frontier.UrlManagementScenario` | src/url_manager.rs:42-61 | on the value model: an empty frontier yields nothing; adding `g` makes it the only waiting URL; taking then yields `g` and marks it visited; re-adding `g` changes nothing |
| `UrlManagement.UrlManager.constructor` | src/url_manager.rs:9-14 | a new manager has both sets empty (so the invariant holds) |
| `UrlManagement.UrlManager.AddUrl` | src/url_manager.rs:16-22 | the loop leaves exactly `Added(old state, urls)`: `visited` unchanged, every unvisited input URL added to `toVisit`; the invariant is kept |
| `UrlManagement.UrlManager.GetNextUrl` | src/url_manager.rs:24-30 | returns None exactly when `toVisit` was empty, and then changes nothing. Otherwise it returns some URL that was waiting, and the new state is `Taken`: the URL leaves `toVisit` and enters `visited` |
| `UrlManagement.UrlManager.IsEmpty` | src/url_manager.rs:32-34 | true exactly when `toVisit` is empty; it modifies nothing |
| `UrlManagement.UrlManagementTest` | src/url_manager.rs:42-61 | the observations of the unit test: None at first, the one added URL next, None after it is taken, None after re-adding it, and the URL is in `visited` |
| `Crawler.StartsWithHttp` | src/main.rs:19 | `starts_with("http")`: at least four characters, the first four being `h`, `t`, `t`, `p` |
| `Crawler.ExtractLinks` | src/main.rs:13-26 | the result has at most as many links as there are anchors, and every link starts with `"http"` |
| `Crawler.ExtractLinksConcat` | src/main.rs:16-25 | extraction keeps document order: the links of a concatenation of anchor lists are the concatenated links |
| `Crawler.ExtractLinksMembership` | src/main.rs:17-24 | a string is extracted if and only if it starts with `"http"` and is the href of some anchor; anchors without an href contribute nothing |
| `Crawler.ExtractLinksExample` | src/main.rs:16-25 | on anchors `http://a/`, `/rel`, (no href), `http://b/` the result is exactly `["http://a/", "http://b/"]` |
| `Crawler.Links` | src/main.rs:67-76 | the links `main` passes to `add_url` after one fetch: the extracted links on `Ok`, none on `Err` |
| `Crawler.Discovered` | src/main.rs:68-71 | every link queued from fetched pages starts with `"http"` |
| `Crawler.DiscoveredMembership` | src/main.rs:66-76 | a URL is discovered by a run if and only if it is a link of a page fetched successfully during that run; failed fetches contribute nothing |
| `Crawler.DiscoveredIncludes` | src/main.rs:68-71 | every link extracted from a page fetched during the run is discovered |
| `Crawler.DiscoveredSource` | src/main.rs:68-71 | every discovered URL is a link of some page fetched successfully during the run |
| `Crawler.DiscoveredPrefix` | src/main.rs:66-72 | what was discovered from the first pages fetched stays discovered as the crawl goes on; the loop never forgets a link |
| `Crawler.FetchedExactly` | src/main.rs:62-77 | if the first URL is the start URL, every later URL was discovered before being fetched, and everything discovered was fetched, then the fetched URLs are exactly the start URL plus the discovered ones |
| `Crawler.UrlManager.constructor` | src/main.rs:35-40 | the copy of `new`: both sets empty |
| `Crawler.UrlManager.AddUrl` | src/main.rs:42-48 | the copy of `add_url`: only URLs absent from `visited` are added, `visited` is untouched, the new state is `Added(old state, urls)` |
| `Crawler.UrlManager.GetNextUrl` | src/main.rs:50-56 | the copy of `get_next_url`: None exactly on an empty `toVisit` (state unchanged), otherwise one waiting URL moved to `visited`; disjointness is kept |
| `Crawler.CrawlInvariantInit` | src/main.rs:62-66 | after seeding with the start URL, the first `get_next_url` hands out the start URL and the loop invariant holds |
| `Crawler.FrontierInvariantStep` | src/main.rs:66-77 | one iteration keeps the frontier facts: disjoint sets, visited = fetched URLs plus the one just taken, everything waiting was discovered, everything discovered is visited or waiting, all inside the universe |
| `Crawler.TraceInvariantStep` | src/main.rs:66-77 | one iteration keeps the order facts: no URL fetched twice, the start URL first, every later URL discovered on a page fetched before it |
| `Crawler.CrawlInvariantStep` | src/main.rs:66-77 | one iteration of the loop keeps the whole invariant. On `Err` only the URL just taken changes the frontier; on `Ok` only the extracted links are added |
| `Crawler.CrawlInvariantExit` | src/main.rs:66 | when `get_next_url` returns None, the loop invariant gives every promise of `Crawl`, including that the fetched URLs are exactly the start URL plus the discovered ones |
| `Crawler.Crawl` | src/main.rs:60-78 | the start URL is fetched first, and no URL is fetched twice. Every later URL was found on a page fetched before it. When the loop ends, every link of every successfully fetched page has itself been fetched, so the fetched URLs are exactly the start URL plus every discovered link. The loop exits only when nothing is waiting |
| `Crawler.CrawlAllFetchesFail` | src/main.rs:66-76 | when every fetch fails, the crawl fetches the start URL and nothing else, and ends |
| `Crawler.FirstPageScenario` | src/main.rs:66-72 | from visited `{http://x/a}`, a page linking `http://x/b`, `/c` and `http://x/a` queues only `http://x/b`; the relative link and the self-link are dropped |

## Left out

- `fetch_url` (src/main.rs:6-10): the HTTP request and the awaits are network I/O. `Crawl` takes the outcome of each fetch as the parameter `fetch`.
- HTML parsing (`Html::parse_document`, `Selector::parse("a")`, src/main.rs:14-15) is a foreign library. A page is given directly as its sequence of anchors, each with an optional href.
- Rust's `starts_with` compares UTF-8 bytes; `StartsWithHttp` compares the first four characters. For the ASCII prefix `"http"` the two agree.
- The tokio runtime, the `println!` log lines and the hard-coded start URL (src/main.rs:60-63) are left out; the start URL is a parameter of `Crawl`.
- `HashSet` iteration order is left out. `GetNextUrl` hands out an arbitrary waiting URL, so no FIFO or LIFO order is assumed.
- Crawler.Crawl: termination is proved only for a finite `universe` that contains the start URL and every link of every page fetched from it. Over the real web the loop need not terminate, and a model without this assumption could not be written without an unbounded loop.
- Concurrency, permits and an in-flight counter are not in the code, and are not modelled.
