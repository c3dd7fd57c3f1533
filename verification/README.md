# Sidebar and sitemap transformers of the documentation site

The documentation site of the repository is configured in
`packages/docs/docusaurus.config.ts`. Almost all of that file is inert
configuration data for the site framework. It contains two callbacks with real
logic, and this project models both as pure Dafny functions over sequences of
immutable records.

- **Sidebar transformer** (`sidebarItemsGenerator` of the `packages` docs
  instance). It takes the framework's default sidebar items and does three things:
  - it drops the `category` items whose lower-cased label is `adapters` or `clients`;
  - it prefixes the label of the `plugins` category with a puzzle-piece glyph and a space;
  - it sorts the result by label with `localeCompare(…, {numeric: true})`, the
    JavaScript engine's collation, which the model takes as an abstract comparator `cmp`.

  Module `Sidebar`, entry point `TransformSidebar`.
- **Sitemap transformer** (`createSitemapItems`). It drops every URL that
  contains `/page/`. Every remaining item gets a crawl priority from an ordered
  first-match table of URL prefixes, and all its other fields are kept. Module
  `Sitemap`, entry point `CreateSitemapItems`.

Supporting modules:
- `Strings` has ASCII lower-casing, `startsWith` and `includes`.
- `Seqs` has an order-preserving filter and the subsequence relation that specifies it.
- `Records` holds the opaque bag of extra fields both record shapes carry.

Modelling choices:
- Records. Each record keeps the fields the code reads: `type` becomes `kind`, and
  `label` becomes `caption` because `label` is a Dafny keyword. It also keeps `url`
  and `priority`. All other fields sit in an opaque `extra` map that must pass
  through unchanged.
- Priorities. They are stored as integer tenths: 10 for 1.0, 5 for 0.5.
- The sidebar label is a required string, as the declared type says. The
  sort's `a.label || ''` fallback is then the identity, so the sort key is the label.
- Collation. `localeCompare(…, {numeric: true})` becomes a comparator parameter
  `cmp` that returns a negative, zero or positive number. It is required to be a
  total preorder on labels. The sort is a stable insertion sort against it, the
  behaviour `Array.prototype.sort` has for a consistent comparator.
- The relabel step mutates the item in place. The model returns a new record instead.

Two behaviours of `packages/docs/docusaurus.config.ts` shape the model:
- A category without a label is not modelled. Lines 95 and 101 call
  `toLowerCase` on the label unguarded, and line 8 declares `label` mandatory.
- The comparison at line 109 passes only `numeric: true`, so case handling is
  left to `cmp`.

## Model

| member | source | states |
|---|---|---|
| Strings.Lower | packages/docs/docusaurus.config.ts:95 | lower-casing keeps the length and lower-cases each character in place, leaving no upper-case ASCII letter |
| Strings.LowerIdempotent | packages/docs/docusaurus.config.ts:95 | a property of the ASCII stand-in for `toLowerCase`: its output is a normal form, so lower-casing it again changes nothing |
| Strings.LowerEqualsIgnoringCase | packages/docs/docusaurus.config.ts:95-96 | comparing the lower-cased label with a lower-case word is the same as comparing the label with that word, ignoring ASCII case |
| Strings.StartsWithPointwise | packages/docs/docusaurus.config.ts:277-285 | `startsWith` holds iff the prefix is no longer than the URL and agrees with it character by character; on the ASCII prefixes used, this is what UTF-16 `startsWith` decides |
| Strings.Contains | packages/docs/docusaurus.config.ts:271 | `includes` holds exactly when some window of the URL equals the searched segment |
| Seqs.Filter | packages/docs/docusaurus.config.ts:92-99 | a filter result is a subsequence of the input: every element passes the test, an element is kept iff it is in the input and passes, and a passing element keeps its multiplicity |
| Seqs.FilterUnique | packages/docs/docusaurus.config.ts:270-271 | the filter result is the only subsequence of its length whose elements all pass the test |
| Seqs.FilterAllPass | packages/docs/docusaurus.config.ts:270-271 | filtering a sequence whose elements all pass returns it unchanged |
| Sidebar.IsHiddenIgnoresCase | packages/docs/docusaurus.config.ts:94-96 | the filter's test rejects an item iff it is a `category` whose label equals `adapters` or `clients` ignoring case |
| Sidebar.FilterHidden | packages/docs/docusaurus.config.ts:93-99 | no surviving item is an `adapters`/`clients` category (in any case); every other item survives; non-category items keep their multiplicity; order is kept |
| Sidebar.FilterHiddenIsExact | packages/docs/docusaurus.config.ts:93-99 | the filter removes the hidden categories and nothing more: any equally long order-preserving selection without hidden categories is the filter's result |
| Sidebar.ExampleHidden | packages/docs/docusaurus.config.ts:93-99 | categories labelled `Adapters` and `CLIENTS` are dropped, and a non-category page labelled `adapters` is kept |
| Sidebar.IsPluginsCategoryIgnoresCase | packages/docs/docusaurus.config.ts:101 | the relabel condition holds iff the item is a `category` whose label equals `plugins` ignoring case |
| Sidebar.Relabel | packages/docs/docusaurus.config.ts:100-105 | only a `plugins` category (in any case) changes, and its label becomes glyph + space + old label; `type` and all other fields are unchanged |
| Sidebar.RelabelSettles | packages/docs/docusaurus.config.ts:101-102 | a relabelled item is never the `plugins` category again, and relabelling neither hides nor unhides an item |
| Sidebar.RelabelIdempotent | packages/docs/docusaurus.config.ts:101-102 | a second relabel pass leaves an item as the first pass left it (no double prefix) |
| Sidebar.RelabelAll | packages/docs/docusaurus.config.ts:100-105 | the relabel map keeps length and order, relabels each item in place, and leaves no `plugins` category behind |
| Sidebar.RelabelAllKeepsOthers | packages/docs/docusaurus.config.ts:100-105 | the relabel map keeps the multiplicity of every non-category item |
| Sidebar.Insert | packages/docs/docusaurus.config.ts:106-112 | inserting into a sorted sequence adds exactly that item and keeps it sorted under the comparator |
| Sidebar.Sort | packages/docs/docusaurus.config.ts:106-112 | the sort returns a permutation of its input that is ordered under the label comparator |
| Sidebar.SortSorted | packages/docs/docusaurus.config.ts:106-112 | an already ordered input is returned unchanged, ties included (stability on sorted input) |
| Sidebar.InsertKeepsTies | packages/docs/docusaurus.config.ts:106-112 | inserting an item into a sorted sequence puts it first among the items it ties with and leaves every tie class otherwise in order |
| Sidebar.SortStable | packages/docs/docusaurus.config.ts:106-112 | the sort is stable: for every label, the items tying with it come out in the order they went in |
| Sidebar.TransformSidebar | packages/docs/docusaurus.config.ts:89-113 | the callback's output is ordered under the comparator and is a permutation of the shown items after relabelling |
| Sidebar.TransformSidebarCleans | packages/docs/docusaurus.config.ts:89-113 | the output is no longer than the input and contains neither an `adapters`/`clients` category nor an undecorated `plugins` category |
| Sidebar.TransformSidebarKeepsPages | packages/docs/docusaurus.config.ts:93-99 | every non-category input item appears in the output exactly as often as in the input |
| Sidebar.TransformSidebarRelabelsPlugins | packages/docs/docusaurus.config.ts:100-105 | every `plugins` category of the input appears in the output with the decorated label |
| Sidebar.TransformSidebarStable | packages/docs/docusaurus.config.ts:106-112 | items whose labels tie under the comparator keep the relative order they had after filtering and relabelling |
| Sidebar.TransformSidebarIdempotent | packages/docs/docusaurus.config.ts:89-113 | running the sidebar callback on its own output changes nothing |
| Sitemap.PriorityFor | packages/docs/docusaurus.config.ts:273-287 | every URL gets one of the tiers 1.0, 0.8, 0.7, 0.6, 0.5, 0.4 |
| Sitemap.FirstMatch | packages/docs/docusaurus.config.ts:273-287 | an ordered lookup in a rule table returns the tier of the first matching rule, and the default when no rule matches |
| Sitemap.PriorityIsFirstMatch | packages/docs/docusaurus.config.ts:273-287 | the callback's if/else chain equals a first-match lookup in the table (`/` 1.0; `/docs`, `/packages` 0.8; `/api`, `/rest` 0.7; `/blog` 0.6; `/news` 0.6; `/community` 0.4; default 0.5) |
| Sitemap.PriorityOfMatchingRule | packages/docs/docusaurus.config.ts:273-287 | whichever table row a URL matches decides its priority: at most one row matches, so the order of the rows is immaterial |
| Sitemap.OnlyOneRuleMatches | packages/docs/docusaurus.config.ts:273-287 | no URL satisfies two tests of the chain: `/` is shorter than every prefix, and the prefixes differ in their second character |
| Sitemap.DefaultIffNoRuleMatches | packages/docs/docusaurus.config.ts:273-287 | a URL gets 0.5 exactly when no row of the table matches it |
| Sitemap.ExamplePriorities | packages/docs/docusaurus.config.ts:273-287 | `/`, `/docs/intro`, `/api/foo`, `/blog/post`, `/news/x`, `/community/y`, `/random` get 1.0, 0.8, 0.7, 0.6, 0.6, 0.4, 0.5 |
| Sitemap.AssignPriority | packages/docs/docusaurus.config.ts:289-292 | the copied item keeps its URL and other fields and always carries a priority, one of the six tiers, whatever it had before |
| Sitemap.IsPaginated | packages/docs/docusaurus.config.ts:271 | an item is dropped iff `/page/` occurs at some position of its URL |
| Sitemap.DropPaginated | packages/docs/docusaurus.config.ts:271 | no kept URL contains `/page/`; an item is kept iff it is unpaginated; the result is an order-preserving subsequence no longer than the input |
| Sitemap.DropPaginatedIsExact | packages/docs/docusaurus.config.ts:270-271 | the kept items are exactly the unpaginated ones: any equally long order-preserving selection of unpaginated items is the filter's result |
| Sitemap.ExamplePaginationDropped | packages/docs/docusaurus.config.ts:271 | an input holding only `/docs/page/2` yields no sitemap entry |
| Sitemap.CreateSitemapItems | packages/docs/docusaurus.config.ts:266-294 | the callback's output matches the unpaginated inputs position by position: same URL and other fields, priority overwritten by the URL's tier, never longer than the input; every unpaginated input appears with its new priority |
| Sitemap.CreateSitemapItemsIdempotent | packages/docs/docusaurus.config.ts:266-294 | running the sitemap callback on its own output changes nothing |

## Left out

- The configuration literals (title, i18n, themes, navbar, footer, and the typedoc, OpenAPI, blog and search plugin options) are left out. They are data for the framework and have no behaviour of their own.
- The `async`/`await` plumbing of both hooks and the calls to `defaultSidebarItemsGenerator` and `defaultCreateSitemapItems` are left out. Those are framework functions, so their results are the plain input sequences of the model.
- The `process.env` reads are left out because they are environment I/O.
- Sidebar.TransformSidebar: the collation behind `localeCompare` with `numeric: true` is not modelled. The comparator is a parameter assumed to be a total preorder, so an ordering that depends on the collation itself (such as `2-beta` before `10-beta` before `alpha` before `Zeta`) is not stated.
- Strings.Lower: only ASCII letters are lower-cased, not the full Unicode case mapping of `toLowerCase`. The labels the filter and relabel step compare against are ASCII.
- Sitemap.PriorityFor: priorities are integer tenths, not floating-point numbers.
- The behaviour when a category has no label is not modelled. The source would throw at `toLowerCase` there, and the label is a required field of the record.
