# News, contact and team logic of the Relevant Research site, in Dafny

This project models the parts of the marketing site that hold sequential logic.
They are:

- **The news enrichment script** (`scripts/generate-news.js`).
  - `extractMetadata` reads each article's page and takes a title, a description and an image from it. Each field comes from the first of two patterns that matched, with a default.
  - It trims and decodes the text and derives the domain from the hostname.
  - When the page cannot be read, it builds a fallback record whose title comes from the URL path.
  - `generateStaticNews` enriches every article in order, pausing between requests, counts successes and fallbacks, and writes the result.
- **The paginated news list** (`app/news/page.tsx`): five articles per page, the slice of the current page, the page-link list with ellipses, and the Previous/Next clamps.
- **The contact endpoint** (`pages/api/contact.ts`). It checks the HTTP method, the required fields and the reCAPTCHA token in that order, and then answers.
- **The error boundary** (`components/error-boundary.tsx`): a class whose `{hasError, error}` state is set when a child throws and cleared by `resetError`. Its render selects the fallback view.
- **The team grid** (`components/team/team-grid.tsx`): members whose `isActive` is not `false`, shown as cards numbered by their position among the shown members, or an empty-state message.

The JavaScript built-ins the code relies on are modelled in `js_strings.dfy` and `js_values.dfy`:

- `trim`, with the ECMAScript white-space and line-terminator set;
- global and first-occurrence `replace`;
- `split` and `join` on one character;
- `toUpperCase`;
- truthiness, property reads and object spread.

Files, one module each:

| file | module | models |
|---|---|---|
| `wrappers.dfy` | `Wrappers` | `Option` and the `\|\|` choice between two optional values |
| `js_values.dfy` | `JsValues` | JSON values, truthiness, property read, `{...a, ...b}` |
| `js_strings.dfy` | `JsStrings` | the string built-ins above |
| `news_metadata.dfy` | `NewsMetadata` | `extractMetadata` |
| `news_batch.dfy` | `NewsBatch` | the `generateStaticNews` loop, as a method |
| `news_pagination.dfy` | `NewsPagination` | page count, page slice, `getPageNumbers` as a method, navigation, the rendered list |
| `contact_api.dfy` | `ContactApi` | `handler` as a function from request to reply |
| `error_boundary.dfy` | `ErrorBoundaries` | `ErrorBoundary` as a class |
| `team_grid.dfy` | `TeamGrid` | the active-member filter and the grid/empty-state choice |

Two behaviours of the code are worth stating up front, and the model follows the code in both:

- **An extracted title may be empty.** A title capture made only of white space trims to `""`. `"Article"` is substituted only when no pattern matched, and on the fallback path. `NewsMetadata.BlankCaptureGivesEmptyTitle` shows this.
- **`publishDate` is the date of the call.** It is never read from the page. Each call reads the clock itself, so a run that crosses midnight (UTC) stamps its later records with the later date; `NewsBatch.PublishDateIsCallDate` states this.

## Model

| member | source | states |
|---|---|---|
| `Wrappers.OrElse` | scripts/generate-news.js:36-40 | `a \|\| b` on two optional captures: the first one when it matched, otherwise the second |
| `JsValues.Get` | pages/api/contact.ts:9 | reading a property gives its value exactly when the key is present, and `undefined` otherwise |
| `JsValues.Spread` | scripts/generate-news.js:134-137 | `{...item, ...metadata}` has the keys of both; the metadata's value wins on a clash; every other item field is kept |
| `JsStrings.TrimStart` | scripts/generate-news.js:65 | the result is a suffix of the input; everything removed is white space; the result does not start with white space |
| `JsStrings.TrimEnd` | scripts/generate-news.js:65 | the result is a prefix of the input; everything removed is white space; the result does not end with white space |
| `JsStrings.Trim` | scripts/generate-news.js:65 | the result is the input with leading and trailing white space removed, and it neither starts nor ends with white space |
| `JsStrings.ReplaceAll` | scripts/generate-news.js:66-68 | a global replacement never lengthens the text when the replacement is no longer than the pattern |
| `JsStrings.ReplaceAllAbsent` | scripts/generate-news.js:66-68 | replacing a pattern that does not occur leaves the text unchanged |
| `JsStrings.ReplaceAllHead` | scripts/generate-news.js:66-68 | the scan runs left to right: at an occurrence the replacement is emitted and the occurrence is skipped, otherwise one character is copied |
| `JsStrings.ReplaceAllPrefix` | scripts/generate-news.js:66-68 | a prefix of the output that shares no character with the replacement was already a prefix of the input |
| `JsStrings.ReplaceAllRemovesAll` | scripts/generate-news.js:66-68 | when the replacement shares no character with the pattern, no occurrence of the pattern is left |
| `JsStrings.ReplaceCharPointwise` | scripts/generate-news.js:97-98 | replacing one character globally rewrites exactly the positions holding that character and keeps the length |
| `JsStrings.IndexOf` | scripts/generate-news.js:61 | the position found is the first occurrence; there is none when the pattern does not occur |
| `JsStrings.ReplaceFirst` | scripts/generate-news.js:61 | a string pattern replaces only its first occurrence; the text is unchanged when the pattern is absent |
| `JsStrings.Split` | scripts/generate-news.js:91 | `split` yields at least one part; no part contains the separator; joining the parts gives back the input |
| `JsStrings.SplitPrefix` | scripts/generate-news.js:99 | text without the separator that is put in front of a string joins the first part of that string's split |
| `JsStrings.SplitJoin` | scripts/generate-news.js:99-101 | splitting joined parts that do not contain the separator gives back the parts |
| `JsStrings.ToUpper` | scripts/generate-news.js:100 | lower-case ASCII letters map to their capitals and every other character is left as it is |
| `NewsMetadata.DecodeEntities` | scripts/generate-news.js:66-68 | decoding never lengthens the text |
| `NewsMetadata.ExtractMetadata` | scripts/generate-news.js:4-112 | rejects exactly when the URL does not parse; `error` is set exactly when the page was not fetched; the domain is the hostname without its first `www.` on both paths; `publishDate` is the date the call read; the fallback has no image, a non-empty title and the description `Article from <domain> - Content temporarily unavailable` |
| `NewsMetadata.FieldPrecedence` | scripts/generate-news.js:36-77 | title: `<title>`, then `og:title`, then `"Article"`; description: `name=description`, then `og:description`, then `"No description available"`; image: `og:image`, then `twitter:image`, then `null`; the image is trimmed but not decoded |
| `NewsMetadata.DecodeIsSequential` | scripts/generate-news.js:66-68 | the three references are decoded one after the other, so `&amp;quot;` becomes `&quot;` |
| `NewsMetadata.DecodeWithoutAmpersand` | scripts/generate-news.js:63-76 | text without `&` is left as it is by the decoding |
| `NewsMetadata.DecodeLeavesNoApostropheReference` | scripts/generate-news.js:68 | no `&#x27;` is left after decoding |
| `NewsMetadata.DomainRemovesFirstWww` | scripts/generate-news.js:61 | `www.` is removed even when it is not at the start: `blog.www.example.com` gives `blog.example.com` |
| `NewsMetadata.BlankCaptureGivesEmptyTitle` | scripts/generate-news.js:63-69 | a title capture made only of spaces gives the empty title, not `"Article"` |
| `NewsMetadata.NonEmptyParts` | scripts/generate-news.js:91 | `filter(Boolean)` keeps exactly the non-empty segments |
| `NewsMetadata.NonEmptyPartsSnoc` | scripts/generate-news.js:91 | the filter keeps order: a part appended to the input is appended to the result exactly when it is not empty |
| `NewsMetadata.LastSegmentIsLastNonEmptyPart` | scripts/generate-news.js:91-96 | the segment the fallback title comes from is the last non-empty part of the path: some non-empty part, with only empty parts after it |
| `NewsMetadata.NoSegmentsIffAllPartsEmpty` | scripts/generate-news.js:91-95 | no segment is left, and the title stays `"Article"`, exactly when every part of the path is empty |
| `NewsMetadata.CapitalizeAll` | scripts/generate-news.js:100 | `map` keeps the number of words |
| `NewsMetadata.CapitalizeAfterSpaces` | scripts/generate-news.js:99-101 | reference definition: a character is upper-cased exactly when it starts the text or follows a space |
| `NewsMetadata.JoinConsHead` | scripts/generate-news.js:101 | joining words whose first word starts with a character puts that character first |
| `NewsMetadata.TitleCaseGeneral` | scripts/generate-news.js:99-101 | split, capitalize each word and join agrees with the reference definition |
| `NewsMetadata.TitleCaseCapitalizesWordStarts` | scripts/generate-news.js:99-101 | title-casing keeps the length and upper-cases exactly the first character and every character after a space |
| `NewsMetadata.CleanTailLength` | scripts/generate-news.js:102 | the length of the longest suffix free of `.` and `/`: everything in it is neither, and the character before it is one of them |
| `NewsMetadata.StripExtension` | scripts/generate-news.js:102 | either the text ends in `.` followed by one or more characters other than `/` and `.`, and exactly that is cut; or it has no such ending and is unchanged |
| `NewsMetadata.FallbackTitle` | scripts/generate-news.js:94-106 | the fallback title is never empty, and it is `"Article"` when the path has no segments |
| `NewsMetadata.FallbackTitleHasNoSeparators` | scripts/generate-news.js:96-98 | a title made up from the path contains no `-` and no `_` |
| `NewsMetadata.PathSegmentsExample` | scripts/generate-news.js:91 | `/articles/our-big_day.md` has the segments `articles` and `our-big_day.md` |
| `NewsMetadata.SpacesExample` | scripts/generate-news.js:97-98 | `our-big_day.md` becomes `our big day.md` |
| `NewsMetadata.TitleCaseExample` | scripts/generate-news.js:99-101 | `our big day.md` becomes `Our Big Day.md` |
| `NewsMetadata.StripExtensionExample` | scripts/generate-news.js:102 | `Our Big Day.md` becomes `Our Big Day` |
| `NewsMetadata.FallbackTitleExample` | scripts/generate-news.js:91-106 | the path `/articles/our-big_day.md` gives the title `Our Big Day` |
| `NewsBatch.MetadataRecord` | scripts/generate-news.js:79-85 | the metadata object has an `error` key exactly on the fallback path |
| `NewsBatch.ExtractAll` | scripts/generate-news.js:129-132 | the batch gets every metadata exactly when every call resolves, and then the i-th metadata is the i-th call's result |
| `NewsBatch.PublishDateIsCallDate` | scripts/generate-news.js:79-112 | the metadata merged into each record carries the date its own call read |
| `NewsBatch.ScriptRejectsOnBadUrl` | scripts/generate-news.js:86-90 | with `extractMetadata` as the extractor, a call rejects exactly when its URL does not parse, so the batch fails exactly when some URL does not parse |
| `NewsBatch.MapPairs` | scripts/generate-news.js:129-137 | pairwise map: one result per pair, in order, each the function applied to its own pair |
| `NewsBatch.EnrichAll` | scripts/generate-news.js:129-137 | one output record per input, in input order, each the input overridden by its own metadata |
| `NewsBatch.FallbackCount` | scripts/generate-news.js:139-141 | the fallback count never exceeds the number of records |
| `NewsBatch.FirstRejected` | scripts/generate-news.js:170-173 | the first rejecting record: every earlier call resolved |
| `NewsBatch.ProcessArticles` | scripts/generate-news.js:129-152 | the loop, for any extractor: it stops at the first rejecting record, with the requests made so far as its trace; otherwise its records are the enriched list, its fallback count is the number of flagged metadata, its success count is the rest, and its trace is n requests paced by n−1 pauses |
| `NewsBatch.GenerateStaticNews` | scripts/generate-news.js:116-173 | see the notes below the table |
| `NewsBatch.PacedTraceShape` | scripts/generate-news.js:147-151 | requests alternate with 3000 ms pauses and the k-th request is for record k; n requests come with n−1 pauses, none before the first and none after the last |
| `NewsBatch.FailedFetches` | scripts/generate-news.js:28-31 | counts the records whose fetch threw or answered a non-OK status; never more than the number of records |
| `NewsBatch.FallbackCountIsFailedFetches` | scripts/generate-news.js:139-145 | the reported fallback count is exactly the number of failed fetches |
| `NewsBatch.EnrichOverrides` | scripts/generate-news.js:134-137 | the enriched record's keys are the item's plus the metadata's; title, domain and publish date come from the metadata; the item's other fields are kept |
| `NewsBatch.ItemErrorSurvivesSuccess` | scripts/generate-news.js:134-145 | an input that already has an `error` field keeps it when its metadata succeeded, though it is counted as a success |
| `NewsPagination.TotalPages` | app/news/page.tsx:134-137 | the page count is 0 exactly for an empty list; otherwise it is the least T with n ≤ 5T |
| `NewsPagination.SliceIndex` | app/news/page.tsx:140 | `slice` clamps a non-negative index to the length and counts a negative one from the end |
| `NewsPagination.JsSlice` | app/news/page.tsx:140 | `slice` is the range between the two resolved indices, or empty when they cross |
| `NewsPagination.AllPages` | app/news/page.tsx:147-150 | the list of pages 1..T, in order |
| `NewsPagination.GetPageNumbers` | app/news/page.tsx:143-176 | the pushed entries are exactly the page list of the matching case |
| `NewsPagination.CurrentNewsBounds` | app/news/page.tsx:138-140 | page p ≤ T shows items from 5(p−1) up to min(5p, n), between one and five of them; a page past the last one shows nothing |
| `NewsPagination.PagesUpToIsPrefix` | app/news/page.tsx:138-140 | pages 1..k together show the first min(5k, n) items in order |
| `NewsPagination.PagesPartitionItems` | app/news/page.tsx:137-140 | pages 1..T together show every article exactly once, in order |
| `NewsPagination.AllPagesShape` | app/news/page.tsx:147-150 | with at most five pages, all of them are listed in order and no ellipsis appears |
| `NewsPagination.HeadWindowShape` | app/news/page.tsx:152-157 | `[1,2,3,4,…,T]` is increasing within 1..T and its ellipsis stands for hidden pages |
| `NewsPagination.TailWindowShape` | app/news/page.tsx:158-163 | `[1,…,T−3,T−2,T−1,T]` is increasing within 1..T and its ellipsis stands for hidden pages |
| `NewsPagination.MiddleWindowShape` | app/news/page.tsx:164-172 | `[1,…,p−1,p,p+1,…,T]` is increasing within 1..T and both ellipses stand for hidden pages |
| `NewsPagination.PageListShape` | app/news/page.tsx:143-176 | for 1 ≤ p ≤ T: at most 7 entries; pages 1, T and p shown; numbers strictly increasing within 1..T; adjacent numbers are consecutive pages; each ellipsis sits between two numbers with a page missing between them |
| `NewsPagination.PageListDistinct` | app/news/page.tsx:247-261 | no page is linked twice, so exactly one link is marked active |
| `NewsPagination.Navigate` | app/news/page.tsx:236-270 | Previous goes to page p−1 and stays on page 1; Next goes to page p+1 and stays on page T; within 1..T neither leaves the range; a link goes to its own page |
| `NewsPagination.BrowseStaysInRange` | app/news/page.tsx:133-270 | from page 1, any sequence of clicks keeps the current page within 1..T (page 1 when the list is empty) |
| `NewsPagination.View` | app/news/page.tsx:222-299 | "No articles found" exactly for an empty list; otherwise the current page's slice, with a pagination bar exactly when T > 1; Previous is disabled exactly on page 1 and Next exactly on page T |
| `NewsPagination.BrowsedViewShowsArticles` | app/news/page.tsx:222-228 | however the reader clicks, a non-empty list shows between one and five articles |
| `ContactApi.Member` | pages/api/contact.ts:31-32 | a property of the verifier's answer exists only on an object that has it, and reading it gives that object's value |
| `ContactApi.RejectionBody` | pages/api/contact.ts:32 | the message is `reCAPTCHA failed`; `errorCodes` is present exactly when the answer had `error-codes`, and it carries that value |
| `ContactApi.Handle` | pages/api/contact.ts:3-49 | see the notes below the table |
| `ContactApi.MethodCheckedFirst` | pages/api/contact.ts:4-6 | a method other than POST gets the same reply whatever the body, secret or verifier |
| `ContactApi.FieldsCheckedBeforeToken` | pages/api/contact.ts:12-18 | missing fields get the same reply whatever the secret or verifier |
| `ContactApi.VerificationSkipped` | pages/api/contact.ts:18-21 | the demo token, or an unconfigured secret, gives 200 whatever the verifier would say |
| `ContactApi.SubjectIgnored` | pages/api/contact.ts:9-14 | `subject` never affects the reply: its presence or value changes no reply; it is only logged, and logging is left out |
| `ErrorBoundaries.Step` | components/error-boundary.tsx:85-101 | a throw sets `hasError` and records the error; a reset restores the initial state |
| `ErrorBoundaries.ErrorBoundary.constructor` | components/error-boundary.tsx:80-83 | the initial state is `hasError = false, error = null`, and it shows the children |
| `ErrorBoundaries.ErrorBoundary.DerivedStateFromError` | components/error-boundary.tsx:85-87 | the derived state has `hasError` and the caught error; it shows the fallback exactly when the error is truthy |
| `ErrorBoundaries.ErrorBoundary.ApplyDerivedState` | components/error-boundary.tsx:85-87 | the new state is the throw transition of the old one; nothing else changes |
| `ErrorBoundaries.ErrorBoundary.ComponentDidCatch` | components/error-boundary.tsx:89-97 | `onError` receives the error exactly when it was passed; the state is untouched |
| `ErrorBoundaries.ErrorBoundary.ResetError` | components/error-boundary.tsx:99-101 | the new state is the initial one, which shows the children |
| `ErrorBoundaries.ErrorBoundary.Render` | components/error-boundary.tsx:103-115 | the fallback is rendered exactly when `hasError` and the error is truthy, and it receives the error; the component is `props.fallback` when given and `DefaultErrorFallback` otherwise |
| `ErrorBoundaries.ResetIdempotent` | components/error-boundary.tsx:99-101 | a reset from any state gives the initial state, and a second reset changes nothing |
| `ErrorBoundaries.FallbackIffLastThrowTruthy` | components/error-boundary.tsx:80-115 | after any history, `hasError` holds exactly when the last event was a throw; the fallback shows exactly when that thrown value is truthy |
| `TeamGrid.ActiveMembers` | components/team/team-grid.tsx:21-24 | a member is kept exactly when it is in the input and its `isActive` is not `false`; the result is no longer than the input |
| `TeamGrid.ShownPositions` | components/team/team-grid.tsx:22 | the positions of the shown members, strictly increasing, covering every shown member |
| `TeamGrid.ActiveMembersSnoc` | components/team/team-grid.tsx:22 | appending a member appends it to the result exactly when it is shown |
| `TeamGrid.ActiveMembersArePositions` | components/team/team-grid.tsx:22 | the filter keeps order: its i-th member is the member at the i-th shown position, so it is a subsequence of the input |
| `TeamGrid.ActiveMembersKeepsAllShown` | components/team/team-grid.tsx:22 | a list of shown members passes the filter unchanged |
| `TeamGrid.ActiveMembersIdempotent` | components/team/team-grid.tsx:21-24 | filtering twice gives the same list as filtering once |
| `TeamGrid.RenderGrid` | components/team/team-grid.tsx:26-66 | "No Team Members Found" exactly when no member is shown; otherwise one card per shown member, in order, the i-th card with index i |
| `TeamGrid.CardIndexIsFilteredPosition` | components/team/team-grid.tsx:58-64 | each card's `index` is its position among the shown members; its member sits at an input position no smaller than that index |

`extractMetadata` enters the batch as a parameter of type `NewsBatch.Extractor`, a function from a record's response to its metadata or a rejection. `NewsBatch.GenerateStaticNews` passes `NewsBatch.ScriptExtractor`, which is `NewsMetadata.ExtractMetadata`. The loop, `NewsBatch.ProcessArticles`, is proved for every extractor. The facts that hold only for `extractMetadata` are separate lemmas: `NewsBatch.FallbackCountIsFailedFetches`, `NewsBatch.ScriptRejectsOnBadUrl` and `NewsBatch.PublishDateIsCallDate`.

Definitions the rows above state properties of. They have no contract of their own; the member named after each one states what it does.

- `JsValues.Truthy` and `JsValues.TruthyProp` (pages/api/contact.ts:12, pages/api/contact.ts:31, components/error-boundary.tsx:104): JavaScript truthiness of a value and of a property read; used by `ContactApi.Handle` and `ErrorBoundaries.ErrorBoundary.Render`.
- `JsStrings.Join` (scripts/generate-news.js:101): `join` with a one-character separator; `JsStrings.Split` and `JsStrings.SplitJoin` state that it inverts `split`.
- `NewsMetadata.CleanText` (scripts/generate-news.js:64-68, scripts/generate-news.js:71-75): trim, then decode; `NewsMetadata.FieldPrecedence` and `NewsMetadata.BlankCaptureGivesEmptyTitle`.
- `NewsMetadata.Domain` (scripts/generate-news.js:61, scripts/generate-news.js:90): the hostname without its first `www.`; `JsStrings.ReplaceFirst` and `NewsMetadata.DomainRemovesFirstWww`.
- `NewsMetadata.Extracted` (scripts/generate-news.js:63-85) and `NewsMetadata.Fallback` (scripts/generate-news.js:89-112): the two metadata objects; `NewsMetadata.ExtractMetadata` and `NewsMetadata.FieldPrecedence`.
- `NewsMetadata.PathSegments` (scripts/generate-news.js:91): `split('/')` then `filter(Boolean)`; `NewsMetadata.NonEmptyParts`, `NewsMetadata.LastSegmentIsLastNonEmptyPart` and `NewsMetadata.PathSegmentsExample`.
- `NewsMetadata.SpacesForSeparators` (scripts/generate-news.js:97-98): both replaces; `JsStrings.ReplaceCharPointwise`, `NewsMetadata.FallbackTitleHasNoSeparators` and `NewsMetadata.SpacesExample`.
- `NewsMetadata.Capitalize` and `NewsMetadata.TitleCase` (scripts/generate-news.js:99-101): split, capitalize each word, join; `NewsMetadata.TitleCaseGeneral` and `NewsMetadata.TitleCaseCapitalizesWordStarts`.
- `NewsBatch.Enrich` (scripts/generate-news.js:134-137): `{...item, ...metadata}`; `NewsBatch.EnrichOverrides` and `NewsBatch.ItemErrorSurvivesSuccess`.
- `NewsBatch.PacedTrace` (scripts/generate-news.js:147-151): requests with pauses between them; `NewsBatch.PacedTraceShape`.
- `NewsPagination.CurrentNews` (app/news/page.tsx:138-140): the slice of the current page; `NewsPagination.CurrentNewsBounds`, `NewsPagination.PagesUpToIsPrefix` and `NewsPagination.PagesPartitionItems`.
- `NewsPagination.PageList` (app/news/page.tsx:147-172): the four-case page list; `NewsPagination.GetPageNumbers`, `NewsPagination.PageListShape` and `NewsPagination.PageListDistinct`.
- `NewsPagination.Clickable` and `NewsPagination.Browse` (app/news/page.tsx:236-276): which clicks can happen and the page after a sequence of clicks; `NewsPagination.BrowseStaysInRange` and `NewsPagination.BrowsedViewShowsArticles`. `Clickable` makes a click on a disabled Previous or Next (the `pointer-events-none` class, app/news/page.tsx:239-243 and app/news/page.tsx:272-276) do nothing. The page would be the same if the click went through, because `Math.max(0, 1)` and `Math.min(T + 1, T)` give back the page the click started on, as `NewsPagination.Navigate` states.
- `ContactApi.HasRequiredFields`, `ContactApi.SecretConfigured` and `ContactApi.IsDemoToken` (pages/api/contact.ts:12, pages/api/contact.ts:18-20): the three checks of the handler; `ContactApi.Handle`.
- `TeamGrid.IsShown` (components/team/team-grid.tsx:22): `isActive !== false`; `TeamGrid.ActiveMembers`.
- `ErrorBoundaries.Run` and `ErrorBoundaries.ShowsFallback` (components/error-boundary.tsx:104): the state after a history of events and the render test; `ErrorBoundaries.FallbackIffLastThrowTruthy`.

Notes on the two rows whose contracts are too long for the table:

- **`NewsBatch.GenerateStaticNews`**
  - An unreadable input gives `[]`.
  - A rejected call gives `[]`, with the trace ending at that request.
  - Otherwise the trace is n requests paced by n−1 pauses.
  - A failed write gives `[]`. A successful write returns the enriched records and a summary with succeeded + fallbacks = total, where fallbacks is the number of flagged metadata.
- **`ContactApi.Handle`**
  - The only statuses are 200, 400, 405 and 500.
  - 405 exactly for a method other than POST.
  - 400 "Missing required fields" exactly when `name`, `email` or `message` is falsy.
  - 200 exactly when the token is the string `demo_token`, or the secret is unset or empty, or the verifier answered with a truthy `success`. The body is then `{success: true, message: "Message sent successfully!"}`.
  - 500 exactly when verification was needed and the call threw or answered `null`.
  - 400 "reCAPTCHA failed" exactly in the remaining case.

## Left out

- Network I/O: the page `fetch` with its browser headers, and the reCAPTCHA `fetch`. They are inputs instead:
  - the page outcome is `Fetch` (threw, non-OK status, or a page with one optional capture per pattern);
  - the verifier outcome is `Verification` (threw, or the parsed answer).
- The regular expressions that find the captures in the HTML. Each pattern's first capture is an input. Only the extension pattern `\.[^/.]+$` is modelled, as `NewsMetadata.StripExtension`.
- URL parsing (the URL Standard's URL parser). Each record's URL comes as a parsed hostname and pathname, or as "does not parse".
- Reading and parsing `data/news.json`. The parsed array is an input, `None` when reading or parsing throws. It is taken to be an array of objects. A file that parses to something else, or an array holding `null`, also ends the run with `[]` in the code, through the `for…of` or the `item.url` read; those shapes are not modelled.
- Writing `data/enriched-news.json`. A flag says whether the write succeeded.
- `setTimeout` and async scheduling. Only the order of requests and pauses is modelled, as a trace.
- Console output, including the development-only logging in `componentDidCatch`.
- The clock. The date each `extractMetadata` call reads is part of what that call observes (`Response.today`), because `new Date()` cannot be modelled. `formatDate` is left out for the same reason and because it depends on the locale.
- JSX, styling and animation. The views are datatypes that say which branch renders and with which data.
- `JsStrings.ToUpper`: only ASCII letters are upper-cased, where `toUpperCase` follows Unicode case mapping (which also maps `ß` to `SS`). The model has no Unicode tables.
- JSON numbers are reals, so `NaN` is not representable; no modelled decision depends on it.
- A request whose body is `undefined` makes the destructuring throw before the `try`. The framework then answers; that answer is not modelled. The body is always an object here.
- `ContactApi.Handle`: the request to the verifier, with the secret and token in its query string, is not modelled.
- Thrown `undefined` in the error boundary. The caught error is a JSON value, and a thrown `undefined` is represented by `null`.
- `React.ErrorInfo` passed to `onError`. Only the error argument is recorded.
- `useMemo` caching in the team grid. The filter is recomputed, which gives the same list.
