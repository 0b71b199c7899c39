# Quote service: a Dafny model

This project models the request handling of a small quotation service. The
service keeps its quotes in one in-memory array. It answers a paginated
listing, a random pick, a lookup by id, a case-insensitive lookup by category,
the list of distinct categories and a health probe. It accepts new quotes over
`POST /api/quotes`, which are appended with `id = length + 1`.

Layout, one module per file:

- `wrappers.dfy` (`Wrappers`): `Option`.
- `quotes.dfy` (`Quotes`): the `Quote` record, the response datatype with one constructor per status code (`Ok` 200, `Created` 201, `BadRequest` 400, `NotFound` 404 with the echoed id or category), the response bodies, and `Missing` for absent or empty body fields.
- `ascii.dfy` (`Ascii`): `toLowerCase`, restricted to ASCII letters.
- `paging.dfy` (`Paging`): `GET /api/quotes`, with `parseInt(..) || default`, JavaScript's `slice` clamping and `Math.ceil` written out in integers, and the lemmas that pages tile the store.
- `lookup.dfy` (`Lookup`): `/health`, `/api/quotes/random`, `/api/quotes/:id` and `/api/quotes/category/:category`.
- `categories.dfy` (`Categories`): `/api/categories`.
- `store.dfy` (`QuoteStore`): the class `Store` holding `var quotes: seq<Quote>`, and `POST /api/quotes` as its method `Add` (`modifies this`).

The read handlers only compute values in the source, so they are functions over
the store's sequence. The one handler that changes state is a method of the
class. Inputs that come from the runtime are parameters:

- a query or path integer is `Option<int>`, with `None` for `NaN`;
- the random index is a parameter `r` that is below the store's size, or 0 for an empty store, which is what `Math.floor(Math.random() * n)` yields;
- a body field is `Option<string>`;
- the initial quotes go to the constructor, because the data file is not part of this model.

The model keeps the following behaviours of the code as written:

- Random pick on an empty store: the code indexes past the end and sends a 200 with no quote. `RandomQuote` returns `Ok(None)` and does not raise an "empty store" error.
- Add validation: the code sends one message, "Text and author are required", whichever field is missing. It does not name the missing field.
- Negative `page` or `limit`: a negative value is truthy for `|| default`, so the code accepts it. `slice` then counts from the end of the array. The model does the same through `SliceIndex`. `Math.ceil` of a negative quotient is modelled too.

## Model

| member | source | states |
|---|---|---|
| `Lookup.Health` | src/app.js:39-47 | the probe is a 200 with status "healthy" and `quotesLoaded` equal to the number of stored quotes |
| `Paging.OrDefault` | src/app.js:54-55 | `parseInt(x) \|\| d`: an unparsable (`None`) or zero parameter gives the fallback; any other value is kept |
| `Paging.SliceIndex` | src/app.js:60 | `slice`'s index rule: a non-negative index is clamped to the length, a negative one counts back from the end and is clamped at 0 |
| `Paging.JsSlice` | src/app.js:60 | the slice is no longer than the store, holds only stored quotes, is empty when the end position is not past the start, and is `s[min(start,n)..min(end,n)]` for `0 <= start <= end` |
| `Paging.CeilDiv` | src/app.js:66 | the result is the ceiling of `a/b`: for `b > 0` the least `k` with `k*b >= a`; for `b < 0` the least `k` with `k*b <= a` |
| `Paging.Window` | src/app.js:57-60 | for `page, limit >= 1` the page shows `s[min((page-1)*limit,n)..min(page*limit,n)]`, at most `limit` quotes, none when the start is at or past the end; for any page and limit it holds only stored quotes |
| `Paging.ListQuotes` | src/app.js:53-69 | always 200; echoed page and limit are the values used (1 and 11 for missing, unparsable or zero); `total = \|s\|`; `totalPages` is the ceiling of total/limit and is non-negative for a positive limit; the list is the `Window` of the echoed page and limit |
| `Paging.PagesAdjacent` | src/app.js:57-60 | pages p and p+1 of one size concatenate to the window `[(p-1)*l, (p+1)*l)`: they meet with no gap and no overlap |
| `Paging.PagesUpToPrefix` | src/app.js:57-60 | pages 1..k of size l, concatenated, are the first `min(k*l, n)` quotes |
| `Paging.AllPagesCoverStore` | src/app.js:57-66 | concatenating pages 1..totalPages gives back the whole store |
| `Paging.PastLastPageEmpty` | src/app.js:57-66 | every page after totalPages is empty |
| `Lookup.RandomQuote` | src/app.js:75-79 | always 200; for a store of n > 0 quotes and index r < n the quote is `s[r]` and so a stored quote; an empty store gives no quote |
| `Lookup.RandomFromSingleton` | src/app.js:75-79 | a one-quote store always returns that quote |
| `Lookup.FindIndex` | src/app.js:87 | `find` by id: a returned position holds the id and no earlier position does; none is returned exactly when no quote has the id |
| `Lookup.ById` | src/app.js:85-97 | 200 exactly when the id parsed and some quote has it, and then the body is the first such quote; otherwise 404 "Quote not found" echoing the parsed id (null for NaN) |
| `Lookup.ByIdStableUnderAppend` | src/app.js:87 | appending a record does not change the answer for an id that was already found |
| `Lookup.FilterCategory` | src/app.js:105-107 | the filter is a subsequence of the store, holds only quotes of the category, and holds each of them exactly as often as the store does |
| `Lookup.SubsequenceMultiset` | src/app.js:105-107 | a subsequence holds no element more often than the sequence it was taken from |
| `Lookup.FilterCategoryUnique` | src/app.js:105-107 | any subsequence of the store with exactly the category's quotes at the store's multiplicities is the filter: the filter is exactly the matching quotes in store order |
| `Lookup.ByCategory` | src/app.js:103-121 | 200 exactly when some quote's lowercased category equals the lowercased parameter, with the lowercased parameter, the filtered list and `count` equal to its length; otherwise 404 "No quotes found for this category" echoing the lowercased parameter |
| `Lookup.ByCategoryCaseInsensitive` | src/app.js:104-106 | two parameters that lowercase alike get identical responses |
| `Lookup.ByCategoryOfLowered` | src/app.js:104-106 | a parameter and its lowercase form get identical responses |
| `Lookup.MotivationAnyCase` | src/app.js:104-106 | "MOTIVATION" and "motivation" get identical responses |
| `Lookup.UnknownCategory` | src/app.js:115-120 | a category no quote has gives 404 with the error text and `category: "nonexistent"` |
| `Ascii.LowerChar` | src/app.js:104 | a lowered character is never an upper-case letter; an upper-case letter moves to its lower-case counterpart and anything else is kept |
| `Ascii.Lower` | src/app.js:104 | lowering keeps the length, leaves no upper-case letter, keeps every other character and maps each upper-case letter to its lower-case counterpart |
| `Ascii.LowerOfLowercase` | src/app.js:104-106 | a string without upper-case letters is its own lowercase form |
| `Ascii.LowerIdempotent` | src/app.js:104-106 | lowering twice is lowering once |
| `Categories.CategoryNames` | src/app.js:128 | `quotes.map(q => q.category)`: one name per quote, in store order |
| `Categories.FirstIndex` | src/app.js:128 | the position of the first occurrence: it holds the name and no earlier position does |
| `Categories.FirstIndexAppend` | src/app.js:128 | appending a name does not move the first occurrence of a name already present |
| `Categories.Distinct` | src/app.js:128 | the Set spread has no duplicates, holds exactly the names of the input, and lists them in order of first occurrence |
| `Categories.AllCategories` | src/app.js:127-133 | always 200; the list has no duplicates, holds exactly the stored categories (case-sensitive), comes in order of first occurrence, and `count` is its length |
| `Categories.DistinctNoLonger` | src/app.js:128 | there are never more categories than quotes |
| `Categories.DistinctOfDistinct` | src/app.js:128 | names that are already distinct come back unchanged and in the same order |
| `QuoteStore.NewQuote` | src/app.js:140-153 | 400 "Text and author are required" exactly when text or author is missing or empty; otherwise 201 with id `count + 1`, the given text and author, and the category given or "general" when it is missing or empty |
| `QuoteStore.ByIdSequential` | src/app.js:85-97 | with ids 1..n in order, id k in 1..n finds the k-th quote and any other id is not found |
| `QuoteStore.AppendKeepsSequential` | src/app.js:149-155 | appending a record with id n+1 to ids 1..n gives ids 1..n+1, and the new id finds the new record |
| `QuoteStore.Store.constructor` | src/app.js:29 | the store starts with the loaded quotes |
| `QuoteStore.Store.Add` | src/app.js:139-157 | a rejected body leaves the store unchanged; an accepted one appends exactly the returned record, keeping all earlier records, so it is the new last element and `quotesLoaded` grows by one; ids 1..n become 1..n+1 and the new id finds the record; every id found before is found the same afterwards |
| `QuoteStore.CreateThenFind` | src/app.js:139-157 | with ids 1..n, the body {"Test quote for testing", "Test Author", "testing"} gets 201 with id n+1, a lookup by that id returns it, bodies without text or without author get 400, and the store then holds n+1 quotes |

## Left out

- Express plumbing is not modelled: middleware (`cors`, JSON body parsing, static files), `app.listen` and console logging are library I/O.
- Route matching and the catch-all "Route not found" handler are not modelled, because they are Express behaviour. Each route is one function, or the method `Add`.
- The clock and process values of `/health` (timestamp, uptime, environment) are left out. Only `quotesLoaded` is modelled.
- `Math.random()` is not modelled: the index it produces is the parameter `r`. Floating-point arithmetic is not modelled: page arithmetic and `Math.ceil` are exact integer arithmetic, so precision loss beyond 2^53 is not captured.
- Full `parseInt` is not modelled (whitespace, radix prefixes, trailing characters). The parsed value is an `Option<int>`.
- Full Unicode `toLowerCase` is left out. `Ascii.Lower` lowers only `A`-`Z`.
- `Missing` covers only an absent or empty string. Other falsy JSON values (`0`, `false`, `null`) are not modelled.
- Loading `./data/quotes.json` is not modelled: that file is not part of this model, and the constructor takes the initial quotes.
- Concurrency is not modelled. Requests run one at a time on a single thread, so `Add`'s read of the length and its append cannot interleave with another request.
- The browser client `public/script.js` is DOM, `fetch`, timers and clipboard code, and is not modelled.
- `Lookup.RandomQuote`: uniformity of the draw is not stated, because the model does not treat randomness as probabilistic.
