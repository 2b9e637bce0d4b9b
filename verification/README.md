# Library catalog: a Dafny model

This project models the logic of a small single-page library application. The
application keeps a catalog of books in a Redux store and lets the user browse,
search, view and add books. The model covers five parts:

- the store's seed state and its three reducers: `addBook`, `updateBook` and
  `deleteBook` (`BooksSlice`);
- the browse page's category-then-search filter, its filter state and the
  100-character description preview (`BrowseBooks`);
- the details page's lookup by id, star row and related-books strip
  (`BookDetails`);
- the home page's "Popular Books" list and the counts on its category cards
  (`Home`);
- the add-book form's validator, its input and reset edits, and submission
  into the store (`AddBookForm`).

Everything is a pure function over immutable values. A `Book` is a datatype.
The catalog is a `seq<Book>`, and a reducer maps the old `State` to a new one.
Three browser-side inputs become explicit parameters:

- `Date.now()` becomes `now: int`;
- the route's `parseInt(id)` becomes `Option<int>`, where `None` stands for
  `NaN`, which equals no id;
- a missing route category becomes `""`.

Ratings are `real`. Shared helpers sit in four small modules:

- `Text`: `trim`, ASCII `toLowerCase` and `includes`;
- `Seqs`: `filter`, `slice(0, n)` and subsequences;
- `Books`: the records;
- `Wrappers`: `Option`.

`Array.prototype.sort` has been required to be stable since the 2019 edition of
ECMA-262. `Home.SortByRating` is therefore a stable insertion sort on descending
rating. `Home.StableSortIsUnique` proves that every stable descending sort of
the same books yields this same sequence.

## Model

Three helpers carry no contract beyond, at most, a length bound, because each is a direct
transcription of a JavaScript built-in or test. Their meaning is proved in a
separate lemma: `Text.Contains` (`String.prototype.includes`) in
`Text.ContainsIff`, `Seqs.Filter` (`Array.prototype.filter`) in
`Seqs.FilterMembers` and `Seqs.FilterMultiset`, and `AddBookForm.IsValid` (the
empty error map) in `AddBookForm.ValidIff`.

| member | source | states |
|---|---|---|
| BooksSlice.InitialStateFacts | src/store/booksSlice.js:9-83 | The seed catalog has 8 books with ids 1 to 8, so its ids are distinct, and there are 6 categories |
| BooksSlice.InitialSciFi | src/store/booksSlice.js:28-81 | Exactly three seed books are "Sci-Fi": 1984, Dune and Foundation, in seed order |
| BooksSlice.AddBook | src/store/booksSlice.js:87-94 | The result is one longer and its tail is the old list. The new head has id `now` and rating 0 whatever the payload's rating. Its other fields are copied from the payload. The categories are unchanged |
| BooksSlice.AddBookKeepsIdsDistinct | src/store/booksSlice.js:90-93 | If the ids are distinct and `now` is unused, the ids are still distinct after `addBook` |
| BooksSlice.AddBookSameClockCollides | src/store/booksSlice.js:90 | Two adds with the same clock reading produce two books with the same id, so uniqueness is conditional |
| BooksSlice.DeleteUndoesAdd | src/store/booksSlice.js:87-108 | Deleting the id just assigned by `addBook` restores the state exactly, if that id was unused before |
| BooksSlice.FindIndex | src/store/booksSlice.js:98 | `findIndex` returns `None` exactly when no book has the id. Otherwise it returns the first index holding that id |
| BooksSlice.ApplyPatch | src/store/booksSlice.js:97-101 | The patched record keeps its id. Each field the patch carries takes the patch's value. Each field it lacks keeps the book's value |
| BooksSlice.UpdateBook | src/store/booksSlice.js:96-104 | An absent id leaves the state unchanged. Otherwise only the first book with that id is patched. Length, categories and every other position are unchanged |
| BooksSlice.PatchIdempotent | src/store/booksSlice.js:101 | Merging the same patch twice gives the same record as merging it once |
| BooksSlice.UpdateIdempotent | src/store/booksSlice.js:96-104 | Dispatching the same `updateBook` twice leaves the same state as dispatching it once |
| BooksSlice.UpdateKeepsIds | src/store/booksSlice.js:97-101 | `updateBook` never changes the id at any position |
| BooksSlice.DeleteBook | src/store/booksSlice.js:106-108 | A book is kept iff it was present and its id differs from the deleted one. Every copy of a kept book survives and no copy of a book with that id does. The result is a subsequence of the old list, so order is kept. An absent id leaves the state unchanged |
| BooksSlice.DeleteIdempotent | src/store/booksSlice.js:106-108 | Deleting the same id twice leaves the same state as deleting it once |
| BooksSlice.DeleteKeepsIdsDistinct | src/store/booksSlice.js:107 | Deleting keeps the ids distinct |
| BooksSlice.DeleteRemovesOne | src/store/booksSlice.js:107 | If ids are distinct, deleting a present id shortens the list by exactly one |
| Text.Trim | src/pages/AddBook.jsx:65-79 | The trimmed string is a contiguous slice of the input with only ECMA-262 whitespace cut off before and after it. It is empty iff every character is whitespace. Otherwise it neither starts nor ends with whitespace |
| Text.LowerChar | src/pages/BrowseBooks.jsx:21-29 | An ASCII upper-case letter moves 32 code points up to its lower-case letter. Every other character is unchanged. Whether a character is whitespace is unchanged |
| Text.Lower | src/pages/BrowseBooks.jsx:21-29 | Lower-casing keeps the length, maps each position by `LowerChar` and leaves no upper-case ASCII letter |
| Text.LowerKeepsBlankness | src/pages/BrowseBooks.jsx:26-29 | Lower-casing never changes whether a string trims to empty |
| Text.ContainsIff | src/pages/BrowseBooks.jsx:28-29 | `includes` holds iff the needle occurs at some index of the haystack |
| Seqs.FilterMembers | src/pages/BrowseBooks.jsx:20-22 | `filter` keeps an element iff it was in the input and passes the test |
| Seqs.FilterMultiset | src/pages/BrowseBooks.jsx:20-22 | `filter` keeps every copy of a passing element and no copy of a failing one |
| Seqs.Take | src/pages/BookDetails.jsx:118 | `slice(0, n)` is a prefix of the input, of length `n` or the whole input when that is shorter |
| BrowseBooks.ByCategory | src/pages/BrowseBooks.jsx:18-23 | An empty selection or exactly "All" gives the identity. Otherwise a book is kept iff its lower-cased category equals the lower-cased selection, with every copy of a kept book and none of a dropped one. The result is a subsequence of the input |
| BrowseBooks.BySearch | src/pages/BrowseBooks.jsx:25-31 | A term that trims to empty gives the identity. Otherwise a book is kept iff its lower-cased title or author contains the lower-cased, untrimmed term, with every copy of a kept book and none of a dropped one. The result is a subsequence of the input |
| BrowseBooks.Browse | src/pages/BrowseBooks.jsx:15-34 | The browse result is a subsequence of the catalog |
| BrowseBooks.BrowseIsOneFilter | src/pages/BrowseBooks.jsx:15-34 | The two stages equal one order-preserving filter by the conjunction of both tests. A book is listed iff it is in the catalog and passes both |
| BrowseBooks.SearchIgnoresCase | src/pages/BrowseBooks.jsx:26-29 | Two terms that lower-case alike give the same search result and the same browse result |
| BrowseBooks.CategoryIgnoresCase | src/pages/BrowseBooks.jsx:19-21 | Two active selections that lower-case alike give the same category result |
| BrowseBooks.SeedSciFiBrowse | src/pages/BrowseBooks.jsx:19-21 | Browsing the seed catalog under "sci-fi" lists 1984, Dune and Foundation, in that order |
| BrowseBooks.Preview | src/pages/BrowseBooks.jsx:117-120 | A description of at most 100 characters is unchanged. A longer one becomes its first 100 characters followed by "...", 103 in all |
| BrowseBooks.Visible | src/pages/BrowseBooks.jsx:15-34 | The page lists exactly the order-preserving filter of the catalog by both stages under the current filter state: a book is listed iff it passes both, with every copy kept |
| BrowseBooks.InitialFilters | src/pages/BrowseBooks.jsx:10-11 | The page starts with the route's category, or "All" when the route has none, and an empty search |
| BrowseBooks.RouteChanged | src/pages/BrowseBooks.jsx:37-41 | A route category replaces the selection. An absent one keeps it. The search is untouched |
| BrowseBooks.ChangeCategory | src/pages/BrowseBooks.jsx:43-46 | Choosing a category selects it and empties the search term |
| BrowseBooks.ChangeSearch | src/pages/BrowseBooks.jsx:71 | Typing changes only the search term |
| BrowseBooks.ClearFilters | src/pages/BrowseBooks.jsx:140-143 | "Clear Filters" sets the selection to exactly "All" and the search to "", whatever they were, so neither filter stage is active |
| BrowseBooks.ChangeCategoryShowsWholeCategory | src/pages/BrowseBooks.jsx:43-46 | After a category change the page lists exactly the category stage's result |
| BrowseBooks.ClearFiltersShowsAll | src/pages/BrowseBooks.jsx:140-143 | After "Clear Filters" the page lists every book |
| BookDetails.FindBook | src/pages/BookDetails.jsx:12 | There is no result iff the id is NaN or absent. Otherwise the result is the first book carrying that id |
| BookDetails.RelatedBooks | src/pages/BookDetails.jsx:116-118 | At most 3 books, each with exactly the subject's category (case-sensitive) and a different id. They are a subsequence of the catalog and the first min(3, n) of the full qualifying list, so no earlier qualifying book is skipped |
| BookDetails.RelatedExcludesSubject | src/pages/BookDetails.jsx:117 | The subject never appears among its related books |
| BookDetails.Ceil | src/pages/BookDetails.jsx:34 | `Math.ceil`: the least integer not below the rating |
| BookDetails.Stars | src/pages/BookDetails.jsx:21-37 | Full stars: floor(rating) for a non-negative rating, none below 1. Half star: one iff the rating is not an integer. Empty stars: 5 − ceil(rating) within 0..5, none above 4 |
| BookDetails.StarsFillFiveSlots | src/pages/BookDetails.jsx:21-37 | The row has exactly 5 icons iff 0 ≤ rating ≤ 5 |
| BookDetails.StarsOverflowOutsideRange | src/pages/BookDetails.jsx:21-37 | A rating outside 0..5 draws more than 5 icons |
| BookDetails.DetailsPage | src/pages/BookDetails.jsx:12-18 | The page redirects iff no book has the parsed id. Otherwise it shows the first catalog book with that id, the one `find` returns, with its stars and its related books |
| BookDetails.SeedDunePage | src/pages/BookDetails.jsx:12-37 | Dune's page in the seed catalog shows 4 full stars, 1 half star and no empty stars. Its related books are 1984 and Foundation |
| Home.Insert | src/pages/Home.jsx:14 | Inserting into a sorted list keeps it sorted and adds exactly the one book |
| Home.SortByRating | src/pages/Home.jsx:12-14 | The sorted copy is a permutation of the books with non-increasing ratings |
| Home.SortKeepsTieOrder | src/pages/Home.jsx:14 | Books with equal rating keep their input order: the books of each rating form the same sequence before and after sorting |
| Home.StableSortIsUnique | src/pages/Home.jsx:14 | Any two sorted permutations of the same books with the same tie order are equal, so a stable comparator sort yields `SortByRating` |
| Home.PopularBooks | src/pages/Home.jsx:12-15 | The popular list has min(6, n) entries with non-increasing ratings, drawn from the books without duplication (sub-multiset) |
| Home.PopularBeatsTheRest | src/pages/Home.jsx:12-15 | Every popular book is rated at least as high as every book left out |
| Home.PopularKeepsTieOrder | src/pages/Home.jsx:14-15 | The popular books of any one rating are a prefix of that rating's books in catalog order |
| Home.CategoryCount | src/pages/Home.jsx:61 | A card's count is the number of catalog positions whose category is exactly that label. So it is at most the catalog size, and zero iff no book has that category |
| Home.CardCountAtMostBrowse | src/pages/Home.jsx:48-61 | A card's exact-case count never exceeds the number of books listed by its lower-cased browse link |
| Home.CardCountCanUndercount | src/pages/Home.jsx:48-61 | A book filed under "sci-fi" is missing from the "Sci-Fi" card's count but listed by its link |
| AddBookForm.Validate | src/pages/AddBook.jsx:62-85 | There is a title error iff the trimmed title is empty, and the same for author. There is a category error iff the category is "". There is a description error iff the trimmed length is below 10: "required" iff it is empty, "too short" otherwise. There is a rating error iff the rating is outside 0..5 |
| AddBookForm.ValidIff | src/pages/AddBook.jsx:62-88 | The error map is empty iff all five rules hold |
| AddBookForm.VerdictIsLocal | src/pages/AddBook.jsx:62-85 | A field's entry depends only on that field's value |
| AddBookForm.ValidateBlankTitleShortDescription | src/pages/AddBook.jsx:62-85 | A blank title with the description "short" fails on title and description together, with the "too short" message |
| AddBookForm.ValidateRatingSix | src/pages/AddBook.jsx:83-85 | A rating of 6 on an otherwise complete form fails on rating alone |
| AddBookForm.WithCover | src/pages/AddBook.jsx:103-106 | The submitted cover is the uploaded one if non-empty, else the default URL. All other fields come from the form |
| AddBookForm.Reset | src/pages/AddBook.jsx:124-134 | Reset returns the initial form values with an empty error map |
| AddBookForm.ApplyEdit | src/pages/AddBook.jsx:30-35 | An input change sets the field it names to the typed value and alters no other field, the cover included |
| AddBookForm.InputChange | src/pages/AddBook.jsx:30-44 | The value is stored. The field's message becomes blank. Every other field's message and the set of keys are unchanged |
| AddBookForm.EditKeepsOtherVerdicts | src/pages/AddBook.jsx:30-85 | Editing one field never changes another field's verdict |
| AddBookForm.Submit | src/pages/AddBook.jsx:92-109 | The shown errors are the validator's. An invalid form leaves the catalog unchanged. A valid one prepends exactly one book and keeps the categories. That book has id `now`, rating 0, the form's title, author, category and description, and the uploaded cover or the default one |
| AddBookForm.SubmittedRatingIsZero | src/pages/AddBook.jsx:103-109 | An accepted book has id `now` and rating 0. It gets the default cover when none was uploaded |
| AddBookForm.RatedFormStoredAsZero | src/pages/AddBook.jsx:83-109 | A valid form rated 4.5 is stored with rating 0 |

## Left out

- Rendering, CSS classes, icons, routing and `navigate(...)` are left out: they are presentation. So are the not-found page, the header and the Redux/Immer wiring (`createSlice`, `useBooks`). The reducers are pure `State -> State` functions instead.
- `Date.now()`, `parseInt` of the route id and the route's category string are inputs, not computed. `parseInt` (including its hexadecimal prefix rule) is not modelled; its result arrives as `Option<int>`.
- The `FileReader` data-URI conversion of an uploaded cover is left out; `coverImage` is an opaque string.
- The one-second simulated delay, the `isSubmitting` flag, the try/finally and the redirect after submission are timing and navigation. They are left out.
- `Home` returns a new sequence and never changes its input: that holds by construction, because sequences are values. It is not stated as a separate lemma.
- Text.Lower: only ASCII A–Z are lower-cased. Unicode case mapping in `toLowerCase` is not modelled.
- Text.Trim: string lengths count Unicode scalar values, not the UTF-16 code units that JavaScript's `length` counts.
- BrowseBooks.Preview: the cut is at 100 Unicode scalar values, not 100 UTF-16 code units, so a description containing astral characters is cut differently.
- AddBookForm.Validate: the form stores the rating input's raw string and JavaScript coerces it in `<` and `>`. The model takes the already-coerced number, so an empty or non-numeric rating string is not modelled.
- AddBookForm.Validate: the 10-character minimum counts Unicode scalar values, while JavaScript's `length` counts UTF-16 code units. A description of five astral characters such as emoji has length 10 in JavaScript and passes, but has length 5 here and is rejected as too short.
- AddBookForm.Submit: the form's submit flow does not pass through the catalog categories. As in the source, a category outside the category list is accepted.
- BooksSlice.ApplyPatch: a patch key that is not a book field, or a key explicitly set to `undefined`, is not modelled. Patches carry only the six book fields.
- Ratings are exact reals, not IEEE doubles. Rounding in `b.rating - a.rating` and `rating % 1` is not modelled.
