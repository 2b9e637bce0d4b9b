/**
 * The browse page: the category-then-search filter its effect recomputes, the
 * page's two pieces of filter state, and the 100-character description preview.
 */
module BrowseBooks {
  import opened Seqs
  import opened Text
  import opened Books
  import opened BooksSlice

  /** The sentinel the category selector uses for "no category filter". */
  const AllCategories: string := "All"

  /** The longest description shown in full on a browse card. */
  const PreviewLength: nat := 100

  /** The category stage runs only for a non-empty selection other than `"All"`. */
  predicate CategoryActive(selected: string) {
    selected != "" && selected != AllCategories
  }

  /** The search stage runs only for a term with something left after trimming. */
  predicate SearchActive(term: string) {
    Trim(term) != ""
  }

  /** A book passes the category stage: case-insensitive equality of categories. */
  predicate CategoryMatches(selected: string, b: Book) {
    Lower(b.category) == Lower(selected)
  }

  /** A book passes the search stage: the lower-cased, untrimmed term occurs in its title or author. */
  predicate SearchMatches(term: string, b: Book) {
    Contains(Lower(b.title), Lower(term)) || Contains(Lower(b.author), Lower(term))
  }

  function CategoryMatcher(selected: string): Book -> bool {
    (b: Book) => CategoryMatches(selected, b)
  }

  function SearchMatcher(term: string): Book -> bool {
    (b: Book) => SearchMatches(term, b)
  }

  /** The category stage of the filter effect. */
  function ByCategory(books: seq<Book>, selected: string): (r: seq<Book>)
    ensures !CategoryActive(selected) ==> r == books
    ensures CategoryActive(selected) ==>
      forall b :: b in r <==> b in books && Lower(b.category) == Lower(selected)
    ensures CategoryActive(selected) ==>
      forall b :: multiset(r)[b] == if CategoryMatches(selected, b) then multiset(books)[b] else 0
    ensures IsSubseq(r, books)
  {
    if CategoryActive(selected) then
      FilterMembers(books, CategoryMatcher(selected));
      FilterMultiset(books, CategoryMatcher(selected));
      FilterIsSubseq(books, CategoryMatcher(selected));
      Filter(books, CategoryMatcher(selected))
    else
      SubseqRefl(books);
      books
  }

  /** The search stage of the filter effect. */
  function BySearch(books: seq<Book>, term: string): (r: seq<Book>)
    ensures !SearchActive(term) ==> r == books
    ensures SearchActive(term) ==> forall b :: b in r <==> b in books && SearchMatches(term, b)
    ensures SearchActive(term) ==>
      forall b :: multiset(r)[b] == if SearchMatches(term, b) then multiset(books)[b] else 0
    ensures IsSubseq(r, books)
  {
    if SearchActive(term) then
      FilterMembers(books, SearchMatcher(term));
      FilterMultiset(books, SearchMatcher(term));
      FilterIsSubseq(books, SearchMatcher(term));
      Filter(books, SearchMatcher(term))
    else
      SubseqRefl(books);
      books
  }

  /** The list the browse page shows: the category stage, then the search stage. */
  function Browse(books: seq<Book>, selected: string, term: string): (r: seq<Book>)
    ensures IsSubseq(r, books)
  {
    var byCategory := ByCategory(books, selected);
    SubseqTrans(BySearch(byCategory, term), byCategory, books);
    BySearch(byCategory, term)
  }

  /** The single predicate the two stages amount to, with each inactive stage passing everything. */
  predicate BrowseKeeps(selected: string, term: string, b: Book) {
    && (!CategoryActive(selected) || CategoryMatches(selected, b))
    && (!SearchActive(term) || SearchMatches(term, b))
  }

  function BrowseMatcher(selected: string, term: string): Book -> bool {
    (b: Book) => BrowseKeeps(selected, term, b)
  }

  /** The browse result is the one order-preserving selection of the books both stages accept. */
  lemma {:induction false} BrowseIsOneFilter(books: seq<Book>, selected: string, term: string)
    ensures Browse(books, selected, term) == Filter(books, BrowseMatcher(selected, term))
    ensures forall b :: b in Browse(books, selected, term) <==> b in books && BrowseKeeps(selected, term, b)
  {
    var keeps := BrowseMatcher(selected, term);
    if CategoryActive(selected) && SearchActive(term) {
      FilterFilter(books, CategoryMatcher(selected), SearchMatcher(term), keeps);
    } else if CategoryActive(selected) {
      FilterCongruent(books, CategoryMatcher(selected), keeps);
    } else if SearchActive(term) {
      FilterCongruent(books, SearchMatcher(term), keeps);
    } else {
      FilterAll(books, keeps);
    }
    FilterMembers(books, keeps);
  }

  /** Search ignores case: terms that lower-case alike select the same books. */
  lemma SearchIgnoresCase(books: seq<Book>, t1: string, t2: string)
    requires Lower(t1) == Lower(t2)
    ensures BySearch(books, t1) == BySearch(books, t2)
    ensures forall c :: Browse(books, c, t1) == Browse(books, c, t2)
  {
    SameLowerSameBlankness(t1, t2);
    forall xs: seq<Book> ensures BySearch(xs, t1) == BySearch(xs, t2) {
      FilterCongruent(xs, SearchMatcher(t1), SearchMatcher(t2));
    }
  }

  /** The category stage ignores case too. */
  lemma CategoryIgnoresCase(books: seq<Book>, c1: string, c2: string)
    requires Lower(c1) == Lower(c2)
    requires CategoryActive(c1) && CategoryActive(c2)
    ensures ByCategory(books, c1) == ByCategory(books, c2)
  {
    FilterCongruent(books, CategoryMatcher(c1), CategoryMatcher(c2));
  }

  /** The description as a browse card shows it. */
  function Preview(description: string): (r: string)
    ensures |description| <= PreviewLength ==> r == description
    ensures |description| > PreviewLength ==>
      |r| == PreviewLength + 3 && r[..PreviewLength] == description[..PreviewLength] && r[PreviewLength..] == "..."
    ensures |r| <= PreviewLength + 3
  {
    if |description| > PreviewLength then description[..PreviewLength] + "..." else description
  }

  /** The page's filter state: the selected category and the search box's text. */
  datatype Filters = Filters(selectedCategory: string, searchTerm: string)

  /** First render: the route's category, or `"All"` when the route has none (`""`). */
  function InitialFilters(routeCategory: string): (f: Filters)
    ensures f.searchTerm == ""
    ensures f.selectedCategory != ""
    ensures routeCategory != "" ==> f.selectedCategory == routeCategory
    ensures routeCategory == "" ==> f.selectedCategory == AllCategories
  {
    Filters(if routeCategory == "" then AllCategories else routeCategory, "")
  }

  /** The route's category changed: adopt it when present, keep the selection otherwise. */
  function RouteChanged(f: Filters, routeCategory: string): (g: Filters)
    ensures g.searchTerm == f.searchTerm
    ensures g.selectedCategory == if routeCategory == "" then f.selectedCategory else routeCategory
  {
    if routeCategory != "" then f.(selectedCategory := routeCategory) else f
  }

  /** `handleCategoryChange`: select a category and clear the search box. */
  function ChangeCategory(f: Filters, category: string): (g: Filters)
    ensures g.selectedCategory == category && g.searchTerm == ""
  {
    Filters(category, "")
  }

  /** Typing in the search box changes only the term. */
  function ChangeSearch(f: Filters, term: string): (g: Filters)
    ensures g.selectedCategory == f.selectedCategory && g.searchTerm == term
  {
    f.(searchTerm := term)
  }

  /** The "Clear Filters" button. */
  function ClearFilters(f: Filters): (g: Filters)
    ensures g.selectedCategory == AllCategories && g.searchTerm == ""
    ensures !CategoryActive(g.selectedCategory) && !SearchActive(g.searchTerm)
  {
    Filters(AllCategories, "")
  }

  /** The books the page lists under filter state `f`. */
  function Visible(books: seq<Book>, f: Filters): (r: seq<Book>)
    ensures r == Filter(books, BrowseMatcher(f.selectedCategory, f.searchTerm))
    ensures forall b :: b in r <==> b in books && BrowseKeeps(f.selectedCategory, f.searchTerm, b)
    ensures IsSubseq(r, books)
  {
    BrowseIsOneFilter(books, f.selectedCategory, f.searchTerm);
    Browse(books, f.selectedCategory, f.searchTerm)
  }

  /** After a category change the page lists exactly that category's books: the search no longer applies. */
  lemma ChangeCategoryShowsWholeCategory(books: seq<Book>, f: Filters, category: string)
    ensures Visible(books, ChangeCategory(f, category)) == ByCategory(books, category)
  {
  }

  /** After "Clear Filters" the page lists every book. */
  lemma ClearFiltersShowsAll(books: seq<Book>, f: Filters)
    ensures Visible(books, ClearFilters(f)) == books
  {
  }

  /** Browsing the seed catalog under the lower-case link `sci-fi` lists its three Sci-Fi books in seed order. */
  lemma SeedSciFiBrowse()
    ensures Browse(InitialState.books, "sci-fi", "") == [NineteenEightyFour, Dune, Foundation]
  {
    LowerSciFi();
    LowerIdempotent("sci-fi");
    assert forall b :: b in InitialState.books ==> (CategoryMatches("sci-fi", b) == HasCategory("Sci-Fi")(b));
    FilterCongruent(InitialState.books, CategoryMatcher("sci-fi"), HasCategory("Sci-Fi"));
    InitialSciFi();
    assert Trim("") == "";
  }
}
