/**
 * The book-details page: finding the book the route names, the star row for its
 * rating, and the "More <category> Books" strip.
 */
module BookDetails {
  import opened Wrappers
  import opened Seqs
  import opened Books
  import opened BooksSlice

  /** The most related books the strip shows. */
  const RelatedLimit: nat := 3

  /** The number of star slots a rating is drawn against. */
  const StarSlots: int := 5

  /**
   * `books.find(b => b.id === parseInt(id))`. The route's id arrives already
   * parsed: `None` stands for `NaN`, which equals no id.
   */
  function FindBook(books: seq<Book>, key: Option<int>): (r: Option<Book>)
    ensures r.None? <==> key.None? || !HasId(books, key.value)
    ensures r.Some? ==> exists i :: 0 <= i < |books| && books[i] == r.value && books[i].id == key.value
                                    && forall k :: 0 <= k < i ==> books[k].id != key.value
  {
    match key
    case None => None
    case Some(id) =>
      if books == [] then None
      else if books[0].id == id then Some(books[0])
      else FindBook(books[1..], key)
  }

  /** The strip's selector: same category, exactly as spelled, and a different id. */
  predicate IsRelated(subject: Book, b: Book) {
    b.category == subject.category && b.id != subject.id
  }

  function RelatedMatcher(subject: Book): Book -> bool {
    (b: Book) => IsRelated(subject, b)
  }

  /** `books.filter(...).slice(0, 3)`: the first three related books, in catalog order. */
  function RelatedBooks(books: seq<Book>, subject: Book): (r: seq<Book>)
    ensures |r| <= RelatedLimit
    ensures forall b :: b in r ==> b in books && IsRelated(subject, b)
    ensures IsSubseq(r, books)
    ensures r <= Filter(books, RelatedMatcher(subject))
    ensures |r| == if |Filter(books, RelatedMatcher(subject))| < RelatedLimit
                   then |Filter(books, RelatedMatcher(subject))| else RelatedLimit
  {
    var all := Filter(books, RelatedMatcher(subject));
    FilterMembers(books, RelatedMatcher(subject));
    FilterIsSubseq(books, RelatedMatcher(subject));
    PrefixIsSubseq(Take(all, RelatedLimit), all);
    SubseqTrans(Take(all, RelatedLimit), all, books);
    SubseqMembers(Take(all, RelatedLimit), all);
    Take(all, RelatedLimit)
  }

  /** No related book is the subject itself. */
  lemma RelatedExcludesSubject(books: seq<Book>, subject: Book)
    ensures subject !in RelatedBooks(books, subject)
  {
  }

  /** `Math.ceil` on reals. */
  function Ceil(x: real): (n: int)
    ensures n as real >= x && (n - 1) as real < x
  {
    -((-x).Floor)
  }

  /** How many filled, half and empty star icons the rating row draws. */
  datatype StarCounts = StarCounts(full: nat, half: nat, empty: nat) {
    function Total(): nat {
      full + half + empty
    }
  }

  /**
   * `renderStars`: `Math.floor(rating)` filled stars, one half star when
   * `rating % 1 !== 0`, then `5 - Math.ceil(rating)` empty stars; a loop whose
   * bound is not positive draws nothing.
   */
  function Stars(rating: real): (s: StarCounts)
    ensures rating >= 0.0 ==> s.full as real <= rating < (s.full + 1) as real
    ensures rating < 1.0 ==> s.full == 0
    ensures s.half == 1 <==> rating != rating.Floor as real
    ensures s.half <= 1
    ensures rating <= StarSlots as real ==> s.empty as real <= StarSlots as real - rating < s.empty as real + 1.0
    ensures rating > (StarSlots - 1) as real ==> s.empty == 0
  {
    var full := if rating.Floor > 0 then rating.Floor else 0;
    var half := if rating != rating.Floor as real then 1 else 0;
    var empty := if StarSlots - Ceil(rating) > 0 then StarSlots - Ceil(rating) else 0;
    StarCounts(full, half, empty)
  }

  /** The row has exactly five icons precisely when the rating lies in 0..5. */
  lemma StarsFillFiveSlots(rating: real)
    ensures Stars(rating).Total() == 5 <==> 0.0 <= rating <= 5.0
  {
  }

  /** A rating outside 0..5 draws too many icons, never too few. */
  lemma StarsOverflowOutsideRange(rating: real)
    requires rating < 0.0 || rating > 5.0
    ensures Stars(rating).Total() > 5
  {
  }

  /** What the details page does for a route id. */
  datatype Page = RedirectToBrowse | Show(book: Book, stars: StarCounts, related: seq<Book>)

  /** The details page: redirect when no book has the id, else the book, its stars and its related books. */
  function DetailsPage(books: seq<Book>, key: Option<int>): (p: Page)
    ensures p.RedirectToBrowse? <==> key.None? || !HasId(books, key.value)
    ensures p.Show? ==> p.book in books && p.book.id == key.value
    ensures p.Show? ==> FindBook(books, key) == Some(p.book)
    ensures p.Show? ==> p.stars == Stars(p.book.rating) && p.related == RelatedBooks(books, p.book)
  {
    match FindBook(books, key)
    case None => RedirectToBrowse
    case Some(b) => Show(b, Stars(b.rating), RelatedBooks(books, b))
  }

  lemma SeedFindsDune()
    ensures FindBook(InitialState.books, Some(5)) == Some(Dune)
  {
    var books := InitialState.books;
    assert books[4] == Dune;
    assert books[1..][3] == Dune;
    assert books[2..][2] == Dune;
    assert books[3..][1] == Dune;
  }

  lemma SeedDuneRelated()
    ensures Filter(InitialState.books, RelatedMatcher(Dune)) == [NineteenEightyFour, Foundation]
  {
    InitialSciFi();
    FilterFilter(InitialState.books, HasCategory("Sci-Fi"), NotId(5), RelatedMatcher(Dune));
    var p := NotId(5);
    assert [Foundation] == [Foundation] + [];
    FilterCons(Foundation, [], p);
    FilterCons(Dune, [Foundation], p);
    FilterCons(NineteenEightyFour, [Dune, Foundation], p);
    assert [NineteenEightyFour, Dune, Foundation] == [NineteenEightyFour] + [Dune, Foundation];
    assert [Dune, Foundation] == [Dune] + [Foundation];
  }

  /** Dune's page in the seed catalog: four full stars and a half, and the other two Sci-Fi books. */
  lemma SeedDunePage()
    ensures DetailsPage(InitialState.books, Some(5)) == Show(Dune, StarCounts(4, 1, 0), [NineteenEightyFour, Foundation])
  {
    SeedFindsDune();
    SeedDuneRelated();
    assert Stars(4.9) == StarCounts(4, 1, 0);
  }
}
