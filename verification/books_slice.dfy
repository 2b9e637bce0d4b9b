/**
 * The catalog store: its seed state and the `addBook`, `updateBook` and
 * `deleteBook` reducers, each a pure map from the old state to the new one.
 */
module BooksSlice {
  import opened Wrappers
  import opened Seqs
  import opened Books

  datatype State = State(books: seq<Book>, categories: seq<string>)

  /** The eight books of the seed catalog, in their seed order. */
  const Gatsby: Book := Book(1, "The Great Gatsby", "F. Scott Fitzgerald", "Fiction",
      "A classic American novel set in the Jazz Age, exploring themes of wealth, love, and the American Dream.",
      4.5, "https://covers.openlibrary.org/b/isbn/9780743273565-M.jpg")
  const Mockingbird: Book := Book(2, "To Kill a Mockingbird", "Harper Lee", "Fiction",
      "A powerful story of racial injustice and childhood innocence in the American South.",
      4.8, "https://covers.openlibrary.org/b/isbn/9780061120084-M.jpg")
  const NineteenEightyFour: Book := Book(3, "1984", "George Orwell", "Sci-Fi",
      "A dystopian novel about totalitarian control and surveillance in a future society.",
      4.7, "https://covers.openlibrary.org/b/isbn/9780451524935-M.jpg")
  const Sapiens: Book := Book(4, "Sapiens", "Yuval Noah Harari", "Non-Fiction",
      "A fascinating exploration of how Homo sapiens came to dominate the world.",
      4.6, "https://covers.openlibrary.org/b/isbn/9780062316097-M.jpg")
  const Dune: Book := Book(5, "Dune", "Frank Herbert", "Sci-Fi",
      "An epic science fiction novel set on the desert planet Arrakis.",
      4.9, "https://covers.openlibrary.org/b/isbn/9780441013593-M.jpg")
  const Catcher: Book := Book(6, "The Catcher in the Rye", "J.D. Salinger", "Fiction",
      "A coming-of-age story following teenager Holden Caulfield in New York City.",
      4.3, "https://covers.openlibrary.org/b/isbn/9780316769174-M.jpg")
  const ThinkingFastAndSlow: Book := Book(7, "Thinking, Fast and Slow", "Daniel Kahneman", "Non-Fiction",
      "A groundbreaking work on human psychology and decision-making processes.",
      4.4, "https://covers.openlibrary.org/b/isbn/9780374533557-M.jpg")
  const Foundation: Book := Book(8, "Foundation", "Isaac Asimov", "Sci-Fi",
      "The first book in Asimov's epic Foundation series about psychohistory.",
      4.5, "https://covers.openlibrary.org/b/isbn/9780553293357-M.jpg")

  /** The state the store starts from on every page load. */
  const InitialState: State := State(
    [Gatsby, Mockingbird, NineteenEightyFour, Sapiens, Dune, Catcher, ThinkingFastAndSlow, Foundation],
    ["Fiction", "Non-Fiction", "Sci-Fi", "Mystery", "Romance", "Biography"])

  /** The selector `book => book.id !== id`. */
  function NotId(id: int): Book -> bool {
    (b: Book) => b.id != id
  }

  /**
   * `addBook`: the payload's fields with `id` taken from the clock reading
   * `now` and `rating` forced to 0, put in front of the existing books.
   */
  function AddBook(st: State, payload: Draft, now: int): (r: State)
    ensures |r.books| == |st.books| + 1
    ensures r.books[1..] == st.books
    ensures r.categories == st.categories
    ensures r.books[0].id == now && r.books[0].rating == 0.0
    ensures r.books[0].title == payload.title && r.books[0].author == payload.author
    ensures r.books[0].category == payload.category && r.books[0].description == payload.description
    ensures r.books[0].coverImage == payload.coverImage
  {
    var admitted := Book(now, payload.title, payload.author, payload.category,
                      payload.description, 0.0, payload.coverImage);
    st.(books := [admitted] + st.books)
  }

  /** `books.findIndex(book => book.id === id)`, with `None` for -1. */
  function FindIndex(books: seq<Book>, id: int): (r: Option<nat>)
    ensures r.None? <==> !HasId(books, id)
    ensures r.Some? ==> r.value < |books| && books[r.value].id == id
    ensures r.Some? ==> forall k :: 0 <= k < r.value ==> books[k].id != id
  {
    if books == [] then None
    else if books[0].id == id then Some(0)
    else match FindIndex(books[1..], id)
      case None => None
      case Some(i) => Some(i + 1)
  }

  /** `{ ...book, ...patch }`: each field the patch carries overrides the book's. */
  function ApplyPatch(b: Book, p: Patch): (r: Book)
    ensures r.id == b.id
    ensures p.title.None? ==> r.title == b.title
    ensures p.title.Some? ==> r.title == p.title.value
    ensures p.author.None? ==> r.author == b.author
    ensures p.author.Some? ==> r.author == p.author.value
    ensures p.category.None? ==> r.category == b.category
    ensures p.category.Some? ==> r.category == p.category.value
    ensures p.description.None? ==> r.description == b.description
    ensures p.description.Some? ==> r.description == p.description.value
    ensures p.rating.None? ==> r.rating == b.rating
    ensures p.rating.Some? ==> r.rating == p.rating.value
    ensures p.coverImage.None? ==> r.coverImage == b.coverImage
    ensures p.coverImage.Some? ==> r.coverImage == p.coverImage.value
  {
    Book(b.id, p.title.GetOr(b.title), p.author.GetOr(b.author), p.category.GetOr(b.category),
         p.description.GetOr(b.description), p.rating.GetOr(b.rating), p.coverImage.GetOr(b.coverImage))
  }

  /**
   * `updateBook`: patch the first book whose id is `id`; a silent no-op when
   * no book has that id.
   */
  function UpdateBook(st: State, id: int, patch: Patch): (r: State)
    ensures r.categories == st.categories
    ensures |r.books| == |st.books|
    ensures !HasId(st.books, id) ==> r == st
    ensures forall j :: 0 <= j < |st.books| && st.books[j].id != id ==> r.books[j] == st.books[j]
    ensures forall j, k :: 0 <= k < j < |st.books| && st.books[k].id == id ==> r.books[j] == st.books[j]
    ensures forall j :: 0 <= j < |st.books| && st.books[j].id == id
                     && (forall k :: 0 <= k < j ==> st.books[k].id != id)
                     ==> r.books[j] == ApplyPatch(st.books[j], patch)
  {
    match FindIndex(st.books, id)
    case None => st
    case Some(i) => st.(books := st.books[i := ApplyPatch(st.books[i], patch)])
  }

  /** `deleteBook`: keep every book whose id is not `id`, in order. */
  function DeleteBook(st: State, id: int): (r: State)
    ensures r.categories == st.categories
    ensures forall b :: b in r.books <==> b in st.books && b.id != id
    ensures forall b :: multiset(r.books)[b] == if b.id == id then 0 else multiset(st.books)[b]
    ensures IsSubseq(r.books, st.books)
    ensures !HasId(st.books, id) ==> r == st
  {
    FilterIsSubseq(st.books, NotId(id));
    FilterMembers(st.books, NotId(id));
    FilterMultiset(st.books, NotId(id));
    FilterAbsentId(st.books, id);
    st.(books := Filter(st.books, NotId(id)))
  }

  lemma FilterAbsentId(books: seq<Book>, id: int)
    ensures !HasId(books, id) ==> Filter(books, NotId(id)) == books
  {
  }

  /** Fresh ids keep ids distinct: `addBook` is safe only when the clock reading is unused. */
  lemma AddBookKeepsIdsDistinct(st: State, payload: Draft, now: int)
    requires DistinctIds(st.books)
    requires !HasId(st.books, now)
    ensures DistinctIds(AddBook(st, payload, now).books)
  {
  }

  /** Two `addBook`s in the same millisecond produce two books with one id. */
  lemma AddBookSameClockCollides(st: State, a: Draft, b: Draft, now: int)
    ensures !DistinctIds(AddBook(AddBook(st, a, now), b, now).books)
  {
  }

  /** Deleting the id `addBook` just assigned undoes the add, when that id was unused. */
  lemma {:induction false} DeleteUndoesAdd(st: State, payload: Draft, now: int)
    requires !HasId(st.books, now)
    ensures DeleteBook(AddBook(st, payload, now), now) == st
  {
    var added := AddBook(st, payload, now);
    assert added.books == [added.books[0]] + st.books;
    FilterAll(st.books, NotId(now));
    assert Filter(added.books, NotId(now)) == Filter(st.books, NotId(now));
  }

  /** Applying a patch twice is applying it once. */
  lemma PatchIdempotent(b: Book, p: Patch)
    ensures ApplyPatch(ApplyPatch(b, p), p) == ApplyPatch(b, p)
  {
  }

  /** `updateBook` with the same payload twice has the effect of once. */
  lemma {:induction false} UpdateIdempotent(st: State, id: int, patch: Patch)
    ensures UpdateBook(UpdateBook(st, id, patch), id, patch) == UpdateBook(st, id, patch)
  {
    var once := UpdateBook(st, id, patch);
    match FindIndex(st.books, id)
    case None =>
    case Some(i) =>
      assert forall j :: 0 <= j < |st.books| ==> once.books[j].id == st.books[j].id;
      assert FindIndex(once.books, id) == Some(i);
      PatchIdempotent(st.books[i], patch);
  }

  /** `deleteBook` with the same id twice has the effect of once. */
  lemma DeleteIdempotent(st: State, id: int)
    ensures DeleteBook(DeleteBook(st, id), id) == DeleteBook(st, id)
  {
    var once := DeleteBook(st, id);
    FilterAll(once.books, NotId(id));
  }

  /** `updateBook` never changes which ids the catalog holds, nor where. */
  lemma UpdateKeepsIds(st: State, id: int, patch: Patch)
    ensures forall j :: 0 <= j < |st.books| ==> UpdateBook(st, id, patch).books[j].id == st.books[j].id
  {
  }

  lemma ConsKeepsDistinct(b: Book, rest: seq<Book>)
    requires DistinctIds(rest)
    requires forall j :: 0 <= j < |rest| ==> rest[j].id != b.id
    ensures DistinctIds([b] + rest)
  {
  }

  lemma {:induction false} FilterKeepsDistinct(books: seq<Book>, p: Book -> bool)
    requires DistinctIds(books)
    ensures DistinctIds(Filter(books, p))
    decreases |books|
  {
    if books != [] {
      var tail := books[1..];
      var rest := Filter(tail, p);
      FilterKeepsDistinct(tail, p);
      FilterMembers(tail, p);
      if p(books[0]) {
        forall j | 0 <= j < |rest|
          ensures rest[j].id != books[0].id
        {
          assert rest[j] in tail;
          var k :| 0 <= k < |tail| && tail[k] == rest[j];
          assert books[k + 1] == rest[j];
        }
        ConsKeepsDistinct(books[0], rest);
      }
    }
  }

  lemma DeleteKeepsIdsDistinct(st: State, id: int)
    requires DistinctIds(st.books)
    ensures DistinctIds(DeleteBook(st, id).books)
  {
    FilterKeepsDistinct(st.books, NotId(id));
  }

  /** With distinct ids, deleting a present id removes exactly one book. */
  lemma {:induction false} DeleteRemovesOne(books: seq<Book>, id: int, i: nat)
    requires DistinctIds(books)
    requires i < |books| && books[i].id == id
    ensures |DeleteBook(State(books, []), id).books| == |books| - 1
    decreases |books|
  {
    if i == 0 {
      assert forall b :: b in books[1..] ==> NotId(id)(b) by {
        forall b | b in books[1..]
          ensures b.id != id
        {
          var k :| 0 <= k < |books[1..]| && books[1..][k] == b;
          assert books[k + 1] == b;
        }
      }
      FilterAll(books[1..], NotId(id));
    } else {
      assert DistinctIds(books[1..]) by {
        forall a, b | 0 <= a < b < |books[1..]|
          ensures books[1..][a].id != books[1..][b].id
        {
          assert books[1..][a] == books[a + 1] && books[1..][b] == books[b + 1];
        }
      }
      assert books[1..][i - 1] == books[i];
      DeleteRemovesOne(books[1..], id, i - 1);
      assert books[0].id != id;
    }
  }

  /** The seed catalog: eight books with ids 1 to 8 and six categories. */
  lemma InitialStateFacts()
    ensures |InitialState.books| == 8
    ensures forall i :: 0 <= i < 8 ==> InitialState.books[i].id == i + 1
    ensures DistinctIds(InitialState.books)
    ensures |InitialState.categories| == 6
  {
  }

  /** `filter` over eight books of which the third, fifth and eighth pass. */
  lemma FilterEight(b0: Book, b1: Book, b2: Book, b3: Book, b4: Book, b5: Book, b6: Book, b7: Book, p: Book -> bool)
    requires !p(b0) && !p(b1) && p(b2) && !p(b3) && p(b4) && !p(b5) && !p(b6) && p(b7)
    ensures Filter([b0, b1, b2, b3, b4, b5, b6, b7], p) == [b2, b4, b7]
  {
    var t7 := [b7];
    var t6 := [b6] + t7;
    var t5 := [b5] + t6;
    var t4 := [b4] + t5;
    var t3 := [b3] + t4;
    var t2 := [b2] + t3;
    var t1 := [b1] + t2;
    var t0 := [b0] + t1;
    assert t7 == [b7] + [];
    FilterCons(b7, [], p);
    FilterCons(b6, t7, p);
    FilterCons(b5, t6, p);
    FilterCons(b4, t5, p);
    FilterCons(b3, t4, p);
    FilterCons(b2, t3, p);
    FilterCons(b1, t2, p);
    FilterCons(b0, t1, p);
    assert t0 == [b0, b1, b2, b3, b4, b5, b6, b7];
  }

  /** Exactly three seed books, in seed order 1984, Dune, Foundation, are Sci-Fi. */
  lemma InitialSciFi()
    ensures Filter(InitialState.books, HasCategory("Sci-Fi")) == [NineteenEightyFour, Dune, Foundation]
  {
    FilterEight(Gatsby, Mockingbird, NineteenEightyFour, Sapiens, Dune, Catcher, ThinkingFastAndSlow, Foundation,
                HasCategory("Sci-Fi"));
  }
}
