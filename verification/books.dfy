/** The records the catalog holds and the payloads its reducers receive. */
module Books {
  import opened Wrappers

  /** One catalog entry. `rating` is a real in place of a JavaScript number. */
  datatype Book = Book(
    id: int,
    title: string,
    author: string,
    category: string,
    description: string,
    rating: real,
    coverImage: string)

  /** The `addBook` payload: the add-book form's values, which carry no id. */
  datatype Draft = Draft(
    title: string,
    author: string,
    category: string,
    description: string,
    rating: real,
    coverImage: string)

  /**
   * The `updateBook` payload after its `id` has been split off: the fields the
   * caller supplied, each `None` when the payload lacks that key.
   */
  datatype Patch = Patch(
    title: Option<string>,
    author: Option<string>,
    category: Option<string>,
    description: Option<string>,
    rating: Option<real>,
    coverImage: Option<string>)

  /** The selector `book => book.category === category`. */
  function HasCategory(category: string): Book -> bool {
    (b: Book) => b.category == category
  }

  /** No two books share an id. */
  ghost predicate DistinctIds(books: seq<Book>) {
    forall i, j :: 0 <= i < j < |books| ==> books[i].id != books[j].id
  }

  /** Some book carries `id`. */
  ghost predicate HasId(books: seq<Book>, id: int) {
    exists i :: 0 <= i < |books| && books[i].id == id
  }
}
