/**
 * The home page: the "Popular Books" list (the six best-rated books) and the
 * book count on each category card.
 *
 * `Array.prototype.sort` has been required to be stable since the 2019 edition
 * of ECMA-262, so sorting a copy by `b.rating - a.rating` is the stable sort by
 * descending rating. `SortByRating` is one such sort; `StableSortIsUnique`
 * shows every stable descending sort of the same books gives the same sequence.
 */
module Home {
  import opened Seqs
  import opened Text
  import opened Books
  import BrowseBooks

  /** The number of books the "Popular Books" section shows. */
  const PopularCount: nat := 6

  /** Ratings never increase along `s`. */
  ghost predicate SortedByRating(s: seq<Book>) {
    forall i, j :: 0 <= i < j < |s| ==> s[i].rating >= s[j].rating
  }

  /** The selector for the books with one given rating. */
  function RatedAs(rating: real): Book -> bool {
    (b: Book) => b.rating == rating
  }

  /** Books of equal rating appear in `s` in the same relative order as in `t`. */
  ghost predicate SameTieOrder(s: seq<Book>, t: seq<Book>) {
    forall rating :: Filter(s, RatedAs(rating)) == Filter(t, RatedAs(rating))
  }

  /** Put `b` into a sorted sequence in front of every book rated no higher. */
  function Insert(b: Book, s: seq<Book>): (r: seq<Book>)
    requires SortedByRating(s)
    ensures SortedByRating(r)
    ensures multiset(r) == multiset(s) + multiset{b}
  {
    if s == [] || s[0].rating <= b.rating then
      ConsSorted(b, s);
      [b] + s
    else
      var rest := Insert(b, s[1..]);
      assert s == [s[0]] + s[1..];
      RatingsBoundedBy(rest, s[1..], b, s[0].rating);
      ConsSorted(s[0], rest);
      [s[0]] + rest
  }

  /** A book rated at least as high as everything in a sorted sequence may go in front of it. */
  lemma ConsSorted(b: Book, s: seq<Book>)
    requires SortedByRating(s)
    requires forall j :: 0 <= j < |s| ==> s[j].rating <= b.rating
    ensures SortedByRating([b] + s)
  {
  }

  /** A rearrangement of `s` plus `b` stays under any rating bound `s` and `b` stay under. */
  lemma RatingsBoundedBy(r: seq<Book>, s: seq<Book>, b: Book, top: real)
    requires multiset(r) == multiset(s) + multiset{b}
    requires forall j :: 0 <= j < |s| ==> s[j].rating <= top
    requires b.rating <= top
    ensures forall j :: 0 <= j < |r| ==> r[j].rating <= top
  {
    forall j | 0 <= j < |r|
      ensures r[j].rating <= top
    {
      assert r[j] in multiset(r);
      if r[j] != b {
        assert r[j] in multiset(s);
        var k :| 0 <= k < |s| && s[k] == r[j];
      }
    }
  }

  /** `books.slice().sort((a, b) => b.rating - a.rating)`, as a stable insertion sort. */
  function SortByRating(books: seq<Book>): (r: seq<Book>)
    ensures SortedByRating(r)
    ensures multiset(r) == multiset(books)
  {
    if books == [] then []
    else
      assert books == [books[0]] + books[1..];
      Insert(books[0], SortByRating(books[1..]))
  }

  /** Inserting `b` puts it at the front of its rating class. */
  lemma {:induction false} InsertTieOrder(b: Book, s: seq<Book>, rating: real)
    requires SortedByRating(s)
    ensures Filter(Insert(b, s), RatedAs(rating))
         == if b.rating == rating then [b] + Filter(s, RatedAs(rating)) else Filter(s, RatedAs(rating))
    decreases |s|
  {
    var p := RatedAs(rating);
    if s == [] || s[0].rating <= b.rating {
      FilterCons(b, s, p);
    } else {
      InsertTieOrder(b, s[1..], rating);
      FilterCons(s[0], Insert(b, s[1..]), p);
      FilterCons(s[0], s[1..], p);
      assert s == [s[0]] + s[1..];
    }
  }

  /** The sort keeps books of equal rating in their input order. */
  lemma {:induction false} SortKeepsTieOrder(books: seq<Book>)
    ensures SameTieOrder(SortByRating(books), books)
    decreases |books|
  {
    if books != [] {
      SortKeepsTieOrder(books[1..]);
      forall rating
        ensures Filter(SortByRating(books), RatedAs(rating)) == Filter(books, RatedAs(rating))
      {
        InsertTieOrder(books[0], SortByRating(books[1..]), rating);
        FilterCons(books[0], books[1..], RatedAs(rating));
        assert books == [books[0]] + books[1..];
      }
    }
  }

  /** The head of a sorted sequence carries its highest rating. */
  lemma HeadIsHighest(s: seq<Book>, b: Book)
    requires SortedByRating(s) && b in s
    ensures s[0].rating >= b.rating
  {
  }

  /** Removing the head of both sides keeps the tie order. */
  lemma {:induction false} TailsKeepTieOrder(a: seq<Book>, b: seq<Book>)
    requires a != [] && b != [] && a[0] == b[0]
    requires SameTieOrder(a, b)
    ensures SameTieOrder(a[1..], b[1..])
  {
    forall rating
      ensures Filter(a[1..], RatedAs(rating)) == Filter(b[1..], RatedAs(rating))
    {
      var p := RatedAs(rating);
      assert a == [a[0]] + a[1..];
      assert b == [b[0]] + b[1..];
      assert Filter(a, p) == Filter(b, p);
      FilterCons(a[0], a[1..], p);
      FilterCons(b[0], b[1..], p);
      if p(a[0]) {
        assert Filter(a, p)[1..] == Filter(a[1..], p);
        assert Filter(b, p)[1..] == Filter(b[1..], p);
      }
    }
  }

  /** Removing the same head from two rearrangements of one bag leaves rearrangements of one bag. */
  lemma SameHeadSameTailBag(a: seq<Book>, b: seq<Book>)
    requires a != [] && b != [] && a[0] == b[0]
    requires multiset(a) == multiset(b)
    ensures multiset(a[1..]) == multiset(b[1..])
  {
    assert a == [a[0]] + a[1..];
    assert b == [b[0]] + b[1..];
    assert multiset(a) == multiset{a[0]} + multiset(a[1..]);
    assert multiset(b) == multiset{b[0]} + multiset(b[1..]);
    assert multiset(a[1..]) == multiset(a) - multiset{a[0]};
    assert multiset(b[1..]) == multiset(b) - multiset{b[0]};
  }

  /**
   * Sorted order plus tie order pin the sequence down: two sorted
   * rearrangements of the same books with the same tie order are equal.
   */
  lemma {:induction false} StableSortIsUnique(a: seq<Book>, b: seq<Book>)
    requires multiset(a) == multiset(b)
    requires SortedByRating(a) && SortedByRating(b)
    requires SameTieOrder(a, b)
    ensures a == b
    decreases |a|
  {
    if a != [] {
      assert |b| == |a| by {
        assert |multiset(a)| == |multiset(b)|;
      }
      assert a[0] in multiset(b);
      assert b[0] in multiset(a);
      HeadIsHighest(a, b[0]);
      HeadIsHighest(b, a[0]);
      var m := a[0].rating;
      assert Filter(a, RatedAs(m)) == Filter(b, RatedAs(m));
      FilterCons(a[0], a[1..], RatedAs(m));
      FilterCons(b[0], b[1..], RatedAs(m));
      assert a == [a[0]] + a[1..];
      assert b == [b[0]] + b[1..];
      assert a[0] == b[0];
      TailsKeepTieOrder(a, b);
      SameHeadSameTailBag(a, b);
      StableSortIsUnique(a[1..], b[1..]);
    }
  }

  /** `popularBooks`: the first six books of the sorted copy. */
  function PopularBooks(books: seq<Book>): (r: seq<Book>)
    ensures |r| == if |books| < PopularCount then |books| else PopularCount
    ensures SortedByRating(r)
    ensures multiset(r) <= multiset(books)
  {
    var sorted := SortByRating(books);
    var r := Take(sorted, PopularCount);
    assert sorted == r + sorted[|r|..];
    assert multiset(sorted) == multiset(r) + multiset(sorted[|r|..]);
    r
  }

  /** In a sorted sequence every book before index `k` is rated at least as high as every book from `k` on. */
  lemma SortedSplit(s: seq<Book>, k: nat)
    requires SortedByRating(s) && k <= |s|
    ensures forall p, x :: p in s[..k] && x in s[k..] ==> p.rating >= x.rating
  {
  }

  /** The books left out of the popular list are exactly the sorted copy's remainder. */
  lemma LeftOutIsSortedRest(books: seq<Book>)
    ensures multiset(books) - multiset(PopularBooks(books))
         == multiset(SortByRating(books)[|PopularBooks(books)|..])
  {
    var sorted := SortByRating(books);
    var r := PopularBooks(books);
    assert r == sorted[..|r|];
    assert sorted == r + sorted[|r|..];
    assert multiset(sorted) == multiset(r) + multiset(sorted[|r|..]);
  }

  /** Every popular book is rated at least as high as every book left out. */
  lemma PopularBeatsTheRest(books: seq<Book>)
    ensures forall p, x :: p in PopularBooks(books) && x in multiset(books) - multiset(PopularBooks(books))
                           ==> p.rating >= x.rating
  {
    var sorted := SortByRating(books);
    var r := PopularBooks(books);
    var rest := sorted[|r|..];
    assert r == sorted[..|r|];
    LeftOutIsSortedRest(books);
    SortedSplit(sorted, |r|);
    forall p, x | p in r && x in multiset(books) - multiset(r)
      ensures p.rating >= x.rating
    {
      assert x in rest;
    }
  }

  /** Popular books of equal rating keep their catalog order. */
  lemma PopularKeepsTieOrder(books: seq<Book>, rating: real)
    ensures Filter(PopularBooks(books), RatedAs(rating)) <= Filter(books, RatedAs(rating))
  {
    var sorted := SortByRating(books);
    var r := PopularBooks(books);
    SortKeepsTieOrder(books);
    assert sorted == r + sorted[|r|..];
    FilterAppend(r, sorted[|r|..], RatedAs(rating));
  }

  /** The indices holding `category`, split at the last position. */
  lemma CategoryIndicesSnoc(a: seq<Book>, x: Book, category: string)
    ensures |set i | 0 <= i < |a + [x]| && (a + [x])[i].category == category|
         == |set i | 0 <= i < |a| && a[i].category == category| + (if x.category == category then 1 else 0)
  {
    var s := a + [x];
    var S := set i | 0 <= i < |s| && s[i].category == category;
    var A := set i | 0 <= i < |a| && a[i].category == category;
    if x.category == category {
      assert S == A + {|a|};
      assert |a| !in A;
    } else {
      assert S == A;
    }
  }

  /** `filter` on a list split at its last element. */
  lemma FilterSnoc(books: seq<Book>, category: string)
    requires books != []
    ensures |Filter(books, HasCategory(category))|
         == |Filter(books[..|books| - 1], HasCategory(category))|
            + (if books[|books| - 1].category == category then 1 else 0)
  {
    var a := books[..|books| - 1];
    var x := books[|books| - 1];
    assert books == a + [x];
    FilterAppend(a, [x], HasCategory(category));
    assert [x] == [x] + [];
    FilterCons(x, [], HasCategory(category));
  }

  /** The books `filter` keeps for a category are as many as the indices holding that exact label. */
  lemma {:induction false} CategoryIndices(books: seq<Book>, category: string)
    ensures |Filter(books, HasCategory(category))| == |set i | 0 <= i < |books| && books[i].category == category|
    decreases |books|
  {
    if books == [] {
      assert |books| == 0;
    } else {
      var a := books[..|books| - 1];
      CategoryIndices(a, category);
      FilterSnoc(books, category);
      assert books == a + [books[|books| - 1]];
      CategoryIndicesSnoc(a, books[|books| - 1], category);
    }
  }

  /** The count on a category card: books whose category is exactly that label. */
  function CategoryCount(books: seq<Book>, category: string): (n: nat)
    ensures n <= |books|
    ensures n == 0 <==> forall b :: b in books ==> b.category != category
    ensures n == |set i | 0 <= i < |books| && books[i].category == category|
  {
    var matching := Filter(books, HasCategory(category));
    FilterMembers(books, HasCategory(category));
    CategoryIndices(books, category);
    assert |matching| > 0 ==> matching[0] in matching;
    |matching|
  }

  /**
   * A category card links to `/browse/<label lower-cased>`. Its count compares
   * labels exactly while the browse page compares them ignoring case, so the
   * card never promises more books than the page it links to lists.
   */
  lemma CardCountAtMostBrowse(books: seq<Book>, category: string)
    ensures CategoryCount(books, category)
         <= |BrowseBooks.Visible(books, BrowseBooks.InitialFilters(Lower(category)))|
  {
    var link := Lower(category);
    var f := BrowseBooks.InitialFilters(link);
    assert Trim(f.searchTerm) == "";
    if link != "" {
      assert link[0] != 'A';
      assert BrowseBooks.CategoryActive(link);
      LowerIdempotent(category);
      FilterWeakerIsLonger(books, HasCategory(category), BrowseBooks.CategoryMatcher(link));
    }
  }

  /** The card can promise fewer: a book filed under `sci-fi` is missing from the `Sci-Fi` card but listed by its link. */
  lemma CardCountCanUndercount()
    ensures var books := [Book(9, "Hyperion", "Dan Simmons", "sci-fi", "", 0.0, "")];
            CategoryCount(books, "Sci-Fi") == 0
            && |BrowseBooks.Visible(books, BrowseBooks.InitialFilters(Lower("Sci-Fi")))| == 1
  {
  }
}
