/**
 * The add-book form: its validator, the edits the inputs and the reset button
 * make to the form state, and submission into the catalog store.
 */
module AddBookForm {
  import opened Text
  import opened Books
  import opened BooksSlice

  /** The form fields that carry a validation message. */
  datatype Field = Title | Author | Category | Description | Rating

  /** Field name to message; a field absent from the map has no error. */
  type Errors = map<Field, string>

  const TitleRequired: string := "Title is required"
  const AuthorRequired: string := "Author is required"
  const CategoryRequired: string := "Category is required"
  const DescriptionRequired: string := "Description is required"
  const DescriptionTooShort: string := "Description must be at least 10 characters long"
  const RatingOutOfRange: string := "Rating must be between 0 and 5"

  /** The fewest characters a trimmed description may have. */
  const MinDescriptionLength: nat := 10

  /** The cover a submitted book gets when no image was uploaded. */
  const DefaultCover: string := "https://covers.openlibrary.org/b/isbn/9780000000000-M.jpg"

  /**
   * `validateForm`: every field is checked, none short-circuits another, and
   * each failing field gets exactly one message.
   */
  function Validate(d: Draft): (errs: Errors)
    ensures Title in errs <==> Trim(d.title) == ""
    ensures Author in errs <==> Trim(d.author) == ""
    ensures Category in errs <==> d.category == ""
    ensures Description in errs <==> |Trim(d.description)| < MinDescriptionLength
    ensures Rating in errs <==> d.rating < 0.0 || d.rating > 5.0
    ensures Title in errs ==> errs[Title] == TitleRequired
    ensures Author in errs ==> errs[Author] == AuthorRequired
    ensures Category in errs ==> errs[Category] == CategoryRequired
    ensures Description in errs ==>
      (errs[Description] == DescriptionRequired <==> Trim(d.description) == "")
    ensures Description in errs ==>
      (errs[Description] == DescriptionTooShort <==> Trim(d.description) != "")
    ensures Rating in errs ==> errs[Rating] == RatingOutOfRange
  {
    var e0: Errors := map[];
    var e1 := if Trim(d.title) == "" then e0[Title := TitleRequired] else e0;
    var e2 := if Trim(d.author) == "" then e1[Author := AuthorRequired] else e1;
    var e3 := if d.category == "" then e2[Category := CategoryRequired] else e2;
    var e4 :=
      if Trim(d.description) == "" then e3[Description := DescriptionRequired]
      else if |Trim(d.description)| < MinDescriptionLength then e3[Description := DescriptionTooShort]
      else e3;
    var e5 := if d.rating < 0.0 || d.rating > 5.0 then e4[Rating := RatingOutOfRange] else e4;
    e5
  }

  /** The form may be submitted: `Object.keys(newErrors).length === 0`. */
  predicate IsValid(d: Draft) {
    |Validate(d)| == 0
  }

  /** A form is valid exactly when each of the five rules holds. */
  lemma ValidIff(d: Draft)
    ensures IsValid(d) <==>
      && Trim(d.title) != ""
      && Trim(d.author) != ""
      && d.category != ""
      && |Trim(d.description)| >= MinDescriptionLength
      && 0.0 <= d.rating <= 5.0
  {
  }

  /** The value the form holds for field `f`, compared across two drafts. */
  predicate SameField(f: Field, a: Draft, b: Draft) {
    match f
    case Title => a.title == b.title
    case Author => a.author == b.author
    case Category => a.category == b.category
    case Description => a.description == b.description
    case Rating => a.rating == b.rating
  }

  /** A field's verdict depends on that field's value alone. */
  lemma VerdictIsLocal(f: Field, a: Draft, b: Draft)
    requires SameField(f, a, b)
    ensures f in Validate(a) <==> f in Validate(b)
    ensures f in Validate(a) ==> Validate(a)[f] == Validate(b)[f]
  {
  }

  /** A blank title and a five-character description fail together, with the too-short message. */
  lemma ValidateBlankTitleShortDescription()
    ensures Validate(Draft("", "A", "Fiction", "short", 0.0, "")).Keys == {Title, Description}
    ensures Validate(Draft("", "A", "Fiction", "short", 0.0, ""))[Description] == DescriptionTooShort
  {
    TrimUnpadded("A");
    TrimUnpadded("short");
  }

  /** A rating of 6 on an otherwise complete form fails alone. */
  lemma ValidateRatingSix()
    ensures Validate(Draft("T", "A", "Fiction", "a fine long description", 6.0, "")).Keys == {Rating}
  {
    TrimUnpadded("T");
    TrimUnpadded("A");
    TrimUnpadded("a fine long description");
  }

  /** The submitted record: the form's values, with the default cover when none was uploaded. */
  function WithCover(d: Draft): (r: Draft)
    ensures r.coverImage == if d.coverImage == "" then DefaultCover else d.coverImage
    ensures r.coverImage != ""
    ensures r.(coverImage := d.coverImage) == d
  {
    d.(coverImage := if d.coverImage != "" then d.coverImage else DefaultCover)
  }

  /** The form's state: its values and the messages on display. */
  datatype FormState = FormState(values: Draft, errors: Errors)

  const EmptyDraft: Draft := Draft("", "", "", "", 0.0, "")

  /** The state the form opens in. */
  const InitialForm: FormState := FormState(EmptyDraft, map[])

  /** `handleReset`: back to the opening values with no messages, whatever was there. */
  function Reset(st: FormState): (r: FormState)
    ensures r == InitialForm
    ensures |r.errors| == 0
  {
    FormState(EmptyDraft, map[])
  }

  /** One input's change event: the field it names and the new value. */
  datatype Edit =
    | SetTitle(title: string)
    | SetAuthor(author: string)
    | SetCategory(category: string)
    | SetDescription(description: string)
    | SetRating(rating: real)
  {
    function Target(): Field {
      match this
      case SetTitle(_) => Title
      case SetAuthor(_) => Author
      case SetCategory(_) => Category
      case SetDescription(_) => Description
      case SetRating(_) => Rating
    }
  }

  function ApplyEdit(d: Draft, e: Edit): (r: Draft)
    ensures forall f :: f != e.Target() ==> SameField(f, d, r)
    ensures r.coverImage == d.coverImage
    ensures e.SetTitle? ==> r.title == e.title
    ensures e.SetAuthor? ==> r.author == e.author
    ensures e.SetCategory? ==> r.category == e.category
    ensures e.SetDescription? ==> r.description == e.description
    ensures e.SetRating? ==> r.rating == e.rating
  {
    match e
    case SetTitle(v) => d.(title := v)
    case SetAuthor(v) => d.(author := v)
    case SetCategory(v) => d.(category := v)
    case SetDescription(v) => d.(description := v)
    case SetRating(v) => d.(rating := v)
  }

  /**
   * `handleInputChange`: store the value, and blank the field's message when
   * one is showing (a blank message stays in the map but shows nothing).
   */
  function InputChange(st: FormState, e: Edit): (r: FormState)
    ensures r.values == ApplyEdit(st.values, e)
    ensures r.errors.Keys == st.errors.Keys
    ensures e.Target() in st.errors ==> r.errors[e.Target()] == ""
    ensures forall f :: f in st.errors && f != e.Target() ==> r.errors[f] == st.errors[f]
  {
    var f := e.Target();
    var errors := if f in st.errors && st.errors[f] != "" then st.errors[f := ""] else st.errors;
    FormState(ApplyEdit(st.values, e), errors)
  }

  /** Editing one field never changes another field's verdict. */
  lemma EditKeepsOtherVerdicts(d: Draft, e: Edit, f: Field)
    requires f != e.Target()
    ensures f in Validate(ApplyEdit(d, e)) <==> f in Validate(d)
  {
  }

  /** What pressing "Add Book" leaves behind: the messages shown and the catalog. */
  datatype Submission = Submission(errors: Errors, catalog: State)

  /**
   * `handleSubmit`: validate; when valid, dispatch `addBook` with the defaulted
   * cover, the clock reading `now` becoming the id.
   */
  function Submit(catalog: State, d: Draft, now: int): (r: Submission)
    ensures r.errors == Validate(d)
    ensures !IsValid(d) ==> r.catalog == catalog
    ensures IsValid(d) ==> |r.catalog.books| == |catalog.books| + 1 && r.catalog.books[1..] == catalog.books
    ensures IsValid(d) ==> r.catalog.categories == catalog.categories
    ensures IsValid(d) ==>
      && r.catalog.books[0].id == now
      && r.catalog.books[0].title == d.title
      && r.catalog.books[0].author == d.author
      && r.catalog.books[0].category == d.category
      && r.catalog.books[0].description == d.description
      && r.catalog.books[0].rating == 0.0
      && r.catalog.books[0].coverImage == WithCover(d).coverImage
  {
    var errors := Validate(d);
    if |errors| != 0 then Submission(errors, catalog)
    else Submission(errors, AddBook(catalog, WithCover(d), now))
  }

  /** The store discards the rating the form validated: an accepted book always starts at 0. */
  lemma SubmittedRatingIsZero(catalog: State, d: Draft, now: int)
    requires IsValid(d)
    ensures Submit(catalog, d, now).catalog.books[0].rating == 0.0
    ensures Submit(catalog, d, now).catalog.books[0].id == now
    ensures d.coverImage == "" ==> Submit(catalog, d, now).catalog.books[0].coverImage == DefaultCover
  {
  }

  /** A valid form rated 4.5 is stored with rating 0. */
  lemma RatedFormStoredAsZero(catalog: State, now: int)
    ensures Submit(catalog, Draft("Emma", "Jane Austen", "Romance", "A comedy of manners.", 4.5, ""), now)
              .catalog.books != []
    ensures Submit(catalog, Draft("Emma", "Jane Austen", "Romance", "A comedy of manners.", 4.5, ""), now)
              .catalog.books[0].rating == 0.0
  {
    var d := Draft("Emma", "Jane Austen", "Romance", "A comedy of manners.", 4.5, "");
    assert Trim(d.title) != "" by { TrimUnpadded(d.title); }
    assert Trim(d.author) != "" by { TrimUnpadded(d.author); }
    assert |Trim(d.description)| >= MinDescriptionLength by { TrimUnpadded(d.description); }
    ValidIff(d);
    SubmittedRatingIsZero(catalog, d, now);
  }
}
