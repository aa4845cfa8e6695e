/** The value rules of the catalogue's records (locallibrary/catalog/models.py):
    the derived `is_overdue` flag, the loan-status choices and default, the
    string forms of authors and of a book's genres, case-insensitive name
    uniqueness for genres and languages, and the declared list orderings. */
module Models {
  import opened Wrappers
  import opened Dates
  import opened Text

  datatype Genre = Genre(name: string)

  datatype Language = Language(name: string)

  datatype Author = Author(
    firstName: string,
    lastName: string,
    dateOfBirth: Option<Date>,
    dateOfDeath: Option<Date>)

  /** `genres` lists the many-to-many relation in the order the database
      returns it. */
  datatype Book = Book(
    title: string,
    author: Option<Author>,
    summary: string,
    isbn: string,
    genres: seq<Genre>,
    language: Option<Language>)

  /** A physical copy. `status` is the stored one-character code. */
  datatype BookInstance = BookInstance(
    book: Option<Book>,
    imprint: string,
    dueBack: Option<Date>,
    status: string)

  // ---------------------------------------------------------------------
  // BookInstance.is_overdue

  /** A copy is overdue when it has a due date and today is past it. */
  predicate IsOverdue(copy: BookInstance, today: Date) {
    copy.dueBack.Some? && today > copy.dueBack.value
  }

  /** A copy without a due date is never overdue. */
  lemma UnsetDueDateNeverOverdue(copy: BookInstance, today: Date)
    requires copy.dueBack.None?
    ensures !IsOverdue(copy, today)
  {
  }

  /** Overdue exactly from the day after the due date on: a copy due today
      is not overdue yet, and once overdue it stays so as days pass. */
  lemma OverdueFromDayAfterDue(copy: BookInstance, due: Date, today: Date, later: Date)
    requires copy.dueBack == Some(due)
    requires today <= later
    ensures IsOverdue(copy, today) <==> due < today
    ensures !IsOverdue(copy, due) && IsOverdue(copy, due + 1)
    ensures IsOverdue(copy, today) ==> IsOverdue(copy, later)
  {
  }

  // ---------------------------------------------------------------------
  // BookInstance.LOAN_STATUS and the status field

  datatype LoanStatus = Maintenance | OnLoan | Available | Reserved {
    /** The stored key of this choice. */
    function Code(): string {
      match this
      case Maintenance => "d"
      case OnLoan => "o"
      case Available => "a"
      case Reserved => "r"
    }

    /** The human-readable label of this choice. */
    function Label(): string {
      match this
      case Maintenance => "Maintenance"
      case OnLoan => "On loan"
      case Available => "Available"
      case Reserved => "Reserved"
    }
  }

  /** The `choices` of the status field, in declaration order. */
  const LoanStatusChoices: seq<LoanStatus> := [Maintenance, OnLoan, Available, Reserved]

  /** The field's default key. */
  const DefaultStatusCode: string := "d"

  /** The choice a stored key stands for, if any. */
  function ParseStatus(code: string): (r: Option<LoanStatus>)
    ensures r.Some? ==> r.value.Code() == code
    ensures r.None? ==> forall st: LoanStatus :: st.Code() != code
  {
    if code == "d" then Some(Maintenance)
    else if code == "o" then Some(OnLoan)
    else if code == "a" then Some(Available)
    else if code == "r" then Some(Reserved)
    else None
  }

  /** Field validation of `status`: at most one character, and either blank
      (the field is declared `blank=True`) or the key of a choice. */
  predicate StatusFieldValid(value: string) {
    |value| <= 1 && (value == "" || ParseStatus(value).Some?)
  }

  /** Keys and choices correspond one to one. */
  lemma StatusCodeRoundTrip(st: LoanStatus)
    ensures ParseStatus(st.Code()) == Some(st)
    ensures StatusFieldValid(st.Code())
  {
  }

  /** The values the status field accepts are exactly "", "d", "o", "a", "r". */
  lemma StatusFieldValues(value: string)
    ensures StatusFieldValid(value) <==> value in ["", "d", "o", "a", "r"]
  {
  }

  /** The choices have four distinct keys. */
  lemma LoanStatusChoicesDistinct()
    ensures |LoanStatusChoices| == 4
    ensures forall i, j :: 0 <= i < j < 4 ==> LoanStatusChoices[i].Code() != LoanStatusChoices[j].Code()
  {
  }

  /** A copy as created from a book and an imprint alone: no due date and
      the default status. */
  function NewBookInstance(book: Option<Book>, imprint: string): (copy: BookInstance)
    ensures copy.book == book && copy.imprint == imprint && copy.dueBack.None?
    ensures ParseStatus(copy.status) == Some(Maintenance)
    ensures StatusFieldValid(copy.status)
    ensures forall today :: !IsOverdue(copy, today)
  {
    BookInstance(book, imprint, None, DefaultStatusCode)
  }

  // ---------------------------------------------------------------------
  // Author.__str__

  /** `f'{self.last_name}, {self.first_name}'`. */
  function AuthorString(a: Author): string {
    a.lastName + Separator + a.firstName
  }

  /** The string form names the author unambiguously: when the last name has
      no ", " in it, cutting at the first ", " gives back both names. */
  lemma AuthorStringRoundTrip(a: Author)
    requires NoSeparator(a.lastName)
    ensures CutAtSeparator(AuthorString(a)) == Some((a.lastName, a.firstName))
    ensures |AuthorString(a)| == |a.lastName| + 2 + |a.firstName|
  {
    CutAfterPrefix(a.lastName, a.firstName);
  }

  // ---------------------------------------------------------------------
  // Book.display_genre

  /** The names of `genres`, in order. */
  function GenreNames(genres: seq<Genre>): seq<string> {
    seq(|genres|, i requires 0 <= i < |genres| => genres[i].name)
  }

  /** How many genres `display_genre` shows: the slice `[:3]`. */
  function ShownGenres(n: nat): (k: nat) {
    if n < 3 then n else 3
  }

  /** `', '.join(genre.name for genre in self.genre.all()[:3])`. */
  function DisplayGenre(book: Book): string {
    Join(Separator, GenreNames(book.genres)[..ShownGenres(|book.genres|)])
  }

  /** No genres give the empty string. */
  lemma DisplayGenreEmpty(book: Book)
    requires book.genres == []
    ensures DisplayGenre(book) == ""
  {
  }

  /** The display lists the names of the first three genres (all of them
      when there are fewer), in order, separated by ", ": reading it back
      yields exactly those names if and only if none of the shown ones
      contains ", ". */
  lemma DisplayGenreShowsFirstThree(book: Book)
    requires |book.genres| >= 1
    ensures Split(DisplayGenre(book)) == GenreNames(book.genres)[..ShownGenres(|book.genres|)] <==>
      forall i :: 0 <= i < ShownGenres(|book.genres|) ==> NoSeparator(book.genres[i].name)
    ensures (forall i :: 0 <= i < ShownGenres(|book.genres|) ==> NoSeparator(book.genres[i].name)) ==>
      |Split(DisplayGenre(book))| == ShownGenres(|book.genres|) <= 3
    ensures (forall i :: 0 <= i < ShownGenres(|book.genres|) ==> NoSeparator(book.genres[i].name)) ==>
      forall i :: 0 <= i < ShownGenres(|book.genres|) ==> Split(DisplayGenre(book))[i] == book.genres[i].name
  {
    var shown := GenreNames(book.genres)[..ShownGenres(|book.genres|)];
    assert forall i :: 0 <= i < |shown| ==> shown[i] == book.genres[i].name;
    SplitJoin(shown);
  }

  /** Genres beyond the third never show. */
  lemma DisplayGenreIgnoresRest(book: Book, more: seq<Genre>)
    requires |book.genres| >= 3
    ensures DisplayGenre(book.(genres := book.genres + more)) == DisplayGenre(book)
  {
    var longer := book.(genres := book.genres + more);
    assert GenreNames(longer.genres)[..3] == GenreNames(book.genres)[..3];
  }

  // ---------------------------------------------------------------------
  // Case-insensitive unique names of Genre and Language

  /** The two tables that carry a `Lower('name')` unique constraint. */
  datatype NameTable = GenreTable | LanguageTable {
    function ConstraintName(): string {
      match this
      case GenreTable => "genre_name_case_insensitive_unique"
      case LanguageTable => "language_name_case_insensitive_unique"
    }

    function ViolationMessage(): string {
      match this
      case GenreTable => "Genre already exists (case insensitive match)"
      case LanguageTable => "Language already exists (case insensitive match)"
    }
  }

  /** No two stored names are equal after lower-casing. */
  predicate CaseInsensitiveUnique(names: seq<string>) {
    forall i, j :: 0 <= i < j < |names| ==> Lower(names[i]) != Lower(names[j])
  }

  /** Whether `name` clashes, ignoring case, with a stored name. */
  function Collides(names: seq<string>, name: string): (b: bool)
    ensures b <==> exists i :: 0 <= i < |names| && Lower(names[i]) == Lower(name)
  {
    if names == [] then false
    else Lower(names[0]) == Lower(name) || Collides(names[1..], name)
  }

  /** The stored names after an insert, and the violation message if the
      insert was refused. */
  datatype Insertion = Insertion(names: seq<string>, error: Option<string>)

  /** Saving a new row named `name` into `table`: refused with the
      constraint's message when it collides, appended otherwise. */
  function InsertName(table: NameTable, names: seq<string>, name: string): (r: Insertion)
    ensures r.error.Some? <==> exists i :: 0 <= i < |names| && Lower(names[i]) == Lower(name)
    ensures r.error.Some? ==> r.error.value == table.ViolationMessage() && r.names == names
    ensures r.error.None? ==> r.names == names + [name]
    ensures CaseInsensitiveUnique(names) ==> CaseInsensitiveUnique(r.names)
  {
    if Collides(names, name) then Insertion(names, Some(table.ViolationMessage()))
    else
      assert forall i :: 0 <= i < |names| ==> (names + [name])[i] == names[i];
      Insertion(names + [name], None)
  }

  /** Case-insensitive uniqueness implies the plain `unique=True` on the
      name column. */
  lemma UniqueIgnoringCaseIsUnique(names: seq<string>)
    requires CaseInsensitiveUnique(names)
    ensures forall i, j :: 0 <= i < j < |names| ==> names[i] != names[j]
  {
  }

  /** "Fantasy" and "FANTASY" are the same genre name. */
  lemma CaseVariantRefused()
    ensures InsertName(GenreTable, ["Fantasy"], "FANTASY")
      == Insertion(["Fantasy"], Some("Genre already exists (case insensitive match)"))
  {
  }

  // ---------------------------------------------------------------------
  // Declared orderings

  /** `Author.Meta.ordering = ['last_name', 'first_name']`: `x` sorts
      strictly before `y`, comparing names under a binary collation. */
  predicate AuthorBefore(x: Author, y: Author) {
    StrLess(x.lastName, y.lastName)
    || (x.lastName == y.lastName && StrLess(x.firstName, y.firstName))
  }

  /** A list of authors in the declared order. */
  predicate AuthorsOrdered(authors: seq<Author>) {
    forall i, j :: 0 <= i < j < |authors| ==> !AuthorBefore(authors[j], authors[i])
  }

  /** The author order is a strict total order on (last name, first name). */
  lemma AuthorOrderStrictTotal(x: Author, y: Author, z: Author)
    ensures !AuthorBefore(x, x)
    ensures AuthorBefore(x, y) && AuthorBefore(y, z) ==> AuthorBefore(x, z)
    ensures (x.lastName, x.firstName) != (y.lastName, y.firstName) ==>
      AuthorBefore(x, y) || AuthorBefore(y, x)
  {
    StrLessIrreflexive(x.lastName);
    StrLessIrreflexive(x.firstName);
    if AuthorBefore(x, y) && AuthorBefore(y, z) {
      if StrLess(x.lastName, y.lastName) && StrLess(y.lastName, z.lastName) {
        StrLessTransitive(x.lastName, y.lastName, z.lastName);
      }
      if x.lastName == y.lastName == z.lastName {
        StrLessTransitive(x.firstName, y.firstName, z.firstName);
      }
    }
    if x.lastName != y.lastName {
      StrLessTotal(x.lastName, y.lastName);
    } else if x.firstName != y.firstName {
      StrLessTotal(x.firstName, y.firstName);
    }
  }

  /** Checking neighbours is enough: a list whose adjacent authors are in
      order is in order throughout. */
  lemma {:induction false} AuthorsOrderedByNeighbours(authors: seq<Author>)
    requires forall i :: 0 <= i < |authors| - 1 ==> !AuthorBefore(authors[i + 1], authors[i])
    ensures AuthorsOrdered(authors)
  {
    if |authors| > 1 {
      var tail := authors[1..];
      AuthorsOrderedByNeighbours(tail);
      forall j | 1 <= j < |authors|
        ensures !AuthorBefore(authors[j], authors[0])
      {
        if j > 1 {
          assert !AuthorBefore(authors[j], authors[1]) by { assert tail[j - 1] == authors[j]; }
        }
        AuthorOrderStrictTotal(authors[0], authors[1], authors[j]);
        AuthorOrderStrictTotal(authors[j], authors[1], authors[0]);
        AuthorOrderStrictTotal(authors[j], authors[0], authors[1]);
        AuthorOrderStrictTotal(authors[1], authors[j], authors[0]);
      }
    }
  }

  /** `BookInstance.Meta.ordering = ['due_back']`: among copies with a due
      date, earlier dates come first. */
  predicate OrderedByDueBack(copies: seq<BookInstance>) {
    forall i, j :: 0 <= i < j < |copies| && copies[i].dueBack.Some? && copies[j].dueBack.Some? ==>
      copies[i].dueBack.value <= copies[j].dueBack.value
  }

  /** For a list of loaned copies that all have due dates, being in order is
      the same as every neighbour pair being in order. */
  lemma {:induction false} OrderedByDueBackNeighbours(copies: seq<BookInstance>)
    requires forall i :: 0 <= i < |copies| ==> copies[i].dueBack.Some?
    ensures OrderedByDueBack(copies) <==>
      forall i :: 0 <= i < |copies| - 1 ==> copies[i].dueBack.value <= copies[i + 1].dueBack.value
  {
    if |copies| > 1 && forall i :: 0 <= i < |copies| - 1 ==> copies[i].dueBack.value <= copies[i + 1].dueBack.value {
      OrderedByDueBackNeighbours(copies[1..]);
      assert OrderedByDueBack(copies[1..]);
      forall i, j | 0 <= i < j < |copies|
        ensures copies[i].dueBack.value <= copies[j].dueBack.value
      {
        if i > 0 {
          assert copies[1..][i - 1] == copies[i] && copies[1..][j - 1] == copies[j];
        } else if j > 1 {
          assert copies[1..][0] == copies[1] && copies[1..][j - 1] == copies[j];
        }
      }
    }
  }
}
