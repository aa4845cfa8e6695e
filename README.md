# Local library catalogue: renewal window and record value rules

A model of the decision-making parts of a Django "local library" catalogue
application, written as pure Dafny functions and lemmas.

- **Renewal form** (`forms.dfy`, module `Forms`). A librarian proposes a new
  due-back date `data` for a borrowed copy. `RenewBookForm.clean_renewal_date`
  refuses a date before today with "Invalid date - renewal in past". It
  refuses a date more than four weeks (28 days) ahead with "Invalid date -
  renewal more than 4 weeks ahead". Otherwise it returns the date unchanged.
  Dates are whole day numbers and `today` is a parameter.
- **Record value rules** (`models.dfy`, module `Models`). These are the
  derived `BookInstance.is_overdue` flag, the loan-status choices and their
  default, `Author.__str__`, `Book.display_genre`, and the case-insensitive
  unique names of `Genre` and `Language`. They also cover the declared list
  orderings of authors (last name, then first name) and copies (due date).
- **Renewal and overdue** (`renewal.dfy`, module `Renewal`). A date the form
  has just accepted, stored as a copy's due date, does not make the copy
  overdue that day.
- Support modules: `Wrappers` (an `Option` for nullable columns) and `Dates`
  (`timedelta(weeks=n)` as `7 * n` days) in `basics.dfy`. `Text` in `text.dfy`
  holds ASCII lower-casing, `", ".join` with its inverse on non-empty lists of
  items without ", ", and lexicographic
  code-point order on strings, which is how a binary collation (SQLite's
  default) sorts text columns.

Two points of the code worth noting:
- The refusal messages are the two exact strings from `forms.py`.
- The `status` field is declared `blank=True`, so field validation accepts
  the empty string as well as the four keys "d", "o", "a", "r"
  (`StatusFieldValid`). The default is "d" (Maintenance).

## Model

| member | source | states |
|---|---|---|
| Forms.CleanRenewalDate | locallibrary/catalog/forms.py:13-26 | accepted exactly when today <= data <= today + 28; an accepted date is returned unchanged; the refusal is "in past" exactly when data < today and "more than 4 weeks ahead" exactly when data > today + 28, so at most one reason is given |
| Forms.PastDateRejected | locallibrary/catalog/forms.py:17-18 | every date before today is refused with exactly "Invalid date - renewal in past" |
| Forms.FarDateRejected | locallibrary/catalog/forms.py:21-23 | every date after today + 28 days is refused with exactly "Invalid date - renewal more than 4 weeks ahead" |
| Forms.WindowBoundsInclusive | locallibrary/catalog/tests/test_forms.py:9-34 | today and today + 28 are accepted; today - 1 and today + 29 are refused with the matching reason |
| Forms.MessagesDistinct | locallibrary/catalog/forms.py:17-23 | the two refusal messages differ, so the message identifies the reason |
| Forms.CleanIdempotent | locallibrary/catalog/forms.py:13-26 | re-cleaning an accepted value on the same day accepts it again with the same value |
| Forms.DefaultDateAccepted | locallibrary/catalog/forms.py:11 | the advertised default of three weeks ahead (today + 21) is accepted |
| Models.UnsetDueDateNeverOverdue | locallibrary/catalog/models.py:127-129 | `IsOverdue` models `is_overdue`; a copy without a due date is never overdue |
| Models.OverdueFromDayAfterDue | locallibrary/catalog/models.py:127-129 | `IsOverdue` (the `is_overdue` property) holds exactly when the copy has a due date and today is after it; due today is not overdue, the next day is, and it stays overdue as days pass |
| Models.ParseStatus | locallibrary/catalog/models.py:131-136 | a key maps to the choice whose key it is; a key that is no choice's key maps to nothing |
| Models.StatusCodeRoundTrip | locallibrary/catalog/models.py:131-136 | every choice's key parses back to that choice and is a valid field value |
| Models.StatusFieldValues | locallibrary/catalog/models.py:138-143 | `StatusFieldValid` models validation of the `status` field; it accepts exactly "", "d", "o", "a" and "r" |
| Models.LoanStatusChoicesDistinct | locallibrary/catalog/models.py:131-136 | there are four choices with pairwise distinct keys |
| Models.NewBookInstance | locallibrary/catalog/models.py:116-143 | a new copy keeps the given book and imprint, has no due date, status "d" (Maintenance), a valid status value, and is not overdue on any day |
| Models.AuthorStringRoundTrip | locallibrary/catalog/models.py:172-174 | `AuthorString` models `Author.__str__`: last name, ", ", first name; cutting it at the first ", " gives back both names when the last name has no ", " |
| Models.DisplayGenreEmpty | locallibrary/catalog/models.py:102-104 | `DisplayGenre` models `display_genre`; a book without genres displays as the empty string |
| Models.DisplayGenreShowsFirstThree | locallibrary/catalog/models.py:102-104 | `DisplayGenre` lists min(3, n) names, those of the first genres in order, separated by ", "; for a book with at least one genre, reading the display back yields exactly those names if and only if no shown name has ", " |
| Models.DisplayGenreIgnoresRest | locallibrary/catalog/models.py:102-104 | `DisplayGenre`: genres after the third do not change the display |
| Models.Collides | locallibrary/catalog/models.py:48-55 | a name collides exactly when some stored name is equal to it after lower-casing |
| Models.InsertName | locallibrary/catalog/models.py:48-78 | `CaseInsensitiveUnique` models the `Lower('name')` unique constraints; a colliding name is refused with its table's message and the names stay the same; otherwise it is appended; `CaseInsensitiveUnique` is preserved |
| Models.UniqueIgnoringCaseIsUnique | locallibrary/catalog/models.py:34-55 | case-insensitive uniqueness implies the column's plain uniqueness |
| Models.CaseVariantRefused | locallibrary/catalog/models.py:48-55 | adding "FANTASY" beside "Fantasy" is refused with "Genre already exists (case insensitive match)" |
| Models.AuthorOrderStrictTotal | locallibrary/catalog/models.py:165-166 | `AuthorBefore` models `ordering = ['last_name', 'first_name']`; it is irreflexive, transitive and total on distinct name pairs |
| Models.AuthorsOrderedByNeighbours | locallibrary/catalog/models.py:165-166 | `AuthorsOrdered` (a list sorted by `AuthorBefore`) holds when every neighbouring pair is in order |
| Models.OrderedByDueBackNeighbours | locallibrary/catalog/models.py:145-146 | `OrderedByDueBack` models `ordering = ['due_back']`; for copies that all have due dates it holds exactly when every neighbour pair is ascending |
| Renewal.AcceptedRenewalNotOverdue | locallibrary/catalog/models.py:127-129 | a copy whose due date was just set to an accepted renewal date is not overdue that day or any day up to it, and is overdue the day after |
| Text.SplitJoin | locallibrary/catalog/models.py:104 | `Join` models `sep.join`; non-empty lists of items joined with ", " read back exactly when none contains ", " |
| Text.LowerIdempotent | locallibrary/catalog/models.py:51 | `Lower` models the `Lower` function of the constraints (ASCII); lower-casing twice equals lower-casing once |
| Text.StrLessTransitive | locallibrary/catalog/models.py:165-166 | `StrLess`, string order under a binary collation (code points, a proper prefix first), is transitive |
| Text.StrLessTotal | locallibrary/catalog/models.py:165-166 | any two different strings are ordered one way or the other |

## Left out

- Clock: `date.today()` is a parameter. The form reads the clock twice, and the two readings could fall on either side of midnight. The model uses one `today`.
- Date range: Python dates stop at year 9999, and `today + timedelta(weeks=4)` raises `OverflowError` near that limit. Day numbers are unbounded.
- Translation: `gettext_lazy` is not modelled. The messages are plain strings.
- Form parsing: how `forms.DateField` turns the submitted text into a date is framework behaviour.
- Lower-casing: only ASCII letters are lowered, as SQLite's built-in `lower()` does. Other databases (PostgreSQL, MySQL) also fold non-ASCII letters according to their locale, and that folding is not modelled.
- `genre.all()`: the genres are taken in the order the database returns them, which the source does not fix.
- Renewal endpoint: the permission, 404 and redirect workflow around renewal has no view in `views.py` or `urls.py`, so it is not part of this model.
- ORM persistence: queries, counts in `index`, and `on_delete` RESTRICT/SET_NULL rules are enforced by the database and framework.
- Views: generic list/detail views, pagination, authentication, login redirects and the session visit counter are framework behaviour or session I/O.
- URLs and ids: `get_absolute_url` (a URL resolver call) and UUID generation for copies (library randomness) are not modelled. `Genre.__str__`, `Language.__str__` and `Book.__str__` only return a field and are not modelled.
- `BookInstance.__str__`: it formats the copy's UUID and its book's title as `id (title)`. The UUID is not modelled, and the method raises `AttributeError` when `book` is null, which the field allows.
- Borrower: the `borrower` foreign key to a user account is not modelled. User accounts belong to the framework.
- Book ordering: `Book.Meta.ordering = ['title', 'author']` orders by the related author through the ORM and is not modelled.
- Models.AuthorBefore: the order is the code-point order of a binary collation (SQLite's default). `Meta.ordering` is run by the database's `ORDER BY` under the column's collation, and the locale collations of PostgreSQL or MySQL order names differently.
- Models.InsertName: every collision gets the case-insensitive constraint's message. A name equal to a stored one, case included, also breaks the column's own `unique=True`. Django then reports its standard unique-field message as well as, or instead of, the constraint's message, depending on version and entry point, and the database alone raises only an integrity error. The model does not distinguish these.
- Null due dates: where the database places copies without a due date in the `due_back` ordering depends on the backend. `OrderedByDueBack` constrains only copies that have one.
- `MyModelName`: this placeholder class is not modelled. It is tutorial boilerplate.
- `admin.py`, `urls.py`: these are registration and routing tables.
