# Personal library manager — a Dafny model of the book-list logic

The library manager keeps a personal catalogue of books: an ordered list of
records (title, author, year, genre, read flag) that the user adds to,
removes from, searches, lists and summarises through a menu of five pages.
The list is written back to a library file after every add or remove that
succeeds.

This project models the domain logic inside those pages, without the web
widgets around it:

- `text.dfy` (module `Text`): lower-casing of strings (ASCII letters only)
  and Python's substring test `needle in hay`, as a left-to-right scan
  proved equal to "occurs at some position".
- `books.dfy` (module `Books`): the `Book` record and the read-only
  operations over a `seq<Book>`: the first case-insensitive title match,
  Python's `list.remove` (delete the first element equal to a value), the
  search filter, the numbered listing shared by the search and display
  pages, and the read count of the statistics page.
- `library_manager.dfy` (module `LibraryManager`): the list object that
  `add_book` and `remove_book` change in place (class `Library`, whose
  `books` field the methods reassign), and the app's main loop for one
  rerun (class `Session`): reload the list from the file, dispatch the
  chosen page, save after a successful add or remove.

`remove_book` is modelled as written. It scans a snapshot of the list. When
a title matches, it removes that record *by value* with `list.remove`, which
deletes the first element equal to the record. `Books.RemoveFoundBook`
proves that this is always the record at the first matching index: an equal
record earlier in the list would have the same title and would have matched
first.

The session-state test in `main` looks for the key `" library"`, with a
leading space. It never finds it, so every rerun reloads the list from the
file. `Session.Rerun` models that reload. Its contract shows that nothing is
lost by it: every change is saved, so the in-memory list always equals the
file's contents at the end of a rerun.

Two details of the code that the model keeps:

- The add form's checkbox sets the new record's read flag
  (library_manager.py:28, 37).
- An empty library's statistics page shows a notice (`NoStats`), not a
  percentage (library_manager.py:91-93).

## Model

| member | source | states |
|---|---|---|
| Text.Lower | library_manager.py:50 | lower-casing keeps the length and maps each character through the ASCII lower-case table |
| Text.LowerIdempotent | library_manager.py:50 | lower-casing an already lower-cased string changes nothing |
| Text.ContainsIff | library_manager.py:65-67 | the substring scan answers true exactly when the term occurs at some position of the text |
| Text.Contains | library_manager.py:65-67 | `term in text`: the empty term is in every text, and a term longer than the text is never in it |
| Books.TitleMatches | library_manager.py:50 | the case-insensitive title comparison: an exact title always matches, and matching titles have the same length; `FirstTitleMatch` pins where it is applied |
| Books.FirstTitleMatch | library_manager.py:49-50 | the index found is a record whose lower-cased title equals the lower-cased target, no earlier record matches, and "none" means no record matches at all |
| Books.FirstTitleMatchIgnoresCase | library_manager.py:50 | the removal target is compared without regard to letter case: two targets that lower-case alike find the same record |
| Books.FirstTitleMatchLowered | library_manager.py:50 | lower-casing the removal target before the scan finds the same record |
| Books.RemoveFirst | library_manager.py:51 | `list.remove` of a value in the list shortens it by exactly one |
| Books.RemoveFirstAt | library_manager.py:51 | `list.remove(x)` deletes the element at the first index holding `x` and keeps the rest in order |
| Books.RemoveFoundBook | library_manager.py:49-53 | removing by value the record found by the title scan deletes exactly the record at the first matching index |
| Books.DeleteAtSpec | library_manager.py:51-53 | after a removal the records before the index are unchanged, those after it move down by one, and the old list is the new one plus the removed record |
| Books.DeleteAtIsSubsequence | library_manager.py:51 | after a removal the list is a subsequence of the list before |
| Books.RemoveAtMostOne | library_manager.py:49-53 | a removal takes out only the first match: the shortened list still has a matching title exactly when a later record matched |
| Books.AddThenRemove | library_manager.py:31-55 | adding a book whose title is new and then removing that title gives back the original list |
| Books.Filter | library_manager.py:65-67 | a list comprehension keeps no more elements than its source, and every kept element passes the test |
| Books.FilterMembership | library_manager.py:65-67 | an element is kept exactly when it is in the list and passes the test |
| Books.FilterAppend | library_manager.py:65-67 | filtering two lists joined is filtering each and joining, so kept elements keep their relative order |
| Books.FilterIsSubsequence | library_manager.py:65-67 | the kept elements are a subsequence of the list |
| Books.FilterAll | library_manager.py:65-67 | when every element passes, the whole list is kept |
| Books.FilterNone | library_manager.py:65-75 | nothing is kept exactly when no element passes, which is when the no-match warning shows |
| Books.Hit | library_manager.py:65-67 | the test inside the search comprehensions: the empty term hits every record, and a hit term is no longer than the chosen field; `Text.ContainsIff` gives its exact meaning |
| Books.Matching | library_manager.py:64-67 | the search comprehension keeps no more records than the library, each one a hit; `MatchingMembership` and `MatchingAppend` pin it down completely |
| Books.MatchingMembership | library_manager.py:64-67 | a record is a search match exactly when it is in the library and its chosen field (title or author) contains the term, ignoring case |
| Books.MatchingIsSubsequence | library_manager.py:64-67 | the search matches are a subsequence of the library: library records in library order |
| Books.MatchingAppend | library_manager.py:64-67 | searching two parts of a library and joining the results equals searching the whole, so matches keep their relative order |
| Books.MatchingAll | library_manager.py:64-67 | when every record hits, the search returns the whole library |
| Books.EmptyTermMatchesAll | library_manager.py:63 | what the guard on the search term prevents: searching the empty term would return every record |
| Books.MatchingNone | library_manager.py:64-75 | there are no matches, and so the no-match warning, exactly when no record's chosen field contains the term |
| Books.StatusLabel | library_manager.py:72 | the status label is "Read" exactly for a read book and "Unread" otherwise (the same expression appears at line 84) |
| Books.Numbered | library_manager.py:71-73 | the listing has one line per book, the k-th line carries number first + k, the k-th book and its Read/Unread label |
| Books.SearchBooks | library_manager.py:63-75 | an empty term searches nothing; a non-empty term gives the no-match warning exactly when there are no matches, otherwise the matches in order, numbered from 1, each with its Read/Unread label |
| Books.DisplayBooks | library_manager.py:80-85 | an empty library gives the "empty" notice and only then; otherwise every record in library order, numbered 1 to the length, each with its Read/Unread label |
| Books.ReadCount | library_manager.py:94 | the number of read records is at most the number of records |
| Books.ReadCountIsFlagCount | library_manager.py:94 | the read count is the number of true read flags |
| Books.ReadCountAppend | library_manager.py:94 | the read count of two lists joined is the sum of their read counts |
| Books.ReadCountExtremes | library_manager.py:94 | the read count equals the total exactly when every record is read, and is 0 exactly when none is |
| Books.AddReadCount | library_manager.py:94 | appending a book raises the read count by one exactly when that book is read |
| Books.RemoveReadCount | library_manager.py:94 | deleting a record lowers the read count by one exactly when that record was read |
| Books.LibraryStats | library_manager.py:90-94 | no statistics for an empty library; otherwise the total is the length and the read count is the number of read records, between 0 and the total |
| LibraryManager.Library.AddBook | library_manager.py:31-42 | the add succeeds exactly when the form is submitted with title, author and genre non-empty; then the new record is appended at the end and nothing before it changes; otherwise the list is unchanged |
| LibraryManager.Library.RemoveBook | library_manager.py:49-55 | with the button pressed, the first case-insensitive title match is deleted and "removed" reported; with no match the list is unchanged and "not found" reported; without the button nothing happens |
| LibraryManager.Session.constructor | library_manager.py:9-13 | at start-up the in-memory list and the file hold the same records |
| LibraryManager.Session.Rerun | library_manager.py:108-131 | each rerun reloads the list from the file, runs the chosen page on it, and reports a save exactly after a successful add or remove; without a save the file is unchanged, and the file always ends equal to the in-memory list |

## Left out

- Page layout, titles, buttons, text inputs, radio buttons, sidebar menu and
  the footer (library_manager.py:22-29, 46-48, 59-61, 101-135) are UI. Form
  inputs are method parameters. The year field's 0..9999 bound is a
  precondition of `AddBook`.
- The text of the success, warning and error messages, and the formatting of
  each listed line. A line is kept as its number, its book and its
  Read/Unread label.
- Reading and writing the library file as JSON (library_manager.py:9-18).
  The file is modelled as a `seq<Book>` that is saved and loaded verbatim;
  an absent file is the empty list. A file that fails to parse is not
  modelled.
- The read percentage, its one-decimal rendering and the progress-bar value
  (library_manager.py:95-98) are floating point. The model stops at the
  total and the read count.
- Text.Lower: lower-cases ASCII letters only, a simplification of Python's
  Unicode `str.lower`.
- `list.remove` raising `ValueError` for a value not in the list: the
  record passed to it always comes from the list, so `RemoveFirst` requires
  membership.
- Concurrent sessions writing the same file.
