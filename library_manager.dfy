/**
 * The book list that the UI mutates in place (`add_book`, `remove_book`)
 * and the session that dispatches one menu action per rerun and writes the
 * list back to the library file after every successful change.
 */
module LibraryManager {
  import opened Text
  import opened Books

  /** The outcome of the remove page: the button was not pressed, a record was removed, or none matched. */
  datatype RemoveStatus = Idle | Removed | NotFound

  /** The in-memory list of book records, changed in place by add and remove. */
  class Library {
    var books: seq<Book>

    constructor (initial: seq<Book>)
      ensures books == initial
    {
      books := initial;
    }

    /**
     * `add_book`: when the form is submitted with title, author and genre
     * all non-empty, appends the new record and reports success; otherwise
     * leaves the list alone. The year comes from a number field bounded to
     * 0..9999.
     */
    method AddBook(submitted: bool, title: string, author: string, year: int, genre: string, read: bool)
      returns (added: bool)
      requires 0 <= year <= 9999
      modifies this
      ensures added <==> submitted && title != "" && author != "" && genre != ""
      ensures added ==> books == old(books) + [Book(title, author, year, genre, read)]
      ensures !added ==> books == old(books)
    {
      added := false;
      if submitted && title != "" && author != "" && genre != "" {
        var book := Book(title, author, year, genre, read);
        books := books + [book];
        added := true;
      }
    }

    /**
     * `remove_book`: when the button is pressed, scans a snapshot of the
     * list for the first record whose title equals `title` ignoring case,
     * removes it by value and stops; reports "not found" if the scan ends.
     */
    method RemoveBook(clicked: bool, title: string) returns (status: RemoveStatus)
      modifies this
      ensures !clicked ==> status == Idle && books == old(books)
      ensures clicked && FirstTitleMatch(old(books), title).None? ==>
        status == NotFound && books == old(books)
      ensures clicked && FirstTitleMatch(old(books), title).Some? ==>
        status == Removed && books == DeleteAt(old(books), FirstTitleMatch(old(books), title).value)
    {
      status := Idle;
      if clicked {
        var snapshot := books;
        var i := 0;
        while i < |snapshot|
          invariant 0 <= i <= |snapshot|
          invariant books == snapshot == old(books)
          invariant forall j :: 0 <= j < i ==> !TitleMatches(snapshot[j], title)
        {
          var book := snapshot[i];
          if Lower(book.title) == Lower(title) {
            assert FirstTitleMatch(snapshot, title) == Some(i);
            RemoveFoundBook(snapshot, title, i);
            books := RemoveFirst(books, book);
            status := Removed;
            return;
          }
          i := i + 1;
        }
        status := NotFound;
      }
    }
  }

  /** One interaction with the menu, carrying the form inputs of the chosen page. */
  datatype Request =
    | AddRequest(submitted: bool, title: string, author: string, year: int, genre: string, read: bool)
    | RemoveRequest(clicked: bool, target: string)
    | SearchRequest(field: SearchField, term: string)
    | DisplayRequest
    | StatsRequest

  /** What the chosen page reports back. */
  datatype Response =
    | AddResponse(added: bool)
    | RemoveResponse(status: RemoveStatus)
    | SearchResponse(result: SearchResult)
    | DisplayResponse(display: Display)
    | StatsResponse(stats: StatsReport)

  /**
   * The running app: the session's library and the contents of the library
   * file. The session-state test looks for a key spelled with a leading
   * space, so it never succeeds and every rerun reloads the list from the file.
   */
  class Session {
    const library: Library
    var stored: seq<Book>

    /** Start-up with the file's contents (an absent file reads as the empty list). */
    constructor (file: seq<Book>)
      ensures stored == file && library.books == file
      ensures fresh(library)
    {
      library := new Library(file);
      stored := file;
    }

    /**
     * `main` for one rerun: reload from the file, dispatch the request to
     * its page, and save after an add or remove that reports success.
     * `saved` tells whether the file was written.
     */
    method Rerun(req: Request) returns (resp: Response, saved: bool)
      requires req.AddRequest? ==> 0 <= req.year <= 9999
      modifies this, library
      ensures saved <==> resp == AddResponse(true) || resp == RemoveResponse(Removed)
      ensures !saved ==> stored == old(stored)
      ensures library.books == stored
      ensures match req
        case AddRequest(submitted, title, author, year, genre, read) =>
          resp == AddResponse(submitted && title != "" && author != "" && genre != "")
          && stored == if resp.added then old(stored) + [Book(title, author, year, genre, read)] else old(stored)
        case RemoveRequest(clicked, target) =>
          var hit := FirstTitleMatch(old(stored), target);
          resp == RemoveResponse(if !clicked then Idle else if hit.Some? then Removed else NotFound)
          && stored == if resp.status.Removed? then DeleteAt(old(stored), hit.value) else old(stored)
        case SearchRequest(field, term) =>
          resp == SearchResponse(SearchBooks(old(stored), field, term)) && stored == old(stored)
        case DisplayRequest =>
          resp == DisplayResponse(DisplayBooks(old(stored))) && stored == old(stored)
        case StatsRequest =>
          resp == StatsResponse(LibraryStats(old(stored))) && stored == old(stored)
    {
      library.books := stored;
      saved := false;
      match req {
        case AddRequest(submitted, title, author, year, genre, read) =>
          var added := library.AddBook(submitted, title, author, year, genre, read);
          if added {
            stored := library.books;
            saved := true;
          }
          resp := AddResponse(added);
        case RemoveRequest(clicked, target) =>
          var status := library.RemoveBook(clicked, target);
          if status == Removed {
            stored := library.books;
            saved := true;
          }
          resp := RemoveResponse(status);
        case SearchRequest(field, term) =>
          resp := SearchResponse(SearchBooks(library.books, field, term));
        case DisplayRequest =>
          resp := DisplayResponse(DisplayBooks(library.books));
        case StatsRequest =>
          resp := StatsResponse(LibraryStats(library.books));
      }
    }
  }
}
