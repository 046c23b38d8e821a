/** The record store: the session's library list and the three operations
    that change it in place (`add_book`, `remove_book`, `edit_book`), plus the
    "Add Books" form handler that guards `add_book`. Records are addressed by
    their current position in the list. */
module Store {
  import opened Books
  import opened Search

  /** Every record of the library could have come out of the "Add Books" form. */
  predicate AllWellFormed(library: seq<Book>, currentYear: int)
  {
    forall b :: b in library ==> WellFormed(b, currentYear)
  }

  /** The library after `remove_book(index)`: for a position in range, the
      list with that one record taken out and the others in their old order;
      for any other index, the list as it was (no error is raised). */
  function Without(library: seq<Book>, index: int): (r: seq<Book>)
    ensures 0 <= index < |library| ==> |r| == |library| - 1
    ensures 0 <= index < |library| ==> forall j :: 0 <= j < index ==> r[j] == library[j]
    ensures 0 <= index < |library| ==> forall j :: index <= j < |r| ==> r[j] == library[j + 1]
    ensures 0 <= index < |library| ==> multiset(r) + multiset{library[index]} == multiset(library)
    ensures !(0 <= index < |library|) ==> r == library
  {
    if 0 <= index < |library| then
      assert library == library[..index] + [library[index]] + library[index + 1..];
      library[..index] + library[index + 1..]
    else
      library
  }

  /** The library after `edit_book(index, ...)`: same length; for a position
      in range, that record carries the six supplied values and the new
      "last_edited" stamp and keeps its "date_added"; every other position is
      untouched (so an index out of range changes nothing and raises no error). */
  function WithEdit(library: seq<Book>, index: int, title: string, author: string, year: int,
                    genre: string, read: bool, rating: int, now: Timestamp): (r: seq<Book>)
    ensures |r| == |library|
    ensures forall j :: 0 <= j < |library| && j != index ==> r[j] == library[j]
    ensures 0 <= index < |library| ==>
              r[index].title == title && r[index].author == author && r[index].year == year &&
              r[index].genre == genre && r[index].read == read && r[index].rating == rating &&
              r[index].dateAdded == library[index].dateAdded && r[index].lastEdited == Some(now)
  {
    if 0 <= index < |library| then
      library[index := Revised(library[index], title, author, year, genre, read, rating, now)]
    else
      library
  }

  /** Removing a record keeps every remaining record well formed. */
  lemma RemoveKeepsWellFormed(library: seq<Book>, index: int, currentYear: int)
    requires AllWellFormed(library, currentYear)
    ensures AllWellFormed(Without(library, index), currentYear)
  {
    var r := Without(library, index);
    forall b | b in r
      ensures WellFormed(b, currentYear)
    {
      var j :| 0 <= j < |r| && r[j] == b;
      if 0 <= index < |library| && j >= index {
        assert b == library[j + 1];
      }
    }
  }

  /** An edit with values the form would accept keeps every record well formed. */
  lemma EditKeepsWellFormed(library: seq<Book>, index: int, title: string, author: string, year: int,
                            genre: string, read: bool, rating: int, now: Timestamp, currentYear: int)
    requires AllWellFormed(library, currentYear)
    requires HasTitleAndAuthor(title, author) && WidgetsAllow(year, rating, currentYear)
    ensures AllWellFormed(WithEdit(library, index, title, author, year, genre, read, rating, now), currentYear)
  {
    var r := WithEdit(library, index, title, author, year, genre, read, rating, now);
    forall b | b in r
      ensures WellFormed(b, currentYear)
    {
      var j :| 0 <= j < |r| && r[j] == b;
      if j != index {
        assert b == library[j];
      }
    }
  }

  /** `edit_book` validates nothing: an edit with an empty title leaves a
      record no form submission could have created. */
  lemma EditSkipsValidation(library: seq<Book>, index: int, author: string, year: int, genre: string,
                            read: bool, rating: int, now: Timestamp, currentYear: int)
    requires 0 <= index < |library|
    ensures !AllWellFormed(WithEdit(library, index, [], author, year, genre, read, rating, now), currentYear)
  {
    var r := WithEdit(library, index, [], author, year, genre, read, rating, now);
    assert r[index] in r && !WellFormed(r[index], currentYear);
  }

  /** What the "Add Books" form reports after a submission. */
  datatype FormOutcome = Added | Rejected(message: string)

  const RequiredFieldsMessage: string := "Title and author are required fields."

  /** The session's library list. */
  class Library {
    var books: seq<Book>

    /** The session starts from the list `load_library` returned. */
    constructor (loaded: seq<Book>)
      ensures books == loaded
    {
      books := loaded;
    }

    /** `add_book`: append the new record at the end; every earlier record
        keeps its value and its position. */
    method AddBook(title: string, author: string, year: int, genre: string, read: bool, rating: int,
                   now: Timestamp)
      modifies this
      ensures |books| == |old(books)| + 1
      ensures books[..|old(books)|] == old(books)
      ensures books[|books| - 1] == NewBook(title, author, year, genre, read, rating, now)
      ensures books[|books| - 1].lastEdited == None && books[|books| - 1].dateAdded == now
    {
      var book := NewBook(title, author, year, genre, read, rating, now);
      books := books + [book];
    }

    /** `remove_book`: a bounds-checked `pop(index)`. */
    method RemoveBook(index: int)
      modifies this
      ensures books == Without(old(books), index)
    {
      if 0 <= index < |books| {
        books := books[..index] + books[index + 1..];
      }
    }

    /** `edit_book`: a bounds-checked overwrite of the record at `index`. */
    method EditBook(index: int, title: string, author: string, year: int, genre: string, read: bool,
                    rating: int, now: Timestamp)
      modifies this
      ensures books == WithEdit(old(books), index, title, author, year, genre, read, rating, now)
    {
      if 0 <= index < |books| {
        var book := books[index];
        books := books[index := Revised(book, title, author, year, genre, read, rating, now)];
      }
    }

    /** The "Add Books" form's submit handler. The year input and the rating
        slider only produce values in their ranges; the handler itself checks
        that title and author are non-empty and adds the book, or reports the
        error and leaves the library alone. */
    method SubmitAddForm(title: string, author: string, year: int, genre: string, read: bool,
                         rating: int, currentYear: int, now: Timestamp) returns (outcome: FormOutcome)
      requires WidgetsAllow(year, rating, currentYear)
      modifies this
      ensures outcome.Added? <==> HasTitleAndAuthor(title, author)
      ensures outcome.Added? ==> books == old(books) + [NewBook(title, author, year, genre, read, rating, now)]
      ensures outcome.Added? ==> WellFormed(books[|books| - 1], currentYear)
      ensures outcome.Rejected? ==> outcome.message == RequiredFieldsMessage && books == old(books)
      ensures AllWellFormed(old(books), currentYear) ==> AllWellFormed(books, currentYear)
    {
      if title != [] && author != [] {
        AddBook(title, author, year, genre, read, rating, now);
        assert books == old(books) + [books[|books| - 1]];
        outcome := Added;
      } else {
        outcome := Rejected(RequiredFieldsMessage);
      }
    }
  }

  /** An example, not part of the app: a session that starts from an empty
      file, adds one book, marks it read and removes it again, using only the
      contracts above. */
  method DuneScenario()
  {
    var lib := new Library([]);
    var outcome := lib.SubmitAddForm("Dune", "Herbert", 1965, "Sci-Fi", false, 5, 2025, "2025-03-01 10:00:00");
    assert outcome == Added;
    assert |lib.books| == 1 && lib.books[0].title == "Dune" && !lib.books[0].read;
    assert lib.books[0].lastEdited == None;
    lib.EditBook(0, "Dune", "Herbert", 1965, "Sci-Fi", true, 5, "2025-03-02 09:30:00");
    assert lib.books[0].read && lib.books[0].lastEdited == Some("2025-03-02 09:30:00");
    assert lib.books[0].dateAdded == "2025-03-01 10:00:00";
    lib.RemoveBook(0);
    assert lib.books == [];
  }
}
