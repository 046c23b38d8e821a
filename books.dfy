/** The book record kept by the Personal Library Manager, the checks the
    "Add Books" form applies before a record is created, and the two ways a
    record comes into being: created by `add_book`, overwritten by `edit_book`. */
module Books {

  /** A timestamp as `strftime("%Y-%m-%d %H:%M:%S")` renders it; the clock is
      read by the caller and handed in. */
  type Timestamp = string

  datatype Option<T> = None | Some(value: T)

  /** One dictionary of the library list. `lastEdited` is `None` while the
      dictionary has no "last_edited" key. */
  datatype Book = Book(
    title: string,
    author: string,
    year: int,
    genre: string,
    read: bool,
    rating: int,
    dateAdded: Timestamp,
    lastEdited: Option<Timestamp>)

  /** The range the year input accepts: 1000 up to the current calendar year. */
  predicate YearInRange(year: int, currentYear: int)
  {
    1000 <= year <= currentYear
  }

  /** The range of the rating slider. */
  predicate RatingInRange(rating: int)
  {
    1 <= rating <= 5
  }

  /** The values the year input and the rating slider can hand to the form. */
  predicate WidgetsAllow(year: int, rating: int, currentYear: int)
  {
    YearInRange(year, currentYear) && RatingInRange(rating)
  }

  /** The form's own test `if title and author`: both strings non-empty. */
  predicate HasTitleAndAuthor(title: string, author: string)
  {
    title != [] && author != []
  }

  /** A record that could have come out of the "Add Books" form in `currentYear`. */
  predicate WellFormed(b: Book, currentYear: int)
  {
    HasTitleAndAuthor(b.title, b.author) && YearInRange(b.year, currentYear) && RatingInRange(b.rating)
  }

  /** The dictionary `add_book` builds: the six supplied values, the creation
      time, and no "last_edited" key. */
  function NewBook(title: string, author: string, year: int, genre: string, read: bool, rating: int,
                   now: Timestamp): Book
  {
    Book(title, author, year, genre, read, rating, now, None)
  }

  /** The dictionary after `edit_book` has overwritten its six fields and
      stamped "last_edited"; "date_added" is left alone. */
  function Revised(b: Book, title: string, author: string, year: int, genre: string, read: bool,
                   rating: int, now: Timestamp): Book
  {
    b.(title := title, author := author, year := year, genre := genre, read := read,
       rating := rating, lastEdited := Some(now))
  }
}
