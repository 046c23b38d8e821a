# Personal Library Manager — record store model

A Dafny model of the record store of the Personal Library Manager, a
Streamlit app that keeps a list of book records (title, author, year, genre,
read status, rating, date added, date last edited) in its session state.

- `text.dfy` (module `Text`): Python's `str.lower()` on ASCII letters and
  Python's substring test `needle in hay`, with a proof that the left-to-right
  scan agrees with the definition of a substring.
- `books.dfy` (module `Books`): the book record, the ranges the "Add Books"
  form enforces (year in [1000, current year], rating in [1, 5], non-empty
  title and author), and the record built by `add_book` or rewritten by
  `edit_book`.
- `search.dfy` (module `Search`): the search comprehension and the guard
  that runs it only for a non-empty term; proofs that the result is exactly
  the subsequence of matching books in library order, and that matching is
  case-insensitive.
- `store.dfy` (module `Store`): the class `Library` holding the session's
  list as a `seq<Book>` that `AddBook`, `RemoveBook` and `EditBook` reassign
  in place, each specified by its exact new state; the form handler
  `SubmitAddForm`; the functions `Without` and `WithEdit` giving the list after
  a removal or an edit; and lemmas on which operations keep every record well
  formed.

The clock (`datetime.now()`) is a parameter: `now` is the timestamp text and
`currentYear` the upper bound of the year input. The record's
`last_edited` key is an `Option`, `None` until the first edit.

Behaviour of the code worth knowing:

- `remove_book` and `edit_book` do nothing, and signal nothing, for an
  index outside `[0, len)`; there is no "not found" error.
- `edit_book` validates nothing: the title may become empty, and the year and
  rating are written as given (`Store.EditSkipsValidation`). Only the add path
  is guarded, and the guards sit in the form, not in `add_book`.
- Nothing in app.py calls `edit_book`: the Edit button (app.py:150-153) sets
  `show_edit_form` and `edit_book_index`, but no edit form is ever rendered.
  The edit lemmas (`Store.EditKeepsWellFormed`, `Store.EditSkipsValidation`)
  therefore describe what an edit would do if a caller supplied those values.
- The empty search term yields no results because the button handler does
  not run the comprehension, not because the comprehension finds nothing
  (`Search.EmptyTermMatchesAll` shows it would list every book).

## Model

| member | source | states |
|---|---|---|
| `Text.Lower` | app.py:193 | `s.lower()` keeps the length, lowers each character on its own and leaves no upper-case ASCII letter |
| `Text.LowerIdempotent` | app.py:193 | lowering an already lowered string changes nothing |
| `Text.LowerCaseBlind` | app.py:193 | strings that differ only in letter case lower to the same string |
| `Text.ContainsIff` | app.py:193 | `needle in hay` holds exactly when `needle` occurs at some position of `hay` |
| `Search.Matching` | app.py:193 | the comprehension's result is no longer than the library, holds only library books that match, and holds every matching book |
| `Search.Positions` | app.py:193 | the positions of matching books: strictly increasing, in range, and including every matching position |
| `Search.MatchingSelectsPositions` | app.py:193 | the k-th search result is the book at the k-th matching position: the result is the matching subsequence in library order |
| `Search.SearchBooks` | app.py:192-193 | an empty term yields no results; a non-empty term yields exactly the matching library books |
| `Search.EmptyTermMatchesAll` | app.py:192-193 | without the guard an empty term would return the whole library, since `"" in s` always holds |
| `Search.MatchesIff` | app.py:193 | a book matches exactly when the lowered term occurs in its lowered title or lowered author |
| `Search.MatchingIgnoresCase` | app.py:193 | two terms equal after lowering find the same books in the same order |
| `Search.SearchLoweredTerm` | app.py:193 | searching for a term and for its lower-cased form gives the same results |
| `Search.MatchingAfterAppend` | app.py:193 | after appending a book, each search result gains that book at its end if it matches and is otherwise unchanged |
| `Store.Without` | app.py:84-90 | in range: one record shorter, records before the index kept, records after it shifted down by one, the same multiset less the removed record; out of range: unchanged |
| `Store.WithEdit` | app.py:92-102 | same length, every other position untouched; at an in-range index the six supplied values and the new `last_edited`, with `date_added` kept |
| `Store.RemoveKeepsWellFormed` | app.py:86-87 | removing a record keeps every remaining record well formed |
| `Store.EditKeepsWellFormed` | app.py:94-101 | an edit with values the add form would accept keeps every record well formed |
| `Store.EditSkipsValidation` | app.py:92-102 | an edit with an empty title at an in-range index leaves a record that is not well formed |
| `Store.Library.constructor` | app.py:51-52 | the session's library starts as the list that was loaded |
| `Store.Library.AddBook` | app.py:67-82 | the library grows by exactly one, earlier records keep value and position, and the last record carries the six values, `date_added = now` and no `last_edited` |
| `Store.Library.RemoveBook` | app.py:84-90 | the new library is `Without(old library, index)` |
| `Store.Library.EditBook` | app.py:92-108 | the new library is `WithEdit(old library, index, ...)` |
| `Store.Library.SubmitAddForm` | app.py:166-183 | for year and rating in the widget ranges: the book is added exactly when title and author are non-empty, and the added record is well formed; otherwise the required-fields error is reported and the library is unchanged; a library of well-formed records stays so |

## Left out

- File persistence (`load_library`, `save_library`): JSON reading and writing
  and their error messages are I/O. The model starts from the loaded list,
  assumed to hold every key with a value of the right type; `save_library` is
  omitted because it does not change the in-memory list.
- The clock: `datetime.now()` is replaced by the `now` and `currentYear`
  parameters.
- The Streamlit interface: page layout, styling, the menu, buttons,
  `st.rerun()`, and the session flags `message`, `show_edit_form`,
  `edit_book_index` and `search_results`. The search term is a parameter, and
  the search button press is assumed.
- Display only: the star rendering and its default of 3 for a record without
  a rating, and the placeholder Statistics and About pages.
- Text.Lower: lowers only the ASCII letters A to Z; Python's `str.lower()`
  also lowers other Unicode letters, and some of them to more than one
  character.
- Store.Library.EditBook: the record is a value, so the model replaces it in
  the list rather than changing a shared dictionary; no other holder of that
  dictionary is modelled.
- Malformed or legacy records read from the file are not modelled.
