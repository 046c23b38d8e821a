/** The "Search Books" page: the books whose title or author contains the
    search term, compared case-insensitively, in library order; the search
    only runs for a non-empty term. */
module Search {
  import opened Text
  import opened Books

  /** The lowered term occurs in the lowered title or in the lowered author. */
  predicate Matches(b: Book, term: string)
  {
    Contains(Lower(term), Lower(b.title)) || Contains(Lower(term), Lower(b.author))
  }

  /** The list comprehension: the matching books, kept in library order. */
  function Matching(library: seq<Book>, term: string): (r: seq<Book>)
    ensures |r| <= |library|
    ensures forall b :: b in r ==> b in library && Matches(b, term)
    ensures forall i :: 0 <= i < |library| && Matches(library[i], term) ==> library[i] in r
  {
    if library == [] then []
    else
      var n := |library| - 1;
      assert forall i :: 0 <= i < n ==> library[..n][i] == library[i];
      Matching(library[..n], term) + (if Matches(library[n], term) then [library[n]] else [])
  }

  /** The positions of the matching books, in increasing order. */
  function Positions(library: seq<Book>, term: string): (idx: seq<nat>)
    ensures forall k :: 0 <= k < |idx| ==> idx[k] < |library| && Matches(library[idx[k]], term)
    ensures forall k, l :: 0 <= k < l < |idx| ==> idx[k] < idx[l]
    ensures forall i :: 0 <= i < |library| && Matches(library[i], term) ==> i in idx
  {
    if library == [] then []
    else
      var n := |library| - 1;
      assert forall i :: 0 <= i < n ==> library[..n][i] == library[i];
      Positions(library[..n], term) + (if Matches(library[n], term) then [n] else [])
  }

  /** The comprehension selects exactly the matching positions, in order:
      its k-th result is the book at the k-th matching position. Together with
      the contract of Positions this says the result is the subsequence of
      the library made of the matching books, and nothing else. */
  lemma {:induction false} MatchingSelectsPositions(library: seq<Book>, term: string)
    ensures |Matching(library, term)| == |Positions(library, term)|
    ensures forall k :: 0 <= k < |Positions(library, term)| ==>
              Matching(library, term)[k] == library[Positions(library, term)[k]]
  {
    if library != [] {
      var n := |library| - 1;
      var prefix := library[..n];
      MatchingSelectsPositions(prefix, term);
      assert forall i :: 0 <= i < n ==> prefix[i] == library[i];
    }
  }

  /** What the "Search" button shows: nothing for an empty term (the
      comprehension is not run), the comprehension otherwise. */
  function SearchBooks(library: seq<Book>, term: string): (r: seq<Book>)
    ensures term == [] ==> r == []
    ensures |r| <= |library|
    ensures forall b :: b in r ==> b in library && Matches(b, term)
    ensures term != [] ==> forall i :: 0 <= i < |library| && Matches(library[i], term) ==> library[i] in r
  {
    if term == [] then [] else Matching(library, term)
  }

  /** Without the guard an empty term would list the whole library, since
      the empty string is contained in every title. */
  lemma {:induction false} EmptyTermMatchesAll(library: seq<Book>)
    ensures Matching(library, []) == library
  {
    if library != [] {
      var n := |library| - 1;
      EmptyTermMatchesAll(library[..n]);
      assert Contains(Lower([]), Lower(library[n].title));
      assert library[..n] + [library[n]] == library;
    }
  }

  /** A book matches exactly when the lower-cased term occurs somewhere in
      its lower-cased title or lower-cased author. */
  lemma MatchesIff(b: Book, term: string)
    ensures Matches(b, term) <==> Occurs(Lower(term), Lower(b.title)) || Occurs(Lower(term), Lower(b.author))
  {
    ContainsIff(Lower(term), Lower(b.title));
    ContainsIff(Lower(term), Lower(b.author));
  }

  /** Searching is blind to case: two terms that agree after lowering find
      the same books. */
  lemma {:induction false} MatchingIgnoresCase(library: seq<Book>, t1: string, t2: string)
    requires Lower(t1) == Lower(t2)
    ensures Matching(library, t1) == Matching(library, t2)
  {
    if library != [] {
      MatchingIgnoresCase(library[..|library| - 1], t1, t2);
    }
  }

  /** In particular, searching for a term and for its lower-cased form agree. */
  lemma SearchLoweredTerm(library: seq<Book>, term: string)
    ensures SearchBooks(library, Lower(term)) == SearchBooks(library, term)
  {
    LowerIdempotent(term);
    MatchingIgnoresCase(library, Lower(term), term);
  }

  /** Appending a book (what `add_book` does) adds it at the end of every
      search it matches and changes no other search. */
  lemma MatchingAfterAppend(library: seq<Book>, b: Book, term: string)
    ensures Matching(library + [b], term) ==
              Matching(library, term) + (if Matches(b, term) then [b] else [])
  {
    assert (library + [b])[..|library|] == library;
  }
}
