/** The catalog of general.js: books keyed by ISBN, with `Object.keys(books)`
    order kept explicitly, and the author/title scans that filter it. */
module Catalog {
  import opened Records

  /** The two fields the secondary-index scans compare. */
  datatype Key = Author | Title

  function FieldOf(book: Book, key: Key): string
  {
    match key
    case Author => book.author
    case Title => book.title
  }

  /** `order` lists every catalog key exactly once. */
  ghost predicate ListsEachKeyOnce(order: seq<string>, books: map<string, Book>)
  {
    && (forall i, j :: 0 <= i < j < |order| ==> order[i] != order[j])
    && (forall k :: k in order <==> k in books)
  }

  /** The keys of `order`, in that order, whose record has `value` in the
      compared field: the keys the scan copies into its result object. */
  function MatchingKeys(order: seq<string>, books: map<string, Book>, key: Key, value: string): (ks: seq<string>)
    requires forall k :: k in order ==> k in books
    ensures forall k :: k in ks <==> k in order && FieldOf(books[k], key) == value
    ensures |ks| <= |order|
  {
    if order == [] then []
    else
      var init := order[..|order| - 1];
      var last := order[|order| - 1];
      assert order == init + [last];
      MatchingKeys(init, books, key, value) + (if FieldOf(books[last], key) == value then [last] else [])
  }

  /** One more key of `order` extends the match list by that key exactly when
      its record matches: the step the scan loop takes. */
  lemma MatchingKeysStep(order: seq<string>, i: nat, books: map<string, Book>, key: Key, value: string)
    requires forall k :: k in order ==> k in books
    requires i < |order|
    ensures MatchingKeys(order[..i + 1], books, key, value) ==
      MatchingKeys(order[..i], books, key, value) + (if FieldOf(books[order[i]], key) == value then [order[i]] else [])
  {
    assert order[..i + 1][..i] == order[..i];
  }

  /** Filtering a duplicate-free key order yields a duplicate-free result. */
  lemma {:induction false} MatchingKeysDistinct(order: seq<string>, books: map<string, Book>, key: Key, value: string)
    requires forall k :: k in order ==> k in books
    requires forall i, j :: 0 <= i < j < |order| ==> order[i] != order[j]
    ensures forall i, j :: 0 <= i < j < |MatchingKeys(order, books, key, value)| ==>
      MatchingKeys(order, books, key, value)[i] != MatchingKeys(order, books, key, value)[j]
  {
    if order != [] {
      var init := order[..|order| - 1];
      var last := order[|order| - 1];
      MatchingKeysDistinct(init, books, key, value);
      var pre := MatchingKeys(init, books, key, value);
      assert last !in init;
      var ks := MatchingKeys(order, books, key, value);
      assert ks == pre + (if FieldOf(books[last], key) == value then [last] else []);
      forall i, j | 0 <= i < j < |ks| ensures ks[i] != ks[j] {
        if j >= |pre| {
          assert ks[j] == last && ks[i] == pre[i] && pre[i] in pre;
        } else {
          assert ks[i] == pre[i] && ks[j] == pre[j];
          assert pre[i] != pre[j];
        }
      }
    }
  }

  /** Filtering keeps the catalog's order: the match list of an extended order
      extends the match list of the shorter one. */
  lemma {:induction false} MatchingKeysPrefix(order: seq<string>, n: nat, books: map<string, Book>, key: Key, value: string)
    requires forall k :: k in order ==> k in books
    requires n <= |order|
    ensures var pre := MatchingKeys(order[..n], books, key, value);
      var all := MatchingKeys(order, books, key, value);
      |pre| <= |all| && all[..|pre|] == pre
  {
    if n < |order| {
      var init := order[..|order| - 1];
      assert init[..n] == order[..n];
      MatchingKeysPrefix(init, n, books, key, value);
    } else {
      assert order[..n] == order;
    }
  }
}
