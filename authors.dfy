/**
  Counting the distinct authors of a catalog result (`getUniqueAuthors`).
  Two author entries are the same author when their keys, the name followed
  by the decimal birth year and the decimal death year, are equal strings.
 */
module Authors {
  import opened Shared
  import Strconv

  function AuthorKey(p: Person): string {
    p.name + Strconv.Itoa(p.birthYear) + Strconv.Itoa(p.deathYear)
  }

  /** The keys, under `key`, of a list of authors. */
  function KeysOf(authors: seq<Person>, key: Person -> string): set<string>
    decreases |authors|
  {
    if |authors| == 0 then {} else KeysOf(authors[..|authors| - 1], key) + {key(authors[|authors| - 1])}
  }

  /** The keys of all authors of all books, built in the order the source
      inserts them. */
  function KeySet(books: seq<Book>, key: Person -> string): set<string>
    decreases |books|
  {
    if |books| == 0 then {} else KeySet(books[..|books| - 1], key) + KeysOf(books[|books| - 1].authors, key)
  }

  /** The distinct author identities of a list of books. */
  function AuthorKeys(books: seq<Book>): set<string> {
    KeySet(books, AuthorKey)
  }

  /** The number of author entries over all books. */
  function TotalAuthors(books: seq<Book>): nat
    decreases |books|
  {
    if |books| == 0 then 0 else TotalAuthors(books[..|books| - 1]) + |books[|books| - 1].authors|
  }

  method GetUniqueAuthors(books: seq<Book>) returns (n: int)
    ensures n == |AuthorKeys(books)|
  {
    var uniqueAuthors: map<string, bool> := map[];
    var i := 0;
    while i < |books|
      invariant 0 <= i <= |books|
      invariant uniqueAuthors.Keys == KeySet(books[..i], AuthorKey)
    {
      var authors := books[i].authors;
      var j := 0;
      while j < |authors|
        invariant 0 <= j <= |authors|
        invariant uniqueAuthors.Keys == KeySet(books[..i], AuthorKey) + KeysOf(authors[..j], AuthorKey)
      {
        assert authors[..j + 1][..j] == authors[..j];
        uniqueAuthors := uniqueAuthors[AuthorKey(authors[j]) := true];
        j := j + 1;
      }
      assert authors[..j] == authors;
      assert books[..i + 1][..i] == books[..i];
      i := i + 1;
    }
    assert books[..i] == books;
    n := |uniqueAuthors.Keys|;
  }

  predicate HasKey(books: seq<Book>, key: Person -> string, k: string) {
    exists i, j :: 0 <= i < |books| && 0 <= j < |books[i].authors| && key(books[i].authors[j]) == k
  }

  lemma {:induction false} KeysOfMembers(authors: seq<Person>, key: Person -> string)
    ensures forall k :: k in KeysOf(authors, key) <==> exists j :: 0 <= j < |authors| && key(authors[j]) == k
    ensures |KeysOf(authors, key)| <= |authors|
    decreases |authors|
  {
    if |authors| > 0 {
      var init := authors[..|authors| - 1];
      KeysOfMembers(init, key);
      forall k | k in KeysOf(authors, key)
        ensures exists j :: 0 <= j < |authors| && key(authors[j]) == k
      {
        if k in KeysOf(init, key) {
          var j :| 0 <= j < |init| && key(init[j]) == k;
          assert authors[j] == init[j];
        }
      }
      forall k | exists j :: 0 <= j < |authors| && key(authors[j]) == k
        ensures k in KeysOf(authors, key)
      {
        var j :| 0 <= j < |authors| && key(authors[j]) == k;
        if j < |init| {
          assert init[j] == authors[j];
        }
      }
    }
  }

  /** Every key in the set belongs to some author of some book. */
  lemma {:induction false} KeySetSound(books: seq<Book>, key: Person -> string, k: string)
    requires k in KeySet(books, key)
    ensures HasKey(books, key, k)
    decreases |books|
  {
    var init := books[..|books| - 1];
    var last := books[|books| - 1];
    if k in KeySet(init, key) {
      KeySetSound(init, key, k);
      var i, j :| 0 <= i < |init| && 0 <= j < |init[i].authors| && key(init[i].authors[j]) == k;
      assert books[i] == init[i];
    } else {
      KeysOfMembers(last.authors, key);
      var j :| 0 <= j < |last.authors| && key(last.authors[j]) == k;
      assert key(books[|books| - 1].authors[j]) == k;
    }
  }

  /** Every author of every book has its key in the set. */
  lemma {:induction false} KeySetComplete(books: seq<Book>, key: Person -> string)
    ensures forall i, j :: 0 <= i < |books| && 0 <= j < |books[i].authors| ==> key(books[i].authors[j]) in KeySet(books, key)
    decreases |books|
  {
    if |books| > 0 {
      var init := books[..|books| - 1];
      KeySetComplete(init, key);
      KeysOfMembers(books[|books| - 1].authors, key);
      forall i, j | 0 <= i < |books| && 0 <= j < |books[i].authors|
        ensures key(books[i].authors[j]) in KeySet(books, key)
      {
        if i < |init| {
          assert books[i] == init[i];
        }
      }
    }
  }

  /** A key is in the set exactly when some author of some book has it. */
  lemma KeySetMembers(books: seq<Book>, key: Person -> string)
    ensures forall k :: k in KeySet(books, key) <==> HasKey(books, key, k)
  {
    KeySetComplete(books, key);
    forall k | k in KeySet(books, key) ensures HasKey(books, key, k) {
      KeySetSound(books, key, k);
    }
  }

  /** A key is counted exactly when some author of some book has it. */
  lemma AuthorKeysMembers(books: seq<Book>, k: string)
    ensures k in AuthorKeys(books) <==>
      exists i, j :: 0 <= i < |books| && 0 <= j < |books[i].authors| && AuthorKey(books[i].authors[j]) == k
  {
    KeySetMembers(books, AuthorKey);
    assert k in AuthorKeys(books) <==> HasKey(books, AuthorKey, k);
  }

  /** There are never more distinct authors than author entries. */
  lemma {:induction false} UniqueAuthorsBound(books: seq<Book>)
    ensures |AuthorKeys(books)| <= TotalAuthors(books)
  {
    KeySetBound(books, AuthorKey);
  }

  lemma {:induction false} KeySetBound(books: seq<Book>, key: Person -> string)
    ensures |KeySet(books, key)| <= TotalAuthors(books)
    decreases |books|
  {
    if |books| > 0 {
      var init := books[..|books| - 1];
      KeySetBound(init, key);
      KeysOfMembers(books[|books| - 1].authors, key);
      var a, b := KeySet(init, key), KeysOf(books[|books| - 1].authors, key);
      assert |a + b| <= |a| + |b| by {
        assert |a + b| == |a| + |b - a| && |b - a| <= |b| by {
          assert a + b == a + (b - a) && a !! (b - a);
        }
      }
    }
  }

  lemma KeySetPermutation(books: seq<Book>, others: seq<Book>, key: Person -> string)
    requires multiset(books) == multiset(others)
    ensures KeySet(books, key) == KeySet(others, key)
  {
    KeySetMembers(books, key);
    KeySetMembers(others, key);
    forall k | HasKey(books, key, k) ensures HasKey(others, key, k) {
      var i, j :| 0 <= i < |books| && 0 <= j < |books[i].authors| && key(books[i].authors[j]) == k;
      assert books[i] in multiset(others);
      var i' :| 0 <= i' < |others| && others[i'] == books[i];
      assert key(others[i'].authors[j]) == k;
    }
    forall k | HasKey(others, key, k) ensures HasKey(books, key, k) {
      var i, j :| 0 <= i < |others| && 0 <= j < |others[i].authors| && key(others[i].authors[j]) == k;
      assert others[i] in multiset(books);
      var i' :| 0 <= i' < |books| && books[i'] == others[i];
      assert key(books[i'].authors[j]) == k;
    }
  }

  /** The count does not depend on the order of the books. */
  lemma UniqueAuthorsPermutation(books: seq<Book>, others: seq<Book>)
    requires multiset(books) == multiset(others)
    ensures |AuthorKeys(books)| == |AuthorKeys(others)|
  {
    KeySetPermutation(books, others, AuthorKey);
  }

  lemma KeySetSkipsAuthorless(before: seq<Book>, b: Book, after: seq<Book>, key: Person -> string)
    requires |b.authors| == 0
    ensures KeySet(before + [b] + after, key) == KeySet(before + after, key)
  {
    var all, rest := before + [b] + after, before + after;
    KeySetMembers(all, key);
    KeySetMembers(rest, key);
    forall k | HasKey(all, key, k) ensures HasKey(rest, key, k) {
      var i, j :| 0 <= i < |all| && 0 <= j < |all[i].authors| && key(all[i].authors[j]) == k;
      var i' := if i < |before| then i else i - 1;
      assert rest[i'] == all[i];
    }
    forall k | HasKey(rest, key, k) ensures HasKey(all, key, k) {
      var i, j :| 0 <= i < |rest| && 0 <= j < |rest[i].authors| && key(rest[i].authors[j]) == k;
      var i' := if i < |before| then i else i + 1;
      assert all[i'] == rest[i];
    }
  }

  /** A book without authors, wherever it stands, adds no author. */
  lemma AuthorlessBookAddsNothing(before: seq<Book>, b: Book, after: seq<Book>)
    requires |b.authors| == 0
    ensures AuthorKeys(before + [b] + after) == AuthorKeys(before + after)
  {
    KeySetSkipsAuthorless(before, b, after, AuthorKey);
  }

  /** The key is a plain concatenation, so two entries with the same name and
      different years can still share a key: ("Ann", 1, 23) and ("Ann", 12, 3)
      both give "Ann123" and count as one author. */
  lemma KeyConcatenationCollides()
    ensures AuthorKey(Person(1, 23, "Ann")) == AuthorKey(Person(12, 3, "Ann"))
    ensures Person(1, 23, "Ann") != Person(12, 3, "Ann")
  {
    assert Strconv.Itoa(23) == Strconv.NatToDigits(2) + [Strconv.DigitChar(3)] == "23";
    assert Strconv.Itoa(12) == Strconv.NatToDigits(1) + [Strconv.DigitChar(2)] == "12";
    assert Strconv.Itoa(1) == "1";
    assert Strconv.Itoa(3) == "3";
  }
}
