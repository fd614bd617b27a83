/** The two lists the page derives from the book list on every render:
    the genre menu, and the books shown after the search filters and the
    chosen ordering. Both are pure and leave the book list untouched. */
module Views {
  import opened Seqs
  import opened Sorting
  import opened Text
  import opened Library

  /** The ordering menu: no ordering, by title, or by year ascending. */
  datatype SortKey = Unsorted | ByTitle | ByYear

  /** The search bar: author and title fragments, an exact genre ("" for
      every genre) and the ordering. */
  datatype Filters = Filters(author: string, title: string, genre: string, sortBy: SortKey)

  const NoFilters := Filters("", "", "", Unsorted)

  /** A book passes the search: author and title contain the fragments,
      ignoring case, and the genre is the selected one if one is selected. */
  predicate Matches(b: Book, f: Filters)
    ensures Matches(b, f) <==>
      && (exists i :: OccursAt(Lower(b.author), Lower(f.author), i))
      && (exists i :: OccursAt(Lower(b.title), Lower(f.title), i))
      && (f.genre != "" ==> b.genre == f.genre)
    ensures f.author == "" && f.title == "" && f.genre == "" ==> Matches(b, f)
  {
    IncludesIffOccurs(Lower(b.author), Lower(f.author));
    IncludesIffOccurs(Lower(b.title), Lower(f.title));
    && Includes(Lower(b.author), Lower(f.author))
    && Includes(Lower(b.title), Lower(f.title))
    && (f.genre != "" ==> b.genre == f.genre)
  }

  /** The search ignores the case of what is typed: lower-casing the
      fragments beforehand changes no result. */
  lemma SearchIgnoresCase(b: Book, f: Filters)
    ensures Matches(b, f) <==> Matches(b, f.(author := Lower(f.author), title := Lower(f.title)))
  {
    LowerIdempotent(f.author);
    LowerIdempotent(f.title);
  }

  /** The books that pass the search, in list order. */
  function Filtered(books: seq<Book>, f: Filters): (r: seq<Book>)
    ensures forall b :: b in r <==> b in books && Matches(b, f)
    ensures forall b :: multiset(r)[b] == if Matches(b, f) then multiset(books)[b] else 0
    ensures IsSubseq(r, books)
  {
    Keep(books, (b: Book) => Matches(b, f))
  }

  /** With no search text and no genre selected, every book is shown, in
      list order. */
  lemma NoSearchShowsAll(books: seq<Book>, sortBy: SortKey)
    ensures Filtered(books, NoFilters.(sortBy := sortBy)) == books
  {
    var f := NoFilters.(sortBy := sortBy);
    KeepAll(books, (b: Book) => Matches(b, f));
  }

  /** The comparator the ordering menu selects, as "may come first" on
      two books. `collate` stands for the browser's locale-aware title
      comparison. No ordering ties every pair, which a stable sort leaves
      in place. */
  function Order(key: SortKey, collate: (string, string) -> bool): (leq: (Book, Book) -> bool)
    ensures forall a, b :: Tied(leq, a, b) <==>
      match key
      case Unsorted => true
      case ByTitle => Tied(collate, a.title, b.title)
      case ByYear => a.year == b.year
  {
    match key
    case Unsorted => (a: Book, b: Book) => true
    case ByTitle => (a: Book, b: Book) => collate(a.title, b.title)
    case ByYear => (a: Book, b: Book) => a.year <= b.year
  }

  /** Every choice of ordering is a consistent comparator when the title
      collation is one. */
  lemma OrderIsTotalPreorder(key: SortKey, collate: (string, string) -> bool)
    requires TotalPreorder(collate)
    ensures TotalPreorder(Order(key, collate))
  {
    var leq := Order(key, collate);
    match key
    case Unsorted =>
    case ByYear =>
    case ByTitle =>
      forall a: Book, b: Book, c: Book | leq(a, b) && leq(b, c) ensures leq(a, c) {
        assert collate(a.title, b.title) && collate(b.title, c.title);
      }
      forall a: Book, b: Book ensures leq(a, b) || leq(b, a) {
        assert collate(a.title, b.title) || collate(b.title, a.title);
      }
  }

  /** The list the page renders: the books that pass the search, stably
      sorted by the chosen ordering. */
  function View(books: seq<Book>, f: Filters, collate: (string, string) -> bool): (r: seq<Book>)
    requires TotalPreorder(collate)
    ensures forall b :: b in r ==> b in books && Matches(b, f)
    ensures multiset(r) == multiset(Filtered(books, f))
    ensures f.sortBy == ByYear ==> forall i, j :: 0 <= i < j < |r| ==> r[i].year <= r[j].year
    ensures f.sortBy == ByTitle ==> forall i, j :: 0 <= i < j < |r| ==> collate(r[i].title, r[j].title)
    ensures StableFrom(r, Filtered(books, f), Order(f.sortBy, collate))
  {
    OrderIsTotalPreorder(f.sortBy, collate);
    var r := SortBy(Filtered(books, f), Order(f.sortBy, collate));
    assert forall b :: b in r ==> b in multiset(Filtered(books, f));
    r
  }

  /** Without an ordering the rendered list is exactly the filtered list. */
  lemma UnsortedViewKeepsOrder(books: seq<Book>, f: Filters, collate: (string, string) -> bool)
    requires TotalPreorder(collate)
    requires f.sortBy == Unsorted
    ensures View(books, f, collate) == Filtered(books, f)
  {
    SortByAllTiedIsIdentity(Filtered(books, f), Order(Unsorted, collate));
  }

  /** By year, books of the same year keep the order they have in the list. */
  lemma SameYearKeepsOrder(books: seq<Book>, f: Filters, collate: (string, string) -> bool, x: Book)
    requires TotalPreorder(collate)
    requires f.sortBy == ByYear
    ensures TiedWith(View(books, f, collate), Order(ByYear, collate), x)
         == TiedWith(Filtered(books, f), Order(ByYear, collate), x)
    ensures forall b :: b in TiedWith(View(books, f, collate), Order(ByYear, collate), x) <==>
                        b in Filtered(books, f) && b.year == x.year
  {
  }

  /** The rendered list is the only stable sort of the filtered list: any
      sorted arrangement that keeps tied books in list order equals it. */
  lemma ViewIsTheStableSort(books: seq<Book>, f: Filters, collate: (string, string) -> bool, other: seq<Book>)
    requires TotalPreorder(collate)
    requires SortedBy(other, Order(f.sortBy, collate))
    requires StableFrom(other, Filtered(books, f), Order(f.sortBy, collate))
    ensures other == View(books, f, collate)
  {
    OrderIsTotalPreorder(f.sortBy, collate);
    var r := View(books, f, collate);
    var leq := Order(f.sortBy, collate);
    assert SortedBy(r, leq) by {
      assert r == SortBy(Filtered(books, f), leq);
    }
    StableSortUnique(other, r, leq);
  }

  /** The genre menu: each genre present in the list once, in the default
      string order, strictly increasing. */
  function Genres(books: seq<Book>): (r: seq<string>)
    ensures forall g :: g in r <==> exists i :: 0 <= i < |books| && books[i].genre == g
    ensures forall i, j :: 0 <= i < j < |r| ==> LexLeq(r[i], r[j]) && r[i] != r[j]
  {
    var all := GenreColumn(books);
    var distinct := Dedup(all);
    LexLeqIsTotalPreorder();
    var r := SortBy(distinct, LexLeq);
    PermutationKeepsDistinct(distinct, r);
    assert forall g :: g in r <==> g in all by {
      forall g ensures g in r <==> g in distinct {
        assert g in r <==> g in multiset(r);
        assert g in distinct <==> g in multiset(distinct);
      }
    }
    r
  }

  /** The genre of every book, in list order. */
  function GenreColumn(books: seq<Book>): (r: seq<string>)
    ensures forall g :: g in r <==> exists i :: 0 <= i < |books| && books[i].genre == g
  {
    var r := seq(|books|, i requires 0 <= i < |books| => books[i].genre);
    assert forall i :: 0 <= i < |books| ==> r[i] == books[i].genre;
    r
  }

  /** A one-book catalog searched by genre: the matching genre shows the
      book, another genre shows nothing. */
  lemma GenreSearchExample(collate: (string, string) -> bool)
    requires TotalPreorder(collate)
    ensures var books := [Book(1, "Il Nome della Rosa", "Eco", 1980, "Romanzo")];
      && View(books, NoFilters.(genre := "Romanzo"), collate) == books
      && View(books, NoFilters.(genre := "Saggio"), collate) == []
  {
    var books := [Book(1, "Il Nome della Rosa", "Eco", 1980, "Romanzo")];
    NoSearchShowsAll(books, Unsorted);
    assert Matches(books[0], NoFilters.(genre := "Romanzo"));
    assert Filtered(books, NoFilters.(genre := "Romanzo")) == books;
    UnsortedViewKeepsOrder(books, NoFilters.(genre := "Romanzo"), collate);
    UnsortedViewKeepsOrder(books, NoFilters.(genre := "Saggio"), collate);
  }
}
