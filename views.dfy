/**
 * The shaping logic of the bookshelf views: the autocomplete endpoint's
 * guard and result list, the book list's parameter handling and ordering,
 * and the search page's rule that no books are shown unless the search
 * form is valid. Query sets are sequences of book rows; a filter keeps
 * the rows in their order.
 */
module BookshelfViews {
  import opened Wrappers
  import opened Text
  import opened Sequences
  import opened BookshelfForms
  import opened BookshelfModels

  /** The GET parameters of a request, one value per name. */
  type QueryParams = map<string, string>

  /** `request.GET.get(name)`. */
  function Param(get: QueryParams, name: string): (r: Option<string>)
    ensures r.Some? <==> name in get
    ensures r.Some? ==> r.value == get[name]
  {
    if name in get then Some(get[name]) else None
  }

  // ---------------------------------------------------------------------
  // book_autocomplete
  // ---------------------------------------------------------------------

  /** The longest result list the endpoint returns. */
  const MaxSuggestions: nat := 10

  /** One entry of the JSON `results` list. */
  datatype Suggestion = Suggestion(id: nat, text: string)

  /** The entry built for one matched row: its id and "title by author". */
  function SuggestionFor(b: Book): (r: Suggestion)
    ensures r.id == b.id
    ensures |r.text| == |b.title| + 4 + |b.author|
    ensures r.text[..|b.title|] == b.title && r.text[|r.text| - |b.author|..] == b.author
    ensures r.text[|b.title|..|r.text| - |b.author|] == " by "
  {
    Suggestion(b.id, b.title + " by " + b.author)
  }

  /** The input guard: the stripped `q` parameter (empty when absent) is
      used only when it is non-empty and at least two characters long. */
  function AutocompleteQuery(q: Option<string>): (r: Option<string>)
    ensures r.Some? <==> |Strip(q.GetOr(""))| >= 2
    ensures r.Some? ==> r.value == Strip(q.GetOr(""))
  {
    var query := Strip(q.GetOr(""));
    if query == "" || |query| < 2 then None else Some(query)
  }

  /** The lookup `title__icontains=needle | author__icontains=needle`. */
  predicate MatchesTitleOrAuthor(b: Book, needle: string) {
    ContainsIgnoreCase(b.title, needle) || ContainsIgnoreCase(b.author, needle)
  }

  function TitleOrAuthorMatcher(needle: string): Book -> bool {
    b => MatchesTitleOrAuthor(b, needle)
  }

  /** The matched rows cut to the first ten: every row matches, the rows
      come in query order, and when fewer than ten rows are returned no
      matching row was left out. */
  function AutocompleteRows(books: seq<Book>, needle: string): (r: seq<Book>)
    ensures |r| <= MaxSuggestions && |r| <= |Filter(books, TitleOrAuthorMatcher(needle))|
    ensures forall b :: b in r ==> b in books && MatchesTitleOrAuthor(b, needle)
    ensures |r| < MaxSuggestions ==> forall b :: b in books && MatchesTitleOrAuthor(b, needle) ==> b in r
    ensures r == Filter(books, TitleOrAuthorMatcher(needle))[..|r|]
    ensures var matched := |Filter(books, TitleOrAuthorMatcher(needle))|;
      |r| == if matched < MaxSuggestions then matched else MaxSuggestions
  {
    Take(Filter(books, TitleOrAuthorMatcher(needle)), MaxSuggestions)
  }

  /** book_autocomplete: the JSON results for the `q` parameter. The HTML
      escaping applied to the query before the lookup is the parameter
      `escape`. The result is empty when the guard refuses the query, holds
      at most ten entries, and carries one entry per matched row, in order. */
  method BookAutocomplete(q: Option<string>, books: seq<Book>, escape: string -> string)
    returns (results: seq<Suggestion>)
    ensures |results| <= MaxSuggestions
    ensures AutocompleteQuery(q).None? ==> results == []
    ensures AutocompleteQuery(q).Some? ==>
      var rows := AutocompleteRows(books, escape(AutocompleteQuery(q).value));
      |results| == |rows| && forall i :: 0 <= i < |rows| ==> results[i] == SuggestionFor(rows[i])
  {
    var query := AutocompleteQuery(q);
    if query.None? {
      return [];
    }
    var safeQuery := escape(query.value);
    var rows := AutocompleteRows(books, safeQuery);
    results := [];
    var i := 0;
    while i < |rows|
      invariant 0 <= i <= |rows|
      invariant |results| == i
      invariant forall k :: 0 <= k < i ==> results[k] == SuggestionFor(rows[k])
    {
      results := results + [SuggestionFor(rows[i])];
      i := i + 1;
    }
  }

  /** Every entry names a book that matches the escaped query. */
  lemma {:induction false} AutocompleteSound(
    q: Option<string>, books: seq<Book>, escape: string -> string, results: seq<Suggestion>, i: nat)
    requires AutocompleteQuery(q).Some?
    requires var rows := AutocompleteRows(books, escape(AutocompleteQuery(q).value));
      |results| == |rows| && forall k :: 0 <= k < |rows| ==> results[k] == SuggestionFor(rows[k])
    requires i < |results|
    ensures exists b :: b in books && MatchesTitleOrAuthor(b, escape(AutocompleteQuery(q).value))
                        && results[i] == SuggestionFor(b)
  {
    var rows := AutocompleteRows(books, escape(AutocompleteQuery(q).value));
    assert rows[i] in rows;
  }

  // ---------------------------------------------------------------------
  // SecureBookListView.get_queryset
  // ---------------------------------------------------------------------

  /** The `available` parameter: exactly "true" or "false" selects a value,
      anything else (absent included) selects none. */
  function ParseAvailable(available: Option<string>): (r: Option<bool>)
    ensures r.Some? <==> available == Some("true") || available == Some("false")
    ensures r == Some(true) <==> available == Some("true")
  {
    if available == Some("true") || available == Some("false") then Some(available == Some("true"))
    else None
  }

  /** The author filter keeps the row: no author parameter, an empty one,
      or one contained in the author case-insensitively. */
  predicate AuthorSelected(b: Book, author: Option<string>) {
    author.None? || author.value == "" || ContainsIgnoreCase(b.author, author.value)
  }

  /** The availability filter keeps the row. */
  predicate AvailabilitySelected(b: Book, available: Option<string>) {
    var v := ParseAvailable(available);
    v.None? || b.isAvailable == v.value
  }

  /** The list view shows the row for these parameters. */
  predicate Listed(b: Book, get: QueryParams) {
    AuthorSelected(b, Param(get, "author")) && AvailabilitySelected(b, Param(get, "available"))
  }

  function AuthorFilter(author: string): Book -> bool {
    (b: Book) => ContainsIgnoreCase(b.author, author)
  }

  function AvailabilityFilter(available: bool): Book -> bool {
    (b: Book) => b.isAvailable == available
  }

  function AuthorSelectedBy(author: Option<string>): Book -> bool {
    b => AuthorSelected(b, author)
  }

  function ListedBy(get: QueryParams): Book -> bool {
    b => Listed(b, get)
  }

  /** `order_by('-created_at')`: newest first, each row no newer than the
      one before it. */
  predicate NewestFirst(s: seq<Book>) {
    forall i :: 0 < i < |s| ==> s[i - 1].createdAt >= s[i].createdAt
  }

  /** In a newest-first sequence every row is at least as new as every row
      after it. */
  lemma {:induction false} NewestFirstOrdered(s: seq<Book>)
    requires NewestFirst(s)
    ensures forall i, j :: 0 <= i < j < |s| ==> s[i].createdAt >= s[j].createdAt
  {
    if |s| > 1 {
      NewestFirstOrdered(s[1..]);
      forall j | 1 <= j < |s|
        ensures s[0].createdAt >= s[j].createdAt
      {
        assert s[0].createdAt >= s[1].createdAt;
        if j > 1 {
          assert s[1..][0].createdAt >= s[1..][j - 1].createdAt;
        }
      }
    }
  }

  /** Insert one row into a newest-first sequence. */
  function InsertNewest(b: Book, s: seq<Book>): (r: seq<Book>)
    requires NewestFirst(s)
    ensures NewestFirst(r)
    ensures multiset(r) == multiset(s) + multiset{b}
    ensures r[0] == b || (s != [] && r[0] == s[0])
  {
    if s == [] then [b]
    else if b.createdAt >= s[0].createdAt then [b] + s
    else
      var rest := InsertNewest(b, s[1..]);
      assert s == [s[0]] + s[1..];
      [s[0]] + rest
  }

  /** The rows ordered newest first: sorted, and a permutation of the input. */
  function SortNewestFirst(s: seq<Book>): (r: seq<Book>)
    ensures NewestFirst(r)
    ensures multiset(r) == multiset(s)
  {
    if s == [] then []
    else
      assert s == [s[0]] + s[1..];
      InsertNewest(s[0], SortNewestFirst(s[1..]))
  }

  /** The author step of get_queryset selects the rows AuthorSelected keeps. */
  lemma {:induction false} AuthorStep(books: seq<Book>, author: Option<string>)
    ensures author.Some? && author.value != "" ==>
      Filter(books, AuthorFilter(author.value)) == Filter(books, AuthorSelectedBy(author))
    ensures !(author.Some? && author.value != "") ==> books == Filter(books, AuthorSelectedBy(author))
  {
    if author.Some? && author.value != "" {
      FilterSame(books, AuthorFilter(author.value), AuthorSelectedBy(author));
    } else {
      FilterAll(books, AuthorSelectedBy(author));
    }
  }

  /** The availability step, applied after the author step, leaves exactly
      the listed rows. */
  lemma {:induction false} AvailabilityStep(books: seq<Book>, get: QueryParams)
    ensures var byAuthor := Filter(books, AuthorSelectedBy(Param(get, "author")));
      var v := ParseAvailable(Param(get, "available"));
      (v.Some? ==> Filter(byAuthor, AvailabilityFilter(v.value)) == Filter(books, ListedBy(get)))
      && (v.None? ==> byAuthor == Filter(books, ListedBy(get)))
  {
    var author := AuthorSelectedBy(Param(get, "author"));
    var v := ParseAvailable(Param(get, "available"));
    if v.Some? {
      FilterTwice(books, author, AvailabilityFilter(v.value), ListedBy(get));
    } else {
      FilterSame(books, author, ListedBy(get));
    }
  }

  /** A permutation has the same members. */
  lemma SameMembers(s: seq<Book>, t: seq<Book>)
    requires multiset(s) == multiset(t)
    ensures forall b :: b in s <==> b in t
  {
    forall b
      ensures b in s <==> b in t
    {
      assert b in s <==> b in multiset(s);
      assert b in t <==> b in multiset(t);
    }
  }

  /** get_queryset: filter by author when the parameter is non-empty, by
      availability when it is exactly "true" or "false", and order newest
      first. The result holds exactly the listed rows, each as often as in
      the input, newest first. */
  method GetQueryset(get: QueryParams, books: seq<Book>) returns (queryset: seq<Book>)
    ensures NewestFirst(queryset)
    ensures multiset(queryset) == multiset(Filter(books, ListedBy(get)))
    ensures forall b :: b in queryset <==> b in books && Listed(b, get)
  {
    queryset := books;
    var authorFilter := Param(get, "author");
    if authorFilter.Some? && authorFilter.value != "" {
      queryset := Filter(queryset, AuthorFilter(authorFilter.value));
    }
    AuthorStep(books, authorFilter);

    var availableFilter := Param(get, "available");
    var isAvailable := ParseAvailable(availableFilter);
    if isAvailable.Some? {
      queryset := Filter(queryset, AvailabilityFilter(isAvailable.value));
    }
    AvailabilityStep(books, get);

    ghost var listed := queryset;
    queryset := SortNewestFirst(queryset);
    SameMembers(queryset, listed);
  }

  // ---------------------------------------------------------------------
  // safe_search_books
  // ---------------------------------------------------------------------

  /** The row matches `q` case-insensitively in its title, author or isbn. */
  predicate MatchesSearch(b: Book, q: string) {
    ContainsIgnoreCase(b.title, q) || ContainsIgnoreCase(b.author, q) || ContainsIgnoreCase(b.isbn, q)
  }

  function SearchMatcher(q: string): Book -> bool {
    b => MatchesSearch(b, q)
  }

  /** What the search page renders: the books, whether the form was bound
      to submitted data, and the search query shown back. */
  datatype SearchPage = SearchPage(books: seq<Book>, bound: bool, searchQuery: string)

  /** safe_search_books: an empty GET leaves the form unbound, and an
      unbound or invalid form shows no books and an empty query; a valid,
      non-empty query shows every row that matches it, and only those. */
  function SafeSearchBooks(get: QueryParams, books: seq<Book>): (page: SearchPage)
    ensures page.bound <==> get != map[]
    ensures page.searchQuery != "" <==> page.bound && ValidateSearch(Param(get, "query")).Success?
    ensures page.searchQuery != "" ==> page.searchQuery == ValidateSearch(Param(get, "query")).value
    ensures page.searchQuery == "" ==> page.books == []
    ensures forall b :: b in page.books <==> page.searchQuery != "" && b in books && MatchesSearch(b, page.searchQuery)
  {
    if get == map[] then SearchPage([], false, "")
    else
      match ValidateSearch(Param(get, "query"))
      case Failure(_) => SearchPage([], true, "")
      case Success(q) =>
        ValidateSearchAccepts(Param(get, "query"));
        if q == "" then SearchPage([], true, q)
        else SearchPage(Filter(books, SearchMatcher(q)), true, q)
  }

  /** The books shown are exactly the rows matching the stripped query, and
      only a query of 2 to 100 allowed characters shows any. */
  lemma {:induction false} SearchShowsOnlyValidMatches(get: QueryParams, books: seq<Book>, b: Book)
    requires b in SafeSearchBooks(get, books).books
    ensures var raw := Strip(Param(get, "query").GetOr(""));
      2 <= |raw| <= MaxQueryLength && MatchesQueryPattern(raw) && MatchesSearch(b, raw)
  {
    ValidateSearchAccepts(Param(get, "query"));
  }
}
