/** The movie list: defaulting of the query options, the choice of the title and actor texts, the
    filter they build, and the post-sort by lower-cased title applied to the page the storage
    returns. */
module MovieQuery {
  import opened Wrappers
  import opened Strings
  import opened Catalogue

  datatype SortKey = ById | ByTitle | ByYear
  datatype Order = Asc | Desc

  /** The query options as received; `None` is an absent option. */
  datatype ListOptions = ListOptions(
    limit: Option<int>,
    offset: Option<int>,
    sort: Option<SortKey>,
    order: Option<Order>,
    actor: Option<string>,
    title: Option<string>,
    search: Option<string>)

  /** The filter of the list query: none, or a title text and an actor text (at least one
      present), OR-combined. */
  datatype Filter = NoFilter | AnyOf(title: Option<string>, actor: Option<string>)

  datatype Query = Query(limit: int, offset: int, sort: SortKey, order: Order, filter: Filter)

  const DefaultLimit := 20
  const DefaultOffset := 0

  /** A string option that JavaScript treats as true: present and non-empty. */
  predicate Truthy(s: Option<string>) {
    s.Some? && s.value != ""
  }

  /** `primary || fallback`, kept only when the result is truthy. */
  function PickText(primary: Option<string>, fallback: Option<string>): (r: Option<string>)
    ensures r.Some? <==> Truthy(primary) || Truthy(fallback)
    ensures Truthy(primary) ==> r == primary
    ensures !Truthy(primary) && Truthy(fallback) ==> r == fallback
    ensures r.Some? ==> r.value != ""
  {
    if Truthy(primary) then primary
    else if Truthy(fallback) then fallback
    else None
  }

  /** The options with their defaults applied and the filter built from the texts. */
  function BuildQuery(o: ListOptions): (q: Query)
    ensures q.limit == o.limit.GetOr(DefaultLimit) && q.offset == o.offset.GetOr(DefaultOffset)
    ensures q.sort == o.sort.GetOr(ById) && q.order == o.order.GetOr(Asc)
    ensures q.filter.NoFilter? <==> !Truthy(o.title) && !Truthy(o.actor) && !Truthy(o.search)
    ensures q.filter.AnyOf? ==>
      q.filter.title == PickText(o.title, o.search) && q.filter.actor == PickText(o.actor, o.search)
  {
    var titleText := PickText(o.title, o.search);
    var actorText := PickText(o.actor, o.search);
    var filter := if titleText.Some? || actorText.Some? then AnyOf(titleText, actorText) else NoFilter;
    Query(o.limit.GetOr(DefaultLimit), o.offset.GetOr(DefaultOffset), o.sort.GetOr(ById), o.order.GetOr(Asc), filter)
  }

  /** The storage's substring operator: a case-insensitive (ASCII) substring test. */
  predicate MatchesText(hay: string, needle: string) {
    Contains(ToLower(hay), ToLower(needle))
  }

  /** Whether an actor row joins under the filter: its movie's title matches the title text or
      its name matches the actor text. */
  predicate ActorJoins(c: Catalogue, a: int, f: Filter)
    requires a in c.actors && c.actors[a].movieId in c.movies
  {
    match f
    case NoFilter => true
    case AnyOf(title, actor) =>
      || (title.Some? && MatchesText(c.movies[c.actors[a].movieId].title, title.value))
      || (actor.Some? && MatchesText(c.actors[a].name, actor.value))
  }

  /** The cast included for a movie: its actors that join. */
  function JoinedCast(c: Catalogue, id: int, f: Filter): (cast: map<int, string>)
    requires Valid(c)
    ensures forall a :: a in cast ==> a in CastOf(c, id) && cast[a] == CastOf(c, id)[a]
  {
    map a | a in c.actors && c.actors[a].movieId == id && ActorJoins(c, a, f) :: c.actors[a].name
  }

  /** The include carries a `where`, so it is an inner join: a movie is listed exactly when at
      least one of its actors joins. */
  predicate Listed(c: Catalogue, id: int, f: Filter)
    requires Valid(c)
  {
    id in c.movies && JoinedCast(c, id, f) != map[]
  }

  /** A page the storage may return for the query: at most `limit` distinct listed movies, each
      with its joined cast. Which ones, and in which order, the storage decides. */
  predicate IsPage(c: Catalogue, q: Query, page: seq<MovieView>)
    requires Valid(c)
  {
    && (q.limit >= 0 ==> |page| <= q.limit)
    && (forall i :: 0 <= i < |page| ==> PageEntry(c, q.filter, page[i]))
    && (forall i, j :: 0 <= i < j < |page| ==> page[i].id != page[j].id)
  }

  /** One movie of a page: listed, with its stored row and its joined cast. */
  predicate PageEntry(c: Catalogue, f: Filter, m: MovieView)
    requires Valid(c)
  {
    Listed(c, m.id, f) && m == ViewOf(c, m.id).(cast := JoinedCast(c, m.id, f))
  }

  // ----- The post-sort -----

  function TitleKey(m: MovieView): string {
    ToLower(m.title)
  }

  predicate SortedByTitle(s: seq<MovieView>) {
    forall i, j :: 0 <= i < j < |s| ==> LexLe(TitleKey(s[i]), TitleKey(s[j]))
  }

  /** `m` placed before the first element whose key is not below it. */
  function Insert(m: MovieView, s: seq<MovieView>): (r: seq<MovieView>)
    requires SortedByTitle(s)
    ensures SortedByTitle(r)
    ensures multiset(r) == multiset(s) + multiset{m}
    decreases |s|
  {
    if |s| == 0 then [m]
    else if LexLe(TitleKey(m), TitleKey(s[0])) then
      InsertFront(m, s);
      [m] + s
    else
      var rest := Insert(m, s[1..]);
      InsertAfterHead(m, s, rest);
      assert s == [s[0]] + s[1..];
      assert multiset([s[0]] + rest) == multiset{s[0]} + multiset(rest);
      [s[0]] + rest
  }

  lemma InsertFront(m: MovieView, s: seq<MovieView>)
    requires SortedByTitle(s) && |s| > 0 && LexLe(TitleKey(m), TitleKey(s[0]))
    ensures SortedByTitle([m] + s)
  {
    var r := [m] + s;
    forall i, j | 0 <= i < j < |r| ensures LexLe(TitleKey(r[i]), TitleKey(r[j])) {
      if i == 0 && j > 1 {
        LexLeTransitive(TitleKey(m), TitleKey(s[0]), TitleKey(s[j - 1]));
      }
    }
  }

  lemma InsertAfterHead(m: MovieView, s: seq<MovieView>, rest: seq<MovieView>)
    requires SortedByTitle(s) && |s| > 0 && !LexLe(TitleKey(m), TitleKey(s[0]))
    requires SortedByTitle(rest) && multiset(rest) == multiset(s[1..]) + multiset{m}
    ensures SortedByTitle([s[0]] + rest)
  {
    LexLeTotal(TitleKey(m), TitleKey(s[0]));
    var r := [s[0]] + rest;
    forall i, j | 0 <= i < j < |r| ensures LexLe(TitleKey(r[i]), TitleKey(r[j])) {
      if i == 0 {
        var y := rest[j - 1];
        assert y in multiset(rest);
        if y != m {
          assert y in multiset(s[1..]);
          var k :| 0 <= k < |s[1..]| && s[1..][k] == y;
          assert s[k + 1] == y;
        }
      }
    }
  }

  /** An insertion sort by lower-cased title. Each element is placed in front of the sorted
      rest of the input, before the first element whose key is not below its own, so elements
      with equal keys stay in input order as in JavaScript's stable sort. */
  function SortByTitle(s: seq<MovieView>): (r: seq<MovieView>)
    ensures SortedByTitle(r)
    ensures multiset(r) == multiset(s)
    decreases |s|
  {
    if |s| == 0 then []
    else
      assert s == [s[0]] + s[1..];
      Insert(s[0], SortByTitle(s[1..]))
  }

  /** `sortMoviesAlphabetically`: only a title sort reorders the page, and always ascending;
      any other sort key returns the page as it is. */
  function SortMoviesAlphabetically(movies: seq<MovieView>, sort: SortKey): (r: seq<MovieView>)
    ensures multiset(r) == multiset(movies) && |r| == |movies|
    ensures sort == ByTitle ==> SortedByTitle(r)
    ensures sort != ByTitle ==> r == movies
  {
    if sort == ByTitle then
      var r := SortByTitle(movies);
      assert |r| == |multiset(r)| == |multiset(movies)| == |movies|;
      r
    else movies
  }

  /** The answer of `list`. */
  datatype ListResult = ListResult(data: seq<MovieView>, total: nat)

  /** `list`: the page the storage returns for the built query, post-sorted with the sort key
      only, and the number of all stored movies. */
  function List(c: Catalogue, o: ListOptions, page: seq<MovieView>): (r: ListResult)
    requires Valid(c) && IsPage(c, BuildQuery(o), page)
    ensures r.total == |c.movies|
    ensures multiset(r.data) == multiset(page)
    ensures o.sort == Some(ByTitle) ==> SortedByTitle(r.data)
    ensures o.sort != Some(ByTitle) ==> r.data == page
  {
    var sort := BuildQuery(o).sort;
    assert sort == ByTitle <==> o.sort == Some(ByTitle);
    ListResult(SortMoviesAlphabetically(page, sort), |c.movies|)
  }

  // ----- Properties -----

  /** Every listed movie is a stored movie with its joined cast, and without a filter every
      movie that has an actor is listable, with its whole cast. */
  lemma ListedMovies(c: Catalogue, o: ListOptions, page: seq<MovieView>)
    requires Valid(c) && IsPage(c, BuildQuery(o), page)
    ensures forall m :: m in List(c, o, page).data ==> m.id in c.movies && m.title == c.movies[m.id].title
    ensures forall id :: id in c.movies && BuildQuery(o).filter.NoFilter? ==>
      JoinedCast(c, id, NoFilter) == CastOf(c, id)
  {
    var data := List(c, o, page).data;
    forall m | m in data ensures m.id in c.movies && m.title == c.movies[m.id].title {
      assert m in multiset(page);
    }
    forall id | id in c.movies ensures JoinedCast(c, id, NoFilter) == CastOf(c, id) {
      JoinedCastWithoutFilter(c, id);
    }
  }

  /** Without a filter every actor of the movie joins. */
  lemma JoinedCastWithoutFilter(c: Catalogue, id: int)
    requires Valid(c)
    ensures JoinedCast(c, id, NoFilter) == CastOf(c, id)
  {
  }

  /** The requested order does not change the result of a title sort. */
  lemma TitleSortIgnoresOrder(c: Catalogue, o: ListOptions, page: seq<MovieView>, order: Option<Order>)
    requires Valid(c) && IsPage(c, BuildQuery(o), page) && o.sort == Some(ByTitle)
    ensures IsPage(c, BuildQuery(o.(order := order)), page)
    ensures List(c, o.(order := order), page) == List(c, o, page)
  {
  }

  /** A title text or a search text matches a movie by title, and then every one of its actors
      joins; the OR also lists a movie through one actor's name alone. */
  lemma FilterCombinesByOr(c: Catalogue, o: ListOptions, id: int)
    requires Valid(c) && id in c.movies && BuildQuery(o).filter.AnyOf?
    ensures var f := BuildQuery(o).filter;
      f.title.Some? && MatchesText(c.movies[id].title, f.title.value) ==> JoinedCast(c, id, f) == CastOf(c, id)
    ensures var f := BuildQuery(o).filter;
      forall a :: a in CastOf(c, id) && f.actor.Some? && MatchesText(CastOf(c, id)[a], f.actor.value) ==>
        a in JoinedCast(c, id, f)
  {
  }

  /** The movies of `s` whose lower-cased title is `k`, in the order of `s`: the titles that
      differ from each other only in letter case. */
  function WithTitleKey(s: seq<MovieView>, k: string): (r: seq<MovieView>)
    ensures |r| <= |s|
    ensures forall i :: 0 <= i < |r| ==> r[i] in s && TitleKey(r[i]) == k
  {
    if |s| == 0 then []
    else (if TitleKey(s[0]) == k then [s[0]] else []) + WithTitleKey(s[1..], k)
  }

  /** Inserting a movie puts it in front of every movie already there with the same key, and
      leaves the relative order of the other movies with that key alone. */
  lemma {:induction false} InsertKeepsKeyOrder(m: MovieView, t: seq<MovieView>, k: string)
    requires SortedByTitle(t)
    ensures WithTitleKey(Insert(m, t), k) ==
      if TitleKey(m) == k then [m] + WithTitleKey(t, k) else WithTitleKey(t, k)
    decreases |t|
  {
    if |t| == 0 {
      WithTitleKeyCons(m, [], k);
    } else if LexLe(TitleKey(m), TitleKey(t[0])) {
      WithTitleKeyCons(m, t, k);
    } else {
      var rest := Insert(m, t[1..]);
      InsertKeepsKeyOrder(m, t[1..], k);
      WithTitleKeyCons(t[0], rest, k);
      WithTitleKeyCons(t[0], t[1..], k);
      assert [t[0]] + t[1..] == t;
      LexLeReflexive(TitleKey(m));
    }
  }

  lemma WithTitleKeyCons(x: MovieView, s: seq<MovieView>, k: string)
    ensures WithTitleKey([x] + s, k) == (if TitleKey(x) == k then [x] else []) + WithTitleKey(s, k)
  {
    assert ([x] + s)[1..] == s;
  }

  /** The title sort is stable: movies whose titles differ only in letter case keep the order
      they had in the page. */
  lemma {:induction false} SortKeepsCaseVariantsInOrder(s: seq<MovieView>, k: string)
    ensures WithTitleKey(SortByTitle(s), k) == WithTitleKey(s, k)
    decreases |s|
  {
    if |s| > 0 {
      SortKeepsCaseVariantsInOrder(s[1..], k);
      InsertKeepsKeyOrder(s[0], SortByTitle(s[1..]), k);
    }
  }
}
