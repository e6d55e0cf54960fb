/** The movie catalogue as the service sees it through its storage: movies with unique titles,
    actors owned by a movie and deleted with it, and the create, find, update and delete
    operations with the domain errors they report. */
module Catalogue {
  import opened Wrappers
  import opened Strings
  import opened JsValues
  import opened ErrorCodes
  import opened MovieDto
  import opened ExceptionFilter

  /** A stored movie row. */
  datatype Movie = Movie(title: string, year: int, format: MovieFormat)

  /** A stored actor row; `movieId` is the owning movie. */
  datatype Actor = Actor(name: string, movieId: int)

  /** The two tables, keyed by their auto-incremented ids, and the next id of each. */
  datatype Catalogue = Catalogue(
    movies: map<int, Movie>,
    actors: map<int, Actor>,
    nextMovieId: int,
    nextActorId: int)

  const Empty := Catalogue(map[], map[], 1, 1)

  /** The storage invariants: ids below the next id, every actor owned by a stored movie, and
      the unique index on the title. */
  predicate Valid(c: Catalogue) {
    && 1 <= c.nextMovieId && 1 <= c.nextActorId
    && (forall i :: i in c.movies ==> 1 <= i < c.nextMovieId)
    && (forall a :: a in c.actors ==> 1 <= a < c.nextActorId && c.actors[a].movieId in c.movies)
    && UniqueTitles(c.movies)
  }

  predicate UniqueTitles(movies: map<int, Movie>) {
    forall i, j :: i in movies && j in movies && movies[i].title == movies[j].title ==> i == j
  }

  lemma EmptyIsValid()
    ensures Valid(Empty)
  {
  }

  predicate TitleTaken(c: Catalogue, title: string) {
    exists i :: i in c.movies && c.movies[i].title == title
  }

  /** The cast of a movie: its actors' names keyed by actor id. */
  function CastOf(c: Catalogue, id: int): (cast: map<int, string>)
    ensures forall a :: a in cast <==> a in c.actors && c.actors[a].movieId == id
  {
    map a | a in c.actors && c.actors[a].movieId == id :: c.actors[a].name
  }

  /** A movie as the service returns it: its row with its cast included. */
  datatype MovieView = MovieView(id: int, title: string, year: int, format: MovieFormat, cast: map<int, string>)

  function ViewOf(c: Catalogue, id: int): MovieView
    requires id in c.movies
  {
    var m := c.movies[id];
    MovieView(id, m.title, m.year, m.format, CastOf(c, id))
  }

  /** The actor rows inserted for `names`, numbered from `next` in order. */
  function NewCast(next: int, movieId: int, names: seq<string>): (r: map<int, Actor>)
    ensures forall a :: a in r <==> next <= a < next + |names|
    ensures forall a :: a in r ==> r[a] == Actor(names[a - next], movieId)
    decreases |names|
  {
    if |names| == 0 then map[]
    else NewCast(next, movieId, names[..|names| - 1])[next + |names| - 1 := Actor(names[|names| - 1], movieId)]
  }

  // ----- Errors -----

  /** An item of the storage layer's validation error: the column, the failed validator and the
      offending value. */
  datatype ErrorItem = ErrorItem(path: string, validatorKey: string, value: Json)

  /** A failure of the storage layer. */
  datatype StorageError =
    | StorageValidation(items: seq<ErrorItem>)
    | OtherStorageError(error: Exception)

  /** The item a duplicate title produces. */
  function DuplicateTitle(title: string): ErrorItem {
    ErrorItem("title", "not_unique", JString(title))
  }

  /** `create`'s catch block: a storage validation error becomes a 400 domain error naming the
      first item's column, its upper-cased validator and its value, with `MOVIE_EXISTS`; reading
      the first item of an empty list throws; anything else is rethrown unchanged. */
  function TranslateCreateError(err: StorageError): (r: Exception)
    ensures err.OtherStorageError? ==> r == err.error
    ensures err.StorageValidation? && |err.items| == 0 ==> r == NamedError("TypeError")
    ensures err.StorageValidation? && |err.items| > 0 ==>
      var item := err.items[0];
      r == DomainException(BadRequest, JObject([
        ("fields", JObject([(item.path, JString(ToUpper(item.validatorKey)))])),
        ("values", JObject([(item.path, item.value)])),
        ("code", JString("MOVIE_EXISTS"))]))
  {
    match err
    case OtherStorageError(e) => e
    case StorageValidation(items) =>
      if |items| == 0 then NamedError("TypeError")
      else
        var item := items[0];
        DomainException(BadRequest, JObject([
          ("fields", JObject([(item.path, JString(ToUpper(item.validatorKey)))])),
          ("values", JObject([(item.path, item.value)])),
          Code(MovieExists)]))
  }

  const NotFound := 404

  /** The description `findByID` throws for a missing id; it is nested under `error`, so the
      filter's reply holds `error.error`. */
  function NotFoundDescription(id: int): Json {
    JObject([("error", JObject([("fields", JObject([("id", JNumber(id))])), Code(MovieNotFound)]))])
  }

  // ----- Operations -----

  /** `create`: inserts the movie and one actor per name; a title already stored is rejected by
      the unique index, translated into `MOVIE_EXISTS`, and nothing is inserted. */
  function Create(c: Catalogue, req: MovieRequest): (r: Result<(Catalogue, MovieView), Exception>)
    requires Valid(c)
    ensures r.Err? <==> TitleTaken(c, req.title)
    ensures r.Err? ==> r.error == TranslateCreateError(StorageValidation([DuplicateTitle(req.title)]))
    ensures r.Ok? ==>
      var (c', v) := r.value;
      && Valid(c')
      && v.id == c.nextMovieId && v.id !in c.movies
      && c'.movies == c.movies[v.id := Movie(req.title, req.year, req.format)]
      && c'.actors == c.actors + NewCast(c.nextActorId, v.id, req.actors.GetOr([]))
      && v == ViewOf(c', v.id)
  {
    if TitleTaken(c, req.title) then
      Err(TranslateCreateError(StorageValidation([DuplicateTitle(req.title)])))
    else
      var id := c.nextMovieId;
      var names := req.actors.GetOr([]);
      var c' := Catalogue(c.movies[id := Movie(req.title, req.year, req.format)],
                          c.actors + NewCast(c.nextActorId, id, names),
                          id + 1, c.nextActorId + |names|);
      Ok((c', ViewOf(c', id)))
  }

  /** `findByID`: the movie with its cast, or a 404 `MOVIE_NOT_FOUND` naming the id. */
  function FindByID(c: Catalogue, id: int): (r: Result<MovieView, Exception>)
    ensures r.Ok? <==> id in c.movies
    ensures r.Err? ==> r.error == DomainException(NotFound, NotFoundDescription(id))
    ensures r.Ok? ==> r.value.id == id && r.value.title == c.movies[id].title
    ensures r.Ok? ==> r.value.year == c.movies[id].year && r.value.format == c.movies[id].format
    ensures r.Ok? ==> r.value.cast == CastOf(c, id)
  {
    if id in c.movies then Ok(ViewOf(c, id))
    else Err(DomainException(NotFound, NotFoundDescription(id)))
  }

  /** The actors that do not belong to `id`. */
  function ActorsWithout(actors: map<int, Actor>, id: int): (r: map<int, Actor>)
    ensures forall a :: a in r <==> a in actors && actors[a].movieId != id
    ensures forall a :: a in r ==> r[a] == actors[a]
  {
    map a | a in actors && actors[a].movieId != id :: actors[a]
  }

  /** `deleteByID`: looks the movie up first; the delete cascades to its actors. */
  function DeleteByID(c: Catalogue, id: int): (r: Result<Catalogue, Exception>)
    ensures r.Err? <==> id !in c.movies
    ensures r.Err? ==> Err(r.error) == FindByID(c, id)
    ensures r.Ok? ==>
      && r.value.movies == c.movies - {id}
      && (forall a :: a in r.value.actors <==> a in c.actors && c.actors[a].movieId != id)
      && (forall a :: a in r.value.actors ==> r.value.actors[a] == c.actors[a])
  {
    match FindByID(c, id)
    case Err(e) => Err(e)
    case Ok(_) => Ok(c.(movies := c.movies - {id}, actors := ActorsWithout(c.actors, id)))
  }

  /** `update`: looks the movie up first, then sets year and format, and replaces the cast only
      when the request carries one; the title in the request is not used. */
  function Update(c: Catalogue, id: int, req: MovieRequest): (r: Result<(Catalogue, MovieView), Exception>)
    requires Valid(c)
    ensures r.Err? <==> id !in c.movies
    ensures r.Err? ==> Err(r.error) == FindByID(c, id)
    ensures r.Ok? ==>
      var (c', v) := r.value;
      && Valid(c')
      && c'.movies == c.movies[id := Movie(c.movies[id].title, req.year, req.format)]
      && v == ViewOf(c', id)
      && (req.actors.None? ==> c'.actors == c.actors)
      && (req.actors.Some? ==> c'.actors == ActorsWithout(c.actors, id) + NewCast(c.nextActorId, id, req.actors.value))
  {
    match FindByID(c, id)
    case Err(e) => Err(e)
    case Ok(_) =>
      var movies := c.movies[id := Movie(c.movies[id].title, req.year, req.format)];
      var c' :=
        match req.actors
        case None => c.(movies := movies)
        case Some(names) =>
          Catalogue(movies, ActorsWithout(c.actors, id) + NewCast(c.nextActorId, id, names),
                    c.nextMovieId, c.nextActorId + |names|);
      Ok((c', ViewOf(c', id)))
  }

  /** `update` as written: the movie row takes the new year and format, and the request's names
      are set on the loaded instance only. Nothing in `update` deletes the movie's actor rows or
      writes the names as rows of their own, so the stored cast stays as it was. */
  function UpdateAsWritten(c: Catalogue, id: int, req: MovieRequest): (r: Result<Catalogue, Exception>)
    requires Valid(c)
    ensures r.Err? <==> id !in c.movies
    ensures r.Err? ==> Err(r.error) == FindByID(c, id)
    ensures r.Ok? ==>
      && Valid(r.value)
      && r.value.movies == c.movies[id := Movie(c.movies[id].title, req.year, req.format)]
      && r.value.actors == c.actors
  {
    match FindByID(c, id)
    case Err(e) => Err(e)
    case Ok(_) => Ok(c.(movies := c.movies[id := Movie(c.movies[id].title, req.year, req.format)]))
  }

  // ----- Properties -----

  /** A created movie is found again under its id with the request's title, year and format, and
      with exactly the request's names as its cast. */
  lemma CreateThenFind(c: Catalogue, req: MovieRequest)
    requires Valid(c) && Create(c, req).Ok?
    ensures var (c', v) := Create(c, req).value;
      && FindByID(c', v.id) == Ok(v)
      && v.title == req.title && v.year == req.year && v.format == req.format
      && (forall a :: a in v.cast <==> c.nextActorId <= a < c.nextActorId + |req.actors.GetOr([])|)
      && (forall a :: a in v.cast ==> v.cast[a] == req.actors.GetOr([])[a - c.nextActorId])
  {
    var (c', v) := Create(c, req).value;
    var names := req.actors.GetOr([]);
    forall a ensures a in v.cast <==> c.nextActorId <= a < c.nextActorId + |names| {
      if a in c.actors {
        assert c.actors[a].movieId in c.movies;
      }
    }
  }

  /** Creating a second movie with a stored title fails with `MOVIE_EXISTS` on `title`; the
      catalogue, and so the first movie, is untouched. */
  lemma DuplicateTitleRejected(c: Catalogue, req: MovieRequest, id: int)
    requires Valid(c) && id in c.movies && c.movies[id].title == req.title
    ensures Create(c, req)
         == Err(DomainException(BadRequest, JObject([
              ("fields", JObject([("title", JString("NOT_UNIQUE"))])),
              ("values", JObject([("title", JString(req.title))])),
              ("code", JString("MOVIE_EXISTS"))])))
  {
    assert ToUpper("not_unique") == "NOT_UNIQUE";
  }

  /** A deleted movie is gone, none of its actors remain, and the invariants still hold. */
  lemma DeleteThenFind(c: Catalogue, id: int)
    requires Valid(c) && id in c.movies
    ensures var c' := DeleteByID(c, id).value;
      && FindByID(c', id).Err? && CastOf(c', id) == map[]
      && Valid(c')
      && (forall other :: other in c'.movies ==> CastOf(c', other) == CastOf(c, other))
  {
  }

  /** An update keeps the id and the title, and keeps the cast when the request has none. */
  lemma UpdateKeepsTitle(c: Catalogue, id: int, req: MovieRequest)
    requires Valid(c) && id in c.movies
    ensures var (c', v) := Update(c, id, req).value;
      && v.id == id && v.title == c.movies[id].title && v.year == req.year && v.format == req.format
      && c'.movies.Keys == c.movies.Keys
      && (req.actors.None? ==> v.cast == CastOf(c, id))
  {
  }

  /** As written, an update that carries a cast leaves the movie's stored cast as it was: a
      later find shows the old names, whatever names the request carried. */
  lemma UpdateAsWrittenKeepsOldCast(c: Catalogue, id: int, req: MovieRequest)
    requires Valid(c) && id in c.movies && req.actors.Some?
    ensures CastOf(UpdateAsWritten(c, id, req).value, id) == CastOf(c, id)
    ensures FindByID(UpdateAsWritten(c, id, req).value, id).value.cast == CastOf(c, id)
  {
  }

  /** The corrected update replaces the cast: a later find shows exactly the request's names, and
      none of the old actors. */
  lemma UpdateThenFind(c: Catalogue, id: int, req: MovieRequest)
    requires Valid(c) && id in c.movies && req.actors.Some?
    ensures var c' := Update(c, id, req).value.0;
      && (forall a :: a in CastOf(c', id) <==> c.nextActorId <= a < c.nextActorId + |req.actors.value|)
      && (forall a :: a in CastOf(c', id) ==> CastOf(c', id)[a] == req.actors.value[a - c.nextActorId])
      && (forall a :: a in CastOf(c, id) ==> a !in CastOf(c', id))
  {
  }

  /** Under the storage invariants every actor row belongs to the cast of exactly one stored
      movie, the one it names. */
  lemma CastsPartitionActors(c: Catalogue, a: int)
    requires Valid(c) && a in c.actors
    ensures c.actors[a].movieId in c.movies && a in CastOf(c, c.actors[a].movieId)
    ensures forall id :: a in CastOf(c, id) ==> id == c.actors[a].movieId
    ensures CastOf(c, c.actors[a].movieId)[a] == c.actors[a].name
  {
  }
}
