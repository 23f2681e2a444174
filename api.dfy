/** The catalog client: one request primitive that turns transport failures into
    user-facing errors, and the search, details, cast, episodes and popular-shows
    operations built on it. The HTTP exchange itself is not modelled: each operation
    receives what the transport produced for its request (a body or a failure) and
    whether the browser reports being online (`navigator.onLine`). */
module Api {
  import opened Wrappers
  import opened JsText
  import opened Catalog
  import opened Sequences

  datatype HttpResponse = HttpResponse(status: int)

  /** A failed request: the error `code` (`"ECONNABORTED"` when the request timed out)
      and the HTTP response, when one arrived. */
  datatype RequestFailure = RequestFailure(code: Option<string>, response: Option<HttpResponse>)

  /** What the transport produced for one GET request. */
  datatype Transport<T> = Delivered(body: T) | Failed(failure: RequestFailure)

  /** The errors the client raises. */
  datatype ApiError = EmptyQuery | Timeout | Offline | NotFound | ServerUnreachable

  const TimeoutCode: string := "ECONNABORTED"
  const NotFoundStatus: int := 404
  const MinPopularRating: real := 7.0
  const MaxPopular: nat := 12

  /** The message each error carries. */
  function Message(e: ApiError): (m: string)
    ensures |m| > 0
  {
    match e
    case EmptyQuery => "El término de búsqueda no puede estar vacío"
    case Timeout => "La conexión tardó demasiado. Intenta de nuevo."
    case Offline => "No hay conexión a internet. Verifica tu conexión."
    case NotFound => "No se encontraron resultados."
    case ServerUnreachable => "Error al conectar con el servidor. Intenta más tarde."
  }

  /** Each error has its own message, so the user can tell the causes apart. */
  lemma MessagesDistinct(a: ApiError, b: ApiError)
    ensures Message(a) == Message(b) ==> a == b
  {
  }

  /** The classification in `request`'s error handler, checked in a fixed order:
      a timeout wins over everything, then being offline, then a 404 response. */
  function Classify(f: RequestFailure, online: bool): (e: ApiError)
    ensures e != EmptyQuery
    ensures e == Timeout <==> f.code == Some(TimeoutCode)
    ensures e == Offline <==> f.code != Some(TimeoutCode) && !online
    ensures e == NotFound <==>
      f.code != Some(TimeoutCode) && online && f.response.Some? && f.response.value.status == NotFoundStatus
  {
    if f.code == Some(TimeoutCode) then Timeout
    else if !online then Offline
    else if f.response.Some? && f.response.value.status == NotFoundStatus then NotFound
    else ServerUnreachable
  }

  /** `request(endpoint)`: the response body, or the classified error. */
  function Request<T>(t: Transport<T>, online: bool): (r: Result<T, ApiError>)
    ensures r.Ok? <==> t.Delivered?
    ensures r.Ok? ==> r.value == t.body
    ensures r.Err? ==> r.error == Classify(t.failure, online) && r.error != EmptyQuery
  {
    match t
    case Delivered(body) => Ok(body)
    case Failed(f) => Err(Classify(f, online))
  }

  /** One element of a search response: a match score and the show. */
  datatype SearchHit = SearchHit(score: real, show: Show)

  /** The term `searchShows` sends: the query trimmed at both ends, or `None` when the
      query is empty or only whitespace and no request is made. */
  function SearchTerm(query: string): (t: Option<string>)
    ensures t.None? <==> forall i :: 0 <= i < |query| ==> IsWhitespace(query[i])
    ensures t.Some? ==> t.value == Trim(query) && |t.value| > 0
    ensures t.Some? ==> !IsWhitespace(t.value[0]) && !IsWhitespace(t.value[|t.value| - 1])
  {
    TrimEmptyIffBlank(query);
    TrimShape(query);
    TrimIsSlice(query);
    if |Trim(query)| == 0 then None else Some(Trim(query))
  }

  /** `data.map(item => item.show)`. */
  function ShowsOf(hits: seq<SearchHit>): (r: seq<Show>)
    ensures |r| == |hits|
    ensures forall i :: 0 <= i < |hits| ==> r[i] == hits[i].show
  {
    if hits == [] then [] else [hits[0].show] + ShowsOf(hits[1..])
  }

  /** `searchShows(query)`; `response` is what the transport produced for the request
      for `SearchTerm(query)` and is never consulted when the query is blank. */
  function SearchShows(query: string, response: Transport<seq<SearchHit>>, online: bool)
    : (r: Result<seq<Show>, ApiError>)
    ensures SearchTerm(query).None? ==> r == Err(EmptyQuery)
    ensures SearchTerm(query).Some? && response.Failed? ==> r == Err(Classify(response.failure, online))
    ensures SearchTerm(query).Some? && response.Delivered? ==>
      && r.Ok? && |r.value| == |response.body|
      && forall i :: 0 <= i < |r.value| ==> r.value[i] == response.body[i].show
  {
    if SearchTerm(query).None? then Err(EmptyQuery)
    else
      match Request(response, online)
      case Err(e) => Err(e)
      case Ok(hits) => Ok(ShowsOf(hits))
  }

  /** `getShowDetails(id)`: the show, or the classified error, propagated. */
  function GetShowDetails(response: Transport<Show>, online: bool): (r: Result<Show, ApiError>)
    ensures response.Delivered? ==> r == Ok(response.body)
    ensures response.Failed? ==> r == Err(Classify(response.failure, online)) && r.error != EmptyQuery
  {
    Request(response, online)
  }

  datatype CastCredit = CastCredit(person: string, character: string)

  datatype Episode = Episode(id: int, season: int, number: Option<int>, name: string, airdate: string)

  /** `getShowCast(id)`: a failure of any kind yields the empty list. */
  function GetShowCast(response: Transport<seq<CastCredit>>, online: bool): (r: seq<CastCredit>)
    ensures response.Delivered? ==> r == response.body
    ensures response.Failed? ==> r == []
  {
    match Request(response, online)
    case Ok(cast) => cast
    case Err(_) => []
  }

  /** `getShowEpisodes(id)`: a failure of any kind yields the empty list. */
  function GetShowEpisodes(response: Transport<seq<Episode>>, online: bool): (r: seq<Episode>)
    ensures response.Delivered? ==> r == response.body
    ensures response.Failed? ==> r == []
  {
    match Request(response, online)
    case Ok(episodes) => episodes
    case Err(_) => []
  }

  /** The filter of `getPopularShows`, with JavaScript truthiness: a rating object with a
      non-zero average of at least 7.0, and an image object with a non-empty medium URL. */
  predicate Qualifies(s: Show)
    ensures Qualifies(s) ==> RatingKey(s) >= MinPopularRating && RatingKey(s) != 0.0
  {
    && s.rating.Some? && s.rating.value.average.Some?
    && s.rating.value.average.value != 0.0
    && s.rating.value.average.value >= MinPopularRating
    && s.image.Some? && s.image.value.medium.Some? && s.image.value.medium.value != ""
  }

  /** The sort key `(show.rating.average || 0)`. */
  function RatingKey(s: Show): (k: real)
    ensures s.rating.None? || s.rating.value.average.None? ==> k == 0.0
    ensures k != 0.0 ==> s.rating.Some? && s.rating.value.average == Some(k)
  {
    if s.rating.Some? && s.rating.value.average.Some? then s.rating.value.average.value else 0.0
  }

  /** `shows.filter(Qualifies)`. */
  function KeepQualifying(s: seq<Show>): (r: seq<Show>)
    ensures forall x :: x in r ==> Qualifies(x)
    ensures forall x :: multiset(r)[x] == if Qualifies(x) then multiset(s)[x] else 0
    ensures IsSubsequence(r, s)
    ensures multiset(r) <= multiset(s)
  {
    if s == [] then []
    else
      assert s == [s[0]] + s[1..];
      var rest := KeepQualifying(s[1..]);
      var r := if Qualifies(s[0]) then [s[0]] + rest else rest;
      SubsequenceSubmultiset(r, s);
      r
  }

  /** Non-increasing by rating, the order the comparator `(a, b) => key(b) - key(a)` asks for. */
  ghost predicate SortedByRating(s: seq<Show>) {
    forall i, j :: 0 <= i < j < |s| ==> RatingKey(s[i]) >= RatingKey(s[j])
  }

  /** A show rated at least as high as every show of a sorted list may lead it. */
  lemma SortedCons(x: Show, s: seq<Show>)
    requires SortedByRating(s)
    requires forall y :: y in s ==> RatingKey(x) >= RatingKey(y)
    ensures SortedByRating([x] + s)
  {
  }

  /** Places `x` after every show rated higher and before the first rated no higher. */
  function Insert(x: Show, s: seq<Show>): (r: seq<Show>)
    requires SortedByRating(s)
    ensures SortedByRating(r)
    ensures multiset(r) == multiset(s) + multiset{x}
  {
    if s == [] || RatingKey(s[0]) <= RatingKey(x) then
      SortedCons(x, s);
      [x] + s
    else
      var rest := Insert(x, s[1..]);
      assert forall y :: y in rest ==> RatingKey(s[0]) >= RatingKey(y) by {
        forall y | y in rest ensures RatingKey(s[0]) >= RatingKey(y) {
          assert y in multiset(rest);
          if y != x {
            assert y in multiset(s[1..]);
            var k :| 0 <= k < |s[1..]| && s[1..][k] == y;
            assert s[k + 1] == y;
          }
        }
      }
      SortedCons(s[0], rest);
      assert s == [s[0]] + s[1..];
      [s[0]] + rest
  }

  /** `Array.prototype.sort` with the rating comparator: a stable sort, non-increasing by rating. */
  function SortByRating(s: seq<Show>): (r: seq<Show>)
    ensures SortedByRating(r)
    ensures multiset(r) == multiset(s)
  {
    if s == [] then []
    else
      assert s == [s[0]] + s[1..];
      Insert(s[0], SortByRating(s[1..]))
  }

  /** The shows of `s` whose rating key is `v`, in their order in `s`. */
  function WithKey(s: seq<Show>, v: real): seq<Show> {
    if s == [] then [] else (if RatingKey(s[0]) == v then [s[0]] else []) + WithKey(s[1..], v)
  }

  lemma WithKeyCons(x: Show, s: seq<Show>, v: real)
    ensures WithKey([x] + s, v) == (if RatingKey(x) == v then [x] else []) + WithKey(s, v)
  {
    assert ([x] + s)[1..] == s;
  }

  lemma {:induction false} InsertWithKey(x: Show, s: seq<Show>, v: real)
    requires SortedByRating(s)
    ensures WithKey(Insert(x, s), v) == (if RatingKey(x) == v then [x] else []) + WithKey(s, v)
  {
    if s == [] || RatingKey(s[0]) <= RatingKey(x) {
      assert Insert(x, s) == [x] + s;
      WithKeyCons(x, s, v);
    } else {
      var rest := Insert(x, s[1..]);
      assert Insert(x, s) == [s[0]] + rest;
      WithKeyCons(s[0], rest, v);
      assert s == [s[0]] + s[1..];
      WithKeyCons(s[0], s[1..], v);
      InsertWithKey(x, s[1..], v);
      if RatingKey(s[0]) == v {
        assert RatingKey(x) != v;
      }
    }
  }

  /** The sort is stable: shows with equal ratings keep their relative order. */
  lemma {:induction false} SortStable(s: seq<Show>, v: real)
    ensures WithKey(SortByRating(s), v) == WithKey(s, v)
  {
    if s != [] {
      SortStable(s[1..], v);
      InsertWithKey(s[0], SortByRating(s[1..]), v);
    }
  }

  /** Cutting a list at `n` splits its multiset in two. */
  lemma MultisetSplit(s: seq<Show>, n: nat)
    requires n <= |s|
    ensures multiset(s) == multiset(s[..n]) + multiset(s[n..])
  {
    assert s == s[..n] + s[n..];
  }

  /** The first `n` shows of a sorted list are sorted, and rated at least as high as the rest. */
  lemma SortedPrefix(s: seq<Show>, n: nat)
    requires SortedByRating(s) && n <= |s|
    ensures SortedByRating(s[..n])
    ensures forall i, j :: 0 <= i < n <= j < |s| ==> RatingKey(s[i]) >= RatingKey(s[j])
  {
  }

  /** The pipeline `filter(Qualifies).sort(byRating).slice(0, 12)` on a fetched listing. */
  function TopRated(shows: seq<Show>): (r: seq<Show>)
    ensures |r| <= MaxPopular
    ensures forall x :: x in r ==> Qualifies(x)
    ensures SortedByRating(r)
    ensures multiset(r) <= multiset(shows)
  {
    var qualifying := KeepQualifying(shows);
    var ranked := SortByRating(qualifying);
    var n := if |ranked| < MaxPopular then |ranked| else MaxPopular;
    var r := ranked[..n];
    SortedPrefix(ranked, n);
    MultisetSplit(ranked, n);
    assert multiset(r) <= multiset(qualifying);
    forall x | x in r ensures Qualifies(x) {
      assert x in multiset(qualifying);
      assert x in qualifying;
    }
    r
  }

  /** `getPopularShows()`: the qualifying shows of the listing, best rated first, at most
      twelve; any failure yields the empty list. */
  function GetPopularShows(listing: Transport<seq<Show>>, online: bool): (r: seq<Show>)
    ensures |r| <= MaxPopular
    ensures forall x :: x in r ==> Qualifies(x)
    ensures SortedByRating(r)
    ensures listing.Failed? ==> r == []
    ensures listing.Delivered? ==> multiset(r) <= multiset(listing.body)
  {
    match Request(listing, online)
    case Err(_) => []
    case Ok(shows) => TopRated(shows)
  }

  /** Any element past the first `n` of a sorted list is rated no higher than the first `n`. */
  lemma PrefixIsBest(ranked: seq<Show>, n: nat)
    requires SortedByRating(ranked) && n <= |ranked|
    ensures forall x :: x in multiset(ranked) - multiset(ranked[..n]) ==>
      forall y :: y in ranked[..n] ==> RatingKey(y) >= RatingKey(x)
  {
    MultisetSplit(ranked, n);
    SortedPrefix(ranked, n);
    forall x, y | x in multiset(ranked) - multiset(ranked[..n]) && y in ranked[..n]
      ensures RatingKey(y) >= RatingKey(x)
    {
      assert x in ranked[n..];
      var j :| 0 <= j < |ranked| - n && ranked[n..][j] == x;
      var i :| 0 <= i < n && ranked[..n][i] == y;
      assert ranked[i] == y && ranked[n + j] == x;
    }
  }

  /** The popular shows are the best rated of the qualifying ones: as many as there are,
      up to twelve, and every qualifying show left out is rated no higher than any kept. */
  lemma PopularAreTopRated(shows: seq<Show>, online: bool)
    ensures var r, q := GetPopularShows(Delivered(shows), online), KeepQualifying(shows);
      && |r| == (if |q| < MaxPopular then |q| else MaxPopular)
      && forall x :: x in multiset(q) - multiset(r) ==>
           forall y :: y in r ==> RatingKey(y) >= RatingKey(x)
  {
    var q := KeepQualifying(shows);
    var ranked := SortByRating(q);
    var n := if |ranked| < MaxPopular then |ranked| else MaxPopular;
    assert GetPopularShows(Delivered(shows), online) == ranked[..n];
    assert |ranked| == |q| by {
      assert |multiset(ranked)| == |multiset(q)|;
    }
    PrefixIsBest(ranked, n);
  }
}
