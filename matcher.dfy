/**
 * The match decision of `RenameEngine.get_match` (main.py:89-122). The title guesser, the remote
 * metadata service and the two fuzzy scorers are inputs: the guesser and the scorers as functions,
 * the service as three reply functions, each of which may fail.
 */
module Matcher {
  import opened Wrappers
  import opened Text
  import SearchCleaner

  /** A reply of the remote service: its decoded payload, or the message of the exception raised. */
  datatype Reply<+T> = Ok(value: T) | Failed(message: string)

  /** An entry of the show search results (`id`, `name`). */
  datatype Show = Show(id: int, name: string)

  /** An entry of a season's episode list (`episode_number`, `name`). */
  datatype Episode = Episode(number: int, name: string)

  /**
   * The three lookups: show search by query, the `number_of_seasons` of a show (None when the
   * reply has no such key), and the `episodes` of a season (an absent key reads as no episodes).
   */
  datatype Service = Service(
    searchShows: string -> Reply<seq<Show>>,
    seasonCount: int -> Reply<Option<int>>,
    seasonEpisodes: (int, int) -> Reply<seq<Episode>>)

  /** `fuzz.token_sort_ratio` and `fuzz.partial_ratio`, left uninterpreted. */
  datatype Scorer = Scorer(tokenSortRatio: (string, string) -> real, partialRatio: (string, string) -> real)

  /** What `guessit` found in the file name; each key may be missing. */
  datatype Guess = Guess(title: Option<string>, season: Option<int>, episode: Option<int>)

  /** The engine's collaborators and its API key. */
  datatype Engine = Engine(apiKey: string, guessit: string -> Guess, service: Service, scorer: Scorer)

  /** The 4-tuple `get_match` returns; `title` holds the episode title or a status message. */
  datatype MatchResult = MatchResult(show: string, season: int, episode: int, title: string)

  /** A remote lookup, recorded so that properties can say which lookups happen. */
  datatype Request = SearchRequest(query: string) | DetailRequest(showId: int) | SeasonRequest(showId: int, season: int)

  const NoKeyStatus := "Set API Key"
  const NotFoundStatus := "Show Not Found"
  const FallbackStatus := "Using Guess (No Title Match)"
  const ErrorPrefix := "Error: "
  const ShowsConsidered := 3
  const TitleThreshold: real := 85.0
  const PartialThreshold: real := 95.0
  const PartialMinLength := 3

  function RawTitle(g: Guess): string { g.title.GetOr("Unknown") }
  function TargetSeason(g: Guess): int { g.season.GetOr(1) }
  function TargetEpisode(g: Guess): int { g.episode.GetOr(1) }

  // ---------------------------------------------------------------------------------------------
  // Season scan order (main.py:110)

  /** `[si for si in range(lo, hi + 1) if si != skip]` */
  function SeasonsExcept(lo: int, hi: int, skip: int): seq<int>
    decreases hi - lo
  {
    if lo > hi then []
    else if lo == skip then SeasonsExcept(lo + 1, hi, skip)
    else [lo] + SeasonsExcept(lo + 1, hi, skip)
  }

  /** The range lo..hi without `skip`: ascending, in bounds, complete, and of the expected length. */
  lemma {:induction false} SeasonsExceptShape(lo: int, hi: int, skip: int)
    ensures var r := SeasonsExcept(lo, hi, skip);
      && (forall i :: 0 <= i < |r| ==> lo <= r[i] <= hi && r[i] != skip)
      && (forall i, j :: 0 <= i < j < |r| ==> r[i] < r[j])
      && (forall x :: lo <= x <= hi && x != skip ==> x in r)
      && |r| == if lo <= skip <= hi then hi - lo else if lo <= hi then hi - lo + 1 else 0
    decreases hi - lo
  {
    if lo <= hi {
      SeasonsExceptShape(lo + 1, hi, skip);
    }
  }

  /** `[s_target] + [si for si in range(1, number_of_seasons + 1) if si != s_target]` */
  function SeasonOrder(target: int, count: int): seq<int> {
    [target] + SeasonsExcept(1, count, target)
  }

  /**
   * The guessed season comes first, then every season 1..count in ascending order without it; no
   * season is visited twice, and the guess is visited even when it lies outside 1..count.
   */
  lemma SeasonOrderShape(target: int, count: int)
    ensures var r := SeasonOrder(target, count);
      && |r| >= 1 && r[0] == target
      && (forall i, j :: 1 <= i < j < |r| ==> r[i] < r[j])
      && (forall i, j :: 0 <= i < j < |r| ==> r[i] != r[j])
      && (forall x :: x in r <==> x == target || 1 <= x <= count)
      && |r| == if 1 <= target <= count then count else if count >= 1 then count + 1 else 1
  {
    var r := SeasonOrder(target, count);
    var rest := SeasonsExcept(1, count, target);
    SeasonsExceptShape(1, count, target);
    assert forall i :: 1 <= i < |r| ==> r[i] == rest[i - 1];
    forall x | x in r ensures x == target || 1 <= x <= count {
      var i :| 0 <= i < |r| && r[i] == x;
      if i > 0 { assert rest[i - 1] == x; }
    }
  }

  // ---------------------------------------------------------------------------------------------
  // Acceptance of an episode (main.py:116-118)

  /** `title_score > 85 or (partial_score > 95 and len(target_fragment) > 3)` */
  predicate Accepts(titleScore: real, partialScore: real, fragmentLength: nat) {
    titleScore > TitleThreshold || (partialScore > PartialThreshold && fragmentLength > PartialMinLength)
  }

  /** Both scores compare the lower-cased fragment with the lower-cased episode name. */
  predicate Accepted(sc: Scorer, fragment: string, ep: Episode) {
    Accepts(sc.tokenSortRatio(Lower(fragment), Lower(ep.name)),
            sc.partialRatio(Lower(fragment), Lower(ep.name)), |fragment|)
  }

  /** A fragment of at most three characters can only be accepted by the token-sort score. */
  lemma ShortFragmentNeedsTitleScore(sc: Scorer, fragment: string, ep: Episode)
    requires |fragment| <= PartialMinLength
    ensures Accepted(sc, fragment, ep) <==> sc.tokenSortRatio(Lower(fragment), Lower(ep.name)) > TitleThreshold
  {
  }

  /** The first accepted episode of a season, in list order. */
  function FirstAccepted(sc: Scorer, fragment: string, eps: seq<Episode>): (r: Option<Episode>)
    ensures r.Some? ==> r.value in eps && Accepted(sc, fragment, r.value)
  {
    if |eps| == 0 then None
    else if Accepted(sc, fragment, eps[0]) then Some(eps[0])
    else FirstAccepted(sc, fragment, eps[1..])
  }

  /** FirstAccepted finds nothing exactly when no episode is accepted, else the earliest accepted one. */
  lemma {:induction false} FirstAcceptedIsFirst(sc: Scorer, fragment: string, eps: seq<Episode>)
    ensures FirstAccepted(sc, fragment, eps).None? <==> forall k :: 0 <= k < |eps| ==> !Accepted(sc, fragment, eps[k])
    ensures forall k :: 0 <= k < |eps| && Accepted(sc, fragment, eps[k]) &&
                        (forall k' :: 0 <= k' < k ==> !Accepted(sc, fragment, eps[k'])) ==>
                        FirstAccepted(sc, fragment, eps) == Some(eps[k])
  {
    if |eps| > 0 {
      FirstAcceptedIsFirst(sc, fragment, eps[1..]);
      assert forall k :: 1 <= k < |eps| ==> eps[k] == eps[1..][k - 1];
      if !Accepted(sc, fragment, eps[0]) {
        forall k | 0 <= k < |eps| && Accepted(sc, fragment, eps[k]) &&
                   (forall k' :: 0 <= k' < k ==> !Accepted(sc, fragment, eps[k']))
          ensures FirstAccepted(sc, fragment, eps) == Some(eps[k])
        {
          assert forall k' :: 0 <= k' < k - 1 ==> eps[1..][k'] == eps[k' + 1];
        }
      }
    }
  }

  // ---------------------------------------------------------------------------------------------
  // The search, as a specification

  /** How a scan over shows or seasons ended. */
  datatype Scan = Hit(show: string, season: int, episode: Episode) | Miss | Fault(message: string)

  /** A scan's outcome together with the lookups it made, in order. */
  datatype Trace = Trace(scan: Scan, requests: seq<Request>)

  /** The seasons loop of main.py:112-119 for one show: first accepted episode, season by season. */
  function ScanSeasons(svc: Service, sc: Scorer, fragment: string, show: Show, seasons: seq<int>): (t: Trace)
    ensures t.scan.Hit? ==> t.scan.show == show.name
  {
    if |seasons| == 0 then Trace(Miss, [])
    else
      var req := SeasonRequest(show.id, seasons[0]);
      match svc.seasonEpisodes(show.id, seasons[0])
      case Failed(m) => Trace(Fault(m), [req])
      case Ok(eps) =>
        match FirstAccepted(sc, fragment, eps)
        case Some(ep) => Trace(Hit(show.name, seasons[0], ep), [req])
        case None =>
          var rest := ScanSeasons(svc, sc, fragment, show, seasons[1..]);
          Trace(rest.scan, [req] + rest.requests)
  }

  /** The shows loop of main.py:104-119: each show's detail, then its seasons in scan order. */
  function ScanShows(svc: Service, sc: Scorer, fragment: string, target: int, shows: seq<Show>): Trace {
    if |shows| == 0 then Trace(Miss, [])
    else
      var req := DetailRequest(shows[0].id);
      match svc.seasonCount(shows[0].id)
      case Failed(m) => Trace(Fault(m), [req])
      case Ok(count) =>
        var inner := ScanSeasons(svc, sc, fragment, shows[0], SeasonOrder(target, count.GetOr(1)));
        if inner.scan.Miss? then
          var rest := ScanShows(svc, sc, fragment, target, shows[1..]);
          Trace(rest.scan, [req] + inner.requests + rest.requests)
        else
          Trace(inner.scan, [req] + inner.requests)
  }

  /** A trace preceded by earlier lookups. */
  function After(earlier: seq<Request>, t: Trace): Trace {
    Trace(t.scan, earlier + t.requests)
  }

  lemma AfterAfter(a: seq<Request>, b: seq<Request>, t: Trace)
    ensures After(a, After(b, t)) == After(a + b, t)
  {
    assert a + (b + t.requests) == (a + b) + t.requests;
  }

  /** One step of the shows loop, with the seasons scan of the first show named once. */
  lemma ScanShowsStep(svc: Service, sc: Scorer, fragment: string, target: int, shows: seq<Show>)
    requires |shows| > 0
    ensures var t := ScanShows(svc, sc, fragment, target, shows);
      var req := DetailRequest(shows[0].id);
      var detail := svc.seasonCount(shows[0].id);
      if detail.Failed? then t == Trace(Fault(detail.message), [req])
      else
        var inner := ScanSeasons(svc, sc, fragment, shows[0], SeasonOrder(target, detail.value.GetOr(1)));
        t == if inner.scan.Miss? then After([req] + inner.requests, ScanShows(svc, sc, fragment, target, shows[1..]))
             else After([req], inner)
  {
    var req := DetailRequest(shows[0].id);
    var detail := svc.seasonCount(shows[0].id);
    if detail.Ok? {
      var inner := ScanSeasons(svc, sc, fragment, shows[0], SeasonOrder(target, detail.value.GetOr(1)));
      if inner.scan.Miss? {
        var rest := ScanShows(svc, sc, fragment, target, shows[1..]);
        assert [req] + inner.requests + rest.requests == ([req] + inner.requests) + rest.requests;
      }
    }
  }

  /** `res['results'][:3]` */
  function Top(results: seq<Show>): (r: seq<Show>)
    ensures |r| <= ShowsConsidered && |r| <= |results| && r == results[..|r|]
    ensures |results| >= ShowsConsidered ==> |r| == ShowsConsidered
    ensures |results| < ShowsConsidered ==> r == results
  {
    if |results| <= ShowsConsidered then results else results[..ShowsConsidered]
  }

  /** The result and the lookups of one call of `get_match`. */
  datatype Resolution = Resolution(result: MatchResult, requests: seq<Request>)

  /** The 4-tuple for a finished search: the hit, the fallback to the guess, or the error. */
  function Decide(scan: Scan, raw: string, s: int, ep: int, firstName: string): MatchResult {
    match scan
    case Hit(name, sn, found) => MatchResult(name, sn, found.number, found.name)
    case Miss => MatchResult(firstName, s, ep, FallbackStatus)
    case Fault(m) => MatchResult(raw, s, ep, ErrorPrefix + m)
  }

  /** What `get_match(filename)` returns, and the lookups it makes on the way. */
  function Resolve(e: Engine, filename: string): Resolution {
    var g := e.guessit(filename);
    var raw, s, ep := RawTitle(g), TargetSeason(g), TargetEpisode(g);
    if e.apiKey == "" then Resolution(MatchResult(raw, s, ep, NoKeyStatus), [])
    else
      match e.service.searchShows(raw)
      case Failed(m) => Resolution(MatchResult(raw, s, ep, ErrorPrefix + m), [SearchRequest(raw)])
      case Ok(results) =>
        if |results| == 0 then Resolution(MatchResult(raw, s, ep, NotFoundStatus), [SearchRequest(raw)])
        else
          var fragment := SearchCleaner.CleanForSearch(filename, raw);
          var t := ScanShows(e.service, e.scorer, fragment, s, Top(results));
          Resolution(Decide(t.scan, raw, s, ep, results[0].name), [SearchRequest(raw)] + t.requests)
  }

  // ---------------------------------------------------------------------------------------------
  // Properties of the search

  /** What one season contributes: a failed lookup, its first accepted episode, or nothing. */
  function SeasonOutcome(svc: Service, sc: Scorer, fragment: string, show: Show, sn: int): Scan {
    match svc.seasonEpisodes(show.id, sn)
    case Failed(m) => Fault(m)
    case Ok(eps) =>
      match FirstAccepted(sc, fragment, eps)
      case Some(ep) => Hit(show.name, sn, ep)
      case None => Miss
  }

  /** What one show contributes: a failed detail lookup, or the scan of its seasons in scan order. */
  function ShowOutcome(svc: Service, sc: Scorer, fragment: string, target: int, show: Show): Scan {
    match svc.seasonCount(show.id)
    case Failed(m) => Fault(m)
    case Ok(count) => ScanSeasons(svc, sc, fragment, show, SeasonOrder(target, count.GetOr(1))).scan
  }

  /** The season lookups for `seasons` of one show, in order. */
  function SeasonLookups(id: int, seasons: seq<int>): (r: seq<Request>)
    ensures |r| == |seasons|
    ensures forall k :: 0 <= k < |seasons| ==> r[k] == SeasonRequest(id, seasons[k])
  {
    if |seasons| == 0 then [] else [SeasonRequest(id, seasons[0])] + SeasonLookups(id, seasons[1..])
  }

  /** The seasons scan misses exactly when every season misses, after looking up every season. */
  lemma {:induction false} ScanSeasonsAllMissed(svc: Service, sc: Scorer, fragment: string, show: Show, seasons: seq<int>)
    ensures var t := ScanSeasons(svc, sc, fragment, show, seasons);
      (t.scan.Miss? <==> forall k :: 0 <= k < |seasons| ==> SeasonOutcome(svc, sc, fragment, show, seasons[k]).Miss?)
      && (t.scan.Miss? ==> t.requests == SeasonLookups(show.id, seasons))
  {
    if |seasons| > 0 {
      ScanSeasonsAllMissed(svc, sc, fragment, show, seasons[1..]);
      assert forall k :: 1 <= k < |seasons| ==> seasons[k] == seasons[1..][k - 1];
    }
  }

  /**
   * First match wins among seasons: the first season that does not miss decides the scan, and
   * the seasons after it are never looked up.
   */
  lemma {:induction false} ScanSeasonsFirstDecides(svc: Service, sc: Scorer, fragment: string, show: Show,
                                                  seasons: seq<int>, k: int)
    requires 0 <= k < |seasons|
    requires forall k' :: 0 <= k' < k ==> SeasonOutcome(svc, sc, fragment, show, seasons[k']).Miss?
    requires !SeasonOutcome(svc, sc, fragment, show, seasons[k]).Miss?
    ensures var t := ScanSeasons(svc, sc, fragment, show, seasons);
      t.scan == SeasonOutcome(svc, sc, fragment, show, seasons[k])
      && t.requests == SeasonLookups(show.id, seasons[..k + 1])
  {
    if k > 0 {
      assert forall k' :: 0 <= k' < k - 1 ==> seasons[1..][k'] == seasons[k' + 1];
      ScanSeasonsFirstDecides(svc, sc, fragment, show, seasons[1..], k - 1);
      assert seasons[1..][..k] == seasons[..k + 1][1..];
    }
  }

  /** The lookups one show costs: its detail, then its seasons in scan order until the scan ends. */
  function ShowLookups(svc: Service, sc: Scorer, fragment: string, target: int, show: Show): (r: seq<Request>)
    ensures |r| >= 1 && r[0] == DetailRequest(show.id)
  {
    [DetailRequest(show.id)] +
    match svc.seasonCount(show.id)
    case Failed(_) => []
    case Ok(count) => ScanSeasons(svc, sc, fragment, show, SeasonOrder(target, count.GetOr(1))).requests
  }

  /** The lookups of `shows`, show after show. */
  function ShowsLookups(svc: Service, sc: Scorer, fragment: string, target: int, shows: seq<Show>): seq<Request> {
    if |shows| == 0 then []
    else ShowLookups(svc, sc, fragment, target, shows[0]) + ShowsLookups(svc, sc, fragment, target, shows[1..])
  }

  /** The shows scan misses exactly when every show misses, after looking up every show. */
  lemma {:induction false} ScanShowsAllMissed(svc: Service, sc: Scorer, fragment: string, target: int, shows: seq<Show>)
    ensures ScanShows(svc, sc, fragment, target, shows).scan.Miss? <==>
            forall k :: 0 <= k < |shows| ==> ShowOutcome(svc, sc, fragment, target, shows[k]).Miss?
    ensures ScanShows(svc, sc, fragment, target, shows).scan.Miss? ==>
            ScanShows(svc, sc, fragment, target, shows).requests == ShowsLookups(svc, sc, fragment, target, shows)
  {
    if |shows| > 0 {
      ScanShowsAllMissed(svc, sc, fragment, target, shows[1..]);
      assert forall k :: 1 <= k < |shows| ==> shows[k] == shows[1..][k - 1];
      ScanShowsStepLookups(svc, sc, fragment, target, shows);
    }
  }

  /** The lookups of the first show come first; on its miss, those of the other shows follow. */
  lemma ScanShowsStepLookups(svc: Service, sc: Scorer, fragment: string, target: int, shows: seq<Show>)
    requires |shows| > 0
    ensures var t := ScanShows(svc, sc, fragment, target, shows);
      var first := ShowLookups(svc, sc, fragment, target, shows[0]);
      if ShowOutcome(svc, sc, fragment, target, shows[0]).Miss? then
        t.scan == ScanShows(svc, sc, fragment, target, shows[1..]).scan &&
        t.requests == first + ScanShows(svc, sc, fragment, target, shows[1..]).requests
      else
        t.scan == ShowOutcome(svc, sc, fragment, target, shows[0]) && t.requests == first
  {
    ScanShowsStep(svc, sc, fragment, target, shows);
  }

  /**
   * First match wins among shows: the first show that does not miss decides the scan, and the
   * shows after it get no detail or season lookup.
   */
  lemma {:induction false} ScanShowsFirstDecides(svc: Service, sc: Scorer, fragment: string, target: int,
                                                shows: seq<Show>, k: int)
    requires 0 <= k < |shows|
    requires forall k' :: 0 <= k' < k ==> ShowOutcome(svc, sc, fragment, target, shows[k']).Miss?
    requires !ShowOutcome(svc, sc, fragment, target, shows[k]).Miss?
    ensures ScanShows(svc, sc, fragment, target, shows).scan == ShowOutcome(svc, sc, fragment, target, shows[k])
    ensures ScanShows(svc, sc, fragment, target, shows).requests == ShowsLookups(svc, sc, fragment, target, shows[..k + 1])
  {
    ScanShowsStepLookups(svc, sc, fragment, target, shows);
    assert shows[..k + 1][0] == shows[0];
    if k > 0 {
      assert forall k' :: 0 <= k' < k - 1 ==> shows[1..][k'] == shows[k' + 1];
      ScanShowsFirstDecides(svc, sc, fragment, target, shows[1..], k - 1);
      assert shows[..k + 1][1..] == shows[1..][..k];
    } else {
      assert shows[..1][1..] == [];
    }
  }

  /** A season lookup of a show asks for that show. */
  lemma {:induction false} ScanSeasonsLookups(svc: Service, sc: Scorer, fragment: string, show: Show, seasons: seq<int>)
    ensures forall r :: r in ScanSeasons(svc, sc, fragment, show, seasons).requests ==> r.SeasonRequest? && r.showId == show.id
  {
    if |seasons| > 0 {
      ScanSeasonsLookups(svc, sc, fragment, show, seasons[1..]);
    }
  }

  /** The shows scan only looks up the shows it is given: no search, and only their ids. */
  lemma {:induction false} ScanShowsLookups(svc: Service, sc: Scorer, fragment: string, target: int, shows: seq<Show>)
    ensures forall r :: r in ScanShows(svc, sc, fragment, target, shows).requests ==>
              !r.SearchRequest? && exists k :: 0 <= k < |shows| && shows[k].id == r.showId
  {
    if |shows| > 0 {
      ScanShowsLookups(svc, sc, fragment, target, shows[1..]);
      assert forall k :: 1 <= k < |shows| ==> shows[k] == shows[1..][k - 1];
      var detail := svc.seasonCount(shows[0].id);
      if detail.Ok? {
        ScanSeasonsLookups(svc, sc, fragment, shows[0], SeasonOrder(target, detail.value.GetOr(1)));
      }
    }
  }

  /** Without an API key the guess comes back with "Set API Key", and nothing is looked up; with one, the search runs. */
  lemma NoKeyNoLookups(e: Engine, filename: string)
    ensures var g := e.guessit(filename);
      var res := Resolve(e, filename);
      (res.requests == [] <==> e.apiKey == "")
      && (e.apiKey == "" ==> res.result == MatchResult(RawTitle(g), TargetSeason(g), TargetEpisode(g), NoKeyStatus))
      && (e.apiKey != "" ==> res.requests[0] == SearchRequest(RawTitle(g)))
  {
  }

  /** A failed search gives "Error: ..." and an empty one "Show Not Found", both with the guess and no other lookup. */
  lemma SearchExits(e: Engine, filename: string)
    requires e.apiKey != ""
    ensures var g := e.guessit(filename);
      var raw, s, ep := RawTitle(g), TargetSeason(g), TargetEpisode(g);
      var res := Resolve(e, filename);
      var search := e.service.searchShows(raw);
      (search.Failed? ==> res == Resolution(MatchResult(raw, s, ep, ErrorPrefix + search.message), [SearchRequest(raw)]))
      && (search == Ok([]) ==> res == Resolution(MatchResult(raw, s, ep, NotFoundStatus), [SearchRequest(raw)]))
  {
  }

  /** Only the first three search results are ever looked up, and the search runs once, first. */
  lemma OnlyTopShowsFetched(e: Engine, filename: string)
    requires e.apiKey != ""
    ensures var raw := RawTitle(e.guessit(filename));
      var search := e.service.searchShows(raw);
      var res := Resolve(e, filename);
      && |res.requests| >= 1 && res.requests[0] == SearchRequest(raw)
      && (forall r :: r in res.requests[1..] ==>
            !r.SearchRequest? && search.Ok? &&
            exists k :: 0 <= k < ShowsConsidered && k < |search.value| && search.value[k].id == r.showId)
  {
    var g := e.guessit(filename);
    var raw := RawTitle(g);
    var search := e.service.searchShows(raw);
    if search.Ok? && |search.value| > 0 {
      var fragment := SearchCleaner.CleanForSearch(filename, raw);
      var top := Top(search.value);
      var t := ScanShows(e.service, e.scorer, fragment, TargetSeason(g), top);
      ScanShowsLookups(e.service, e.scorer, fragment, TargetSeason(g), top);
      assert Resolve(e, filename).requests[1..] == t.requests;
    }
  }

  /**
   * The result once the search returned shows: the first of the top three shows that does not miss
   * decides it (its name, season, episode number and title on a hit; the guess and the message on
   * a failed lookup); when all of them miss, the first result's name with the guess.
   */
  lemma SearchOutcome(e: Engine, filename: string, k: int)
    requires e.apiKey != ""
    requires e.service.searchShows(RawTitle(e.guessit(filename))).Ok?
    ensures var g := e.guessit(filename);
      var raw, s, ep := RawTitle(g), TargetSeason(g), TargetEpisode(g);
      var results := e.service.searchShows(raw).value;
      var top := Top(results);
      var fragment := SearchCleaner.CleanForSearch(filename, raw);
      var r := Resolve(e, filename).result;
      && (|results| > 0 && (forall j :: 0 <= j < |top| ==> ShowOutcome(e.service, e.scorer, fragment, s, top[j]).Miss?) ==>
            r == MatchResult(results[0].name, s, ep, FallbackStatus))
      && (0 <= k < |top| && (forall j :: 0 <= j < k ==> ShowOutcome(e.service, e.scorer, fragment, s, top[j]).Miss?) ==>
            var o := ShowOutcome(e.service, e.scorer, fragment, s, top[k]);
            && (o.Hit? ==> r == MatchResult(top[k].name, o.season, o.episode.number, o.episode.name))
            && (o.Fault? ==> r == MatchResult(raw, s, ep, ErrorPrefix + o.message)))
  {
    var g := e.guessit(filename);
    var raw, s := RawTitle(g), TargetSeason(g);
    var results := e.service.searchShows(raw).value;
    var top := Top(results);
    var fragment := SearchCleaner.CleanForSearch(filename, raw);
    if |results| > 0 {
      ScanShowsAllMissed(e.service, e.scorer, fragment, s, top);
      if 0 <= k < |top| && (forall j :: 0 <= j < k ==> ShowOutcome(e.service, e.scorer, fragment, s, top[j]).Miss?) {
        var o := ShowOutcome(e.service, e.scorer, fragment, s, top[k]);
        if !o.Miss? {
          ScanShowsFirstDecides(e.service, e.scorer, fragment, s, top, k);
          if o.Hit? {
            var detail := e.service.seasonCount(top[k].id);
            assert o == ScanSeasons(e.service, e.scorer, fragment, top[k], SeasonOrder(s, detail.value.GetOr(1))).scan;
          }
        }
      }
    }
  }

  /** The scan of `GuessedSeasonFirst`: one detail lookup, one season lookup, its first episode. */
  lemma GuessedSeasonScan(svc: Service, sc: Scorer, fragment: string, target: int, shows: seq<Show>)
    requires |shows| > 0 && svc.seasonCount(shows[0].id).Ok?
    requires svc.seasonEpisodes(shows[0].id, target).Ok? && |svc.seasonEpisodes(shows[0].id, target).value| > 0
    requires forall a, b :: sc.tokenSortRatio(a, b) > TitleThreshold
    ensures var first := svc.seasonEpisodes(shows[0].id, target).value[0];
      ScanShows(svc, sc, fragment, target, shows) ==
      Trace(Hit(shows[0].name, target, first), [DetailRequest(shows[0].id), SeasonRequest(shows[0].id, target)])
  {
    var show := shows[0];
    var eps := svc.seasonEpisodes(show.id, target).value;
    assert Accepted(sc, fragment, eps[0]);
    var seasons := SeasonOrder(target, svc.seasonCount(show.id).value.GetOr(1));
    var inner := ScanSeasons(svc, sc, fragment, show, seasons);
    assert inner == Trace(Hit(show.name, target, eps[0]), [SeasonRequest(show.id, target)]);
    ScanShowsStep(svc, sc, fragment, target, shows);
  }

  /**
   * With a token-sort score above the threshold for every pair (as for two identical titles), the
   * first search result's guessed season is looked up first and its first episode is the match.
   */
  lemma GuessedSeasonFirst(e: Engine, filename: string)
    requires e.apiKey != ""
    requires var raw := RawTitle(e.guessit(filename));
      e.service.searchShows(raw).Ok? && |e.service.searchShows(raw).value| > 0
    requires var g := e.guessit(filename);
      var first := e.service.searchShows(RawTitle(g)).value[0];
      && e.service.seasonCount(first.id).Ok?
      && e.service.seasonEpisodes(first.id, TargetSeason(g)).Ok?
      && |e.service.seasonEpisodes(first.id, TargetSeason(g)).value| > 0
    requires forall a, b :: e.scorer.tokenSortRatio(a, b) > TitleThreshold
    ensures var g := e.guessit(filename);
      var raw, s := RawTitle(g), TargetSeason(g);
      var first := e.service.searchShows(raw).value[0];
      var ep := e.service.seasonEpisodes(first.id, s).value[0];
      Resolve(e, filename) ==
      Resolution(MatchResult(first.name, s, ep.number, ep.name), [SearchRequest(raw), DetailRequest(first.id), SeasonRequest(first.id, s)])
  {
    var g := e.guessit(filename);
    var raw, s := RawTitle(g), TargetSeason(g);
    var top := Top(e.service.searchShows(raw).value);
    var fragment := SearchCleaner.CleanForSearch(filename, raw);
    GuessedSeasonScan(e.service, e.scorer, fragment, s, top);
  }

  // ---------------------------------------------------------------------------------------------
  // The search, as the source runs it

  /** The episodes loop of main.py:115-119: the first episode that passes the acceptance test. */
  method FindEpisode(sc: Scorer, fragment: string, episodes: seq<Episode>) returns (found: Option<Episode>)
    ensures found == FirstAccepted(sc, fragment, episodes)
  {
    var k := 0;
    while k < |episodes|
      invariant 0 <= k <= |episodes|
      invariant FirstAccepted(sc, fragment, episodes) == FirstAccepted(sc, fragment, episodes[k..])
    {
      var ep := episodes[k];
      assert episodes[k..][0] == ep && episodes[k..][1..] == episodes[k + 1..];
      var titleScore := sc.tokenSortRatio(Lower(fragment), Lower(ep.name));
      var partialScore := sc.partialRatio(Lower(fragment), Lower(ep.name));
      if titleScore > TitleThreshold || (partialScore > PartialThreshold && |fragment| > PartialMinLength) {
        return Some(ep);
      }
      k := k + 1;
    }
    return None;
  }

  /** The seasons loop of main.py:112-119 for one show, with the lookups it makes. */
  method ScanShowSeasons(svc: Service, sc: Scorer, fragment: string, show: Show, seasons: seq<int>)
    returns (scan: Scan, ghost requests: seq<Request>)
    ensures scan == ScanSeasons(svc, sc, fragment, show, seasons).scan
    ensures requests == ScanSeasons(svc, sc, fragment, show, seasons).requests
  {
    requests := [];
    var j := 0;
    while j < |seasons|
      invariant 0 <= j <= |seasons|
      invariant ScanSeasons(svc, sc, fragment, show, seasons).scan == ScanSeasons(svc, sc, fragment, show, seasons[j..]).scan
      invariant ScanSeasons(svc, sc, fragment, show, seasons).requests ==
                requests + ScanSeasons(svc, sc, fragment, show, seasons[j..]).requests
    {
      var sn := seasons[j];
      assert seasons[j..][0] == sn && seasons[j..][1..] == seasons[j + 1..];
      ghost var before := requests;
      ghost var rest := ScanSeasons(svc, sc, fragment, show, seasons[j + 1..]);
      requests := requests + [SeasonRequest(show.id, sn)];
      var sRes := svc.seasonEpisodes(show.id, sn);
      if sRes.Failed? {
        return Fault(sRes.message), requests;
      }
      var found := FindEpisode(sc, fragment, sRes.value);
      if found.Some? {
        return Hit(show.name, sn, found.value), requests;
      }
      assert ScanSeasons(svc, sc, fragment, show, seasons[j..]).requests == [SeasonRequest(show.id, sn)] + rest.requests;
      assert before + ([SeasonRequest(show.id, sn)] + rest.requests) == requests + rest.requests;
      j := j + 1;
    }
    assert seasons[j..] == [];
    return Miss, requests;
  }

  /** The shows loop of main.py:104-119 over the top results, with the lookups it makes. */
  method ScanTopShows(svc: Service, sc: Scorer, fragment: string, target: int, shows: seq<Show>)
    returns (scan: Scan, ghost requests: seq<Request>)
    ensures scan == ScanShows(svc, sc, fragment, target, shows).scan
    ensures requests == ScanShows(svc, sc, fragment, target, shows).requests
  {
    requests := [];
    var i := 0;
    while i < |shows|
      invariant 0 <= i <= |shows|
      invariant ScanShows(svc, sc, fragment, target, shows) == After(requests, ScanShows(svc, sc, fragment, target, shows[i..]))
    {
      var show := shows[i];
      assert shows[i..][0] == show && shows[i..][1..] == shows[i + 1..];
      ScanShowsStep(svc, sc, fragment, target, shows[i..]);
      var detail := svc.seasonCount(show.id);
      if detail.Failed? {
        return Fault(detail.message), requests + [DetailRequest(show.id)];
      }
      var seasons := SeasonOrder(target, detail.value.GetOr(1));
      var inner, seasonRequests := ScanShowSeasons(svc, sc, fragment, show, seasons);
      AfterAfter(requests, [DetailRequest(show.id)] + seasonRequests, ScanShows(svc, sc, fragment, target, shows[i + 1..]));
      AfterAfter(requests, [DetailRequest(show.id)], Trace(inner, seasonRequests));
      requests := requests + ([DetailRequest(show.id)] + seasonRequests);
      if !inner.Miss? {
        return inner, requests;
      }
      i := i + 1;
    }
    assert shows[i..] == [];
    return Miss, requests;
  }

  /** `get_match`: the guess, the early exits, the search over the top three results. */
  method GetMatch(e: Engine, filename: string) returns (r: MatchResult, ghost requests: seq<Request>)
    ensures r == Resolve(e, filename).result
    ensures requests == Resolve(e, filename).requests
  {
    var info := e.guessit(filename);
    var rawShow := info.title.GetOr("Unknown");
    var sTarget := info.season.GetOr(1);
    var eTarget := info.episode.GetOr(1);
    if e.apiKey == "" {
      return MatchResult(rawShow, sTarget, eTarget, NoKeyStatus), [];
    }
    var res := e.service.searchShows(rawShow);
    if res.Failed? {
      return MatchResult(rawShow, sTarget, eTarget, ErrorPrefix + res.message), [SearchRequest(rawShow)];
    }
    var results := res.value;
    if |results| == 0 {
      return MatchResult(rawShow, sTarget, eTarget, NotFoundStatus), [SearchRequest(rawShow)];
    }
    var fragment := SearchCleaner.CleanForSearch(filename, rawShow);
    var scan, scanRequests := ScanTopShows(e.service, e.scorer, fragment, sTarget, Top(results));
    r := Decide(scan, rawShow, sTarget, eTarget, results[0].name);
    requests := [SearchRequest(rawShow)] + scanRequests;
  }
}
