/** The request handler emitted by packages/sveltekit/src/WorkerShim.ts, with its cache. */
module WorkerShims {
  import opened Options
  import opened Text

  datatype Url = Url(origin: string, pathname: string, search: string)

  datatype Request = Request(verb: string, url: Url, cacheControl: string, acceptsHtml: bool)

  /** A response's status, headers (empty where absent) and body. */
  datatype Reply = Reply(status: nat, cacheControl: string, vary: string, setCookie: bool, location: string, body: string)

  datatype Origin = FromAssets | FromServer | FromShim

  datatype Response = Response(origin: Origin, reply: Reply)

  /** What the generated manifest says, and `decodeURIComponent` (the path itself where that throws). */
  datatype Site = Site(
    basePath: string,
    appPath: string,
    assets: set<string>,
    prerendered: set<string>,
    defersNotFound: bool,
    matchesKitRoute: string -> bool,
    decode: string -> string)

  // ----- text searches -----

  predicate Contains(s: string, text: string) {
    exists i :: 0 <= i <= |s| && text <= s[i..]
  }

  function LowerCase(s: string): (r: string)
    ensures |r| == |s|
    ensures forall i :: 0 <= i < |s| ==> r[i] == Lower(s[i])
  {
    if s == "" then "" else [Lower(s[0])] + LowerCase(s[1..])
  }

  // ----- caching -----

  predicate IsCacheable(r: Reply) {
    && r.status != 206
    && !Contains(r.vary, "*")
    && !Contains(LowerCase(r.cacheControl), "private")
    && !Contains(LowerCase(r.cacheControl), "no-cache")
    && !Contains(LowerCase(r.cacheControl), "no-store")
  }

  /** What `cache_save` stores and returns: with a cookie, the header is kept out of shared caches. */
  function Saved(r: Reply): Reply {
    if r.setCookie then
      r.(cacheControl := if r.cacheControl == "" then "private=Set-Cookie" else r.cacheControl + ", private=Set-Cookie")
    else r
  }

  predicate IsReading(verb: string) {
    verb == "GET" || verb == "HEAD"
  }

  // ----- routing -----

  function PathOf(site: Site, url: Url): string {
    site.decode(url.pathname)
  }

  function Stripped(pathname: string): string {
    if EndsWith(pathname, "/") then pathname[..|pathname| - 1] else pathname
  }

  /** The path with its trailing slash taken away, or with one added. */
  function Toggled(pathname: string): string {
    if EndsWith(pathname, "/") then Stripped(pathname) else pathname + "/"
  }

  predicate IsStaticAsset(site: Site, pathname: string) {
    var stripped := Stripped(pathname);
    var filename := if |site.basePath| + 1 <= |stripped| then stripped[|site.basePath| + 1..] else "";
    filename != "" && (filename in site.assets || filename + "/index.html" in site.assets)
  }

  predicate IsServedFromAssets(site: Site, pathname: string) {
    || IsStaticAsset(site, pathname)
    || pathname in site.prerendered
    || pathname == "/" + site.appPath + "/version.json"
    || StartsWith(pathname, "/" + site.appPath + "/immutable/")
  }

  predicate IsRedirected(site: Site, pathname: string) {
    && !IsServedFromAssets(site, pathname)
    && Toggled(pathname) != "" && Toggled(pathname) in site.prerendered
  }

  predicate Defers(site: Site, req: Request, server: Reply) {
    site.defersNotFound && server.status == 404 && IsReading(req.verb) && req.acceptsHtml
    && !site.matchesKitRoute(PathOf(site, req.url))
  }

  /** The response before caching, given what the assets binding and the server would reply. */
  function Routed(site: Site, req: Request, assets: Reply, server: Reply): Response {
    var pathname := PathOf(site, req.url);
    if IsServedFromAssets(site, pathname) then Response(FromAssets, assets)
    else if IsRedirected(site, pathname) then
      Response(FromShim, Reply(308, "", "", false, Toggled(pathname) + req.url.search, ""))
    else if Defers(site, req, server) then Response(FromAssets, assets)
    else Response(FromServer, server)
  }

  predicate IsSaved(req: Request, res: Response) {
    res.reply.cacheControl != "" && res.reply.status < 400 && IsReading(req.verb) && IsCacheable(res.reply)
  }

  function Answered(req: Request, res: Response): Response {
    if IsSaved(req, res) then res.(reply := Saved(res.reply)) else res
  }

  // ----- runs -----

  /** The cache, the requests being answered, the writes still to settle, and what was answered. */
  datatype State = State(
    cache: map<Url, Response>,
    inFlight: seq<Request>,
    writes: seq<(Url, Response)>,
    answers: seq<(Request, Response)>)

  const FRESH := State(map[], [], [], [])

  datatype Event =
    | Arrive(req: Request)
    | Finish(k: nat, assets: Reply, server: Reply)
    | Settle(k: nat, stored: bool)
    | Evict(url: Url)

  function Without<T>(xs: seq<T>, k: nat): (r: seq<T>)
    requires k < |xs|
    ensures forall x :: x in r ==> x in xs
  {
    xs[..k] + xs[k + 1..]
  }

  /** `cache_lookup`, for a request that allows it. */
  function Lookup(cache: map<Url, Response>, req: Request): Option<Response> {
    if Contains(req.cacheControl, "no-cache") || !IsReading(req.verb) || req.url !in cache then None
    else
      var res := cache[req.url];
      Some(if req.verb == "HEAD" then res.(reply := res.reply.(body := "")) else res)
  }

  function Next(site: Site, st: State, e: Event): State {
    match e
    case Arrive(req) =>
      (match Lookup(st.cache, req)
       case Some(res) => st.(answers := st.answers + [(req, res)])
       case None => st.(inFlight := st.inFlight + [req]))
    case Finish(k, assets, server) =>
      if k < |st.inFlight| then
        var req := st.inFlight[k];
        var res := Routed(site, req, assets, server);
        var answer := Answered(req, res);
        State(st.cache, Without(st.inFlight, k),
              if IsSaved(req, res) then st.writes + [(req.url, answer)] else st.writes,
              st.answers + [(req, answer)])
      else st
    case Settle(k, stored) =>
      if k < |st.writes| then
        var (url, res) := st.writes[k];
        st.(cache := if stored then st.cache[url := res] else st.cache, writes := Without(st.writes, k))
      else st
    case Evict(url) => st.(cache := st.cache - {url})
  }

  function Run(site: Site, st: State, events: seq<Event>): State
    decreases |events|
  {
    if events == [] then st else Run(site, Next(site, st, events[0]), events[1..])
  }

  // ----- what every run keeps -----

  /** The reply, before it was marked for its cookie, that may be stored. */
  predicate WasStorable(r: Reply) {
    r.cacheControl != "" && r.status < 400 && IsCacheable(r)
  }

  predicate IsMarkOf(stored: Reply, original: Reply) {
    WasStorable(original) && stored == Saved(original)
  }

  ghost predicate IsFit(site: Site, url: Url, res: Response) {
    && res.origin != FromShim
    && (IsServedFromAssets(site, PathOf(site, url)) ==> res.origin == FromAssets)
    && exists original :: IsMarkOf(res.reply, original)
  }

  /** What an answer owes to where its request was routed. */
  predicate IsProper(site: Site, req: Request, res: Response) {
    var pathname := PathOf(site, req.url);
    && (IsServedFromAssets(site, pathname) ==> res.origin == FromAssets)
    && (res.origin == FromShim ==>
          IsRedirected(site, pathname) && res.reply.status == 308 && res.reply.location == Toggled(pathname) + req.url.search)
  }

  ghost predicate Sound(site: Site, st: State) {
    && (forall url :: url in st.cache ==> IsFit(site, url, st.cache[url]))
    && (forall k :: 0 <= k < |st.writes| ==> IsFit(site, st.writes[k].0, st.writes[k].1))
    && (forall k :: 0 <= k < |st.answers| ==> IsProper(site, st.answers[k].0, st.answers[k].1))
  }

  lemma SavedIsFit(site: Site, req: Request, assets: Reply, server: Reply)
    ensures
      var res := Routed(site, req, assets, server);
      IsProper(site, req, Answered(req, res)) && (IsSaved(req, res) ==> IsFit(site, req.url, Answered(req, res)))
  {
    var res := Routed(site, req, assets, server);
    if IsSaved(req, res) {
      assert IsMarkOf(Saved(res.reply), res.reply);
    }
  }

  lemma StepKeepsSound(site: Site, st: State, e: Event)
    requires Sound(site, st)
    ensures Sound(site, Next(site, st, e))
  {
    match e
    case Arrive(req) =>
    case Finish(k, assets, server) =>
      if k < |st.inFlight| {
        FinishKeepsSound(site, st, k, assets, server);
      }
    case Settle(k, stored) =>
      if k < |st.writes| {
      }
    case Evict(url) =>
  }

  lemma FinishKeepsSound(site: Site, st: State, k: nat, assets: Reply, server: Reply)
    requires Sound(site, st) && k < |st.inFlight|
    ensures Sound(site, Next(site, st, Finish(k, assets, server)))
  {
    SavedIsFit(site, st.inFlight[k], assets, server);
  }

  /**
   Over any run of requests, however they overlap: what is cached for a path that the assets binding
   serves came from there; the shim's own redirects are never cached; and every stored response was no
   error, not partial, and not marked `Vary: *`, private, no-cache or no-store when it was saved.
   */
  lemma {:induction false} RunKeepsSound(site: Site, st: State, events: seq<Event>)
    requires Sound(site, st)
    ensures Sound(site, Run(site, st, events))
    decreases |events|
  {
    if events != [] {
      StepKeepsSound(site, st, events[0]);
      RunKeepsSound(site, Next(site, st, events[0]), events[1..]);
    }
  }

  /**
   Following a redirect of the shim never yields another one: the redirect names its target, and a
   request for that target (when decoding leaves it alone) is answered from the assets binding,
   cached or not, before or after.
   */
  lemma NoRedirectChain(site: Site, events: seq<Event>, i: nat, j: nat)
    requires i < |Run(site, FRESH, events).answers| && j < |Run(site, FRESH, events).answers|
    requires
      var (first, redirect) := Run(site, FRESH, events).answers[i];
      redirect.origin == FromShim
      && PathOf(site, Run(site, FRESH, events).answers[j].0.url) == Toggled(PathOf(site, first.url))
    ensures
      var (first, redirect) := Run(site, FRESH, events).answers[i];
      redirect.reply.location == Toggled(PathOf(site, first.url)) + first.url.search
    ensures Run(site, FRESH, events).answers[j].1.origin == FromAssets
  {
    RunKeepsSound(site, FRESH, events);
    var st := Run(site, FRESH, events);
    assert IsProper(site, st.answers[i].0, st.answers[i].1);
    assert IsProper(site, st.answers[j].0, st.answers[j].1);
  }

  // ----- who answers, and with what -----

  predicate EndsInSlash(path: string) {
    path != "" && path[|path| - 1] == '/'
  }

  /** Behind a base as long as the site's, and a final slash aside, stands a nonempty name. */
  predicate IsNamed(site: Site, path: string, base: string, name: string) {
    && |base| == |site.basePath| + 1 && name != ""
    && if EndsInSlash(path) then path == base + name + "/" else path == base + name
  }

  /** A static asset, a prerendered path, the version file or an immutable file. */
  ghost predicate IsForAssets(site: Site, path: string) {
    || (exists base, name :: IsNamed(site, path, base, name) && (name in site.assets || name + "/index.html" in site.assets))
    || path in site.prerendered
    || path == "/" + site.appPath + "/version.json"
    || (exists rest :: path == "/" + site.appPath + "/immutable/" + rest)
  }

  /** The path with a slash behind it, or without the one it has. */
  predicate IsToggle(path: string, target: string) {
    target != "" && if EndsInSlash(path) then path == target + "/" else target == path + "/"
  }

  /** A page that no route of the application is for, asked for by a browser. */
  predicate IsDeferred(site: Site, req: Request, path: string, server: Reply) {
    && site.defersNotFound && server.status == 404 && (req.verb == "GET" || req.verb == "HEAD") && req.acceptsHtml
    && !site.matchesKitRoute(path)
  }

  /** What the party that the request is for replies. */
  ghost predicate IsReplyTo(site: Site, req: Request, assets: Reply, server: Reply, res: Response) {
    var path := site.decode(req.url.pathname);
    if IsForAssets(site, path) then res == Response(FromAssets, assets)
    else if exists target :: target in site.prerendered && IsToggle(path, target) then
      exists target :: target in site.prerendered && IsToggle(path, target)
        && res == Response(FromShim, Reply(308, "", "", false, target + req.url.search, ""))
    else if IsDeferred(site, req, path, server) then res == Response(FromAssets, assets)
    else res == Response(FromServer, server)
  }

  /** A reply that goes into the cache. */
  predicate IsKept(req: Request, reply: Reply) {
    && reply.cacheControl != "" && reply.status < 400 && (req.verb == "GET" || req.verb == "HEAD")
    && reply.status != 206 && '*' !in reply.vary
    && !Contains(LowerCase(reply.cacheControl), "private")
    && !Contains(LowerCase(reply.cacheControl), "no-cache")
    && !Contains(LowerCase(reply.cacheControl), "no-store")
  }

  /** A reply that sets a cookie is marked when it is kept; nothing else is changed about any. */
  predicate IsMarked(req: Request, original: Response, res: Response) {
    && res.origin == original.origin
    && res.reply ==
         if IsKept(req, original.reply) && original.reply.setCookie
         then original.reply.(cacheControl := original.reply.cacheControl + ", private=Set-Cookie")
         else original.reply
  }

  ghost predicate IsAnswerTo(site: Site, req: Request, assets: Reply, server: Reply, res: Response) {
    exists original :: IsReplyTo(site, req, assets, server, original) && IsMarked(req, original, res)
  }

  /** The request is answered, and the answer is on its way to the cache exactly when it is to be kept. */
  predicate IsFinished(before: State, k: nat, original: Response, res: Response, after: State)
    requires k < |before.inFlight|
  {
    var req := before.inFlight[k];
    && after.cache == before.cache && after.inFlight == before.inFlight[..k] + before.inFlight[k + 1..]
    && after.answers == before.answers + [(req, res)]
    && after.writes == before.writes + if IsKept(req, original.reply) then [(req.url, res)] else []
  }

  predicate MayUseCache(req: Request) {
    !Contains(req.cacheControl, "no-cache") && (req.verb == "GET" || req.verb == "HEAD")
  }

  /** What is given out of the cache: a HEAD request gets it without its body. */
  predicate IsCopy(req: Request, cached: Response, res: Response) {
    && res.origin == cached.origin
    && res.reply == if req.verb == "HEAD" then cached.reply.(body := "") else cached.reply
  }

  lemma OneCharacter(s: string, c: char)
    ensures Contains(s, [c]) <==> c in s
  {
    if Contains(s, [c]) {
      var i :| 0 <= i <= |s| && [c] <= s[i..];
      assert s[i..][0] == c;
    }
    if i :| 0 <= i < |s| && s[i] == c {
      assert [c] <= s[i..];
    }
  }

  lemma CutSlash(path: string)
    requires EndsInSlash(path)
    ensures EndsWith(path, "/") && path == Stripped(path) + "/"
  {
    assert path[|path| - 1..] == "/";
  }

  lemma NoSlash(path: string)
    requires !EndsInSlash(path)
    ensures !EndsWith(path, "/") && Stripped(path) == path
  {
    if path != "" {
      Text.EndsInSlash(path);
    }
  }

  lemma StaticAssets(site: Site, path: string)
    ensures IsStaticAsset(site, path)
       <==> exists base, name :: IsNamed(site, path, base, name) && (name in site.assets || name + "/index.html" in site.assets)
  {
    var stripped, n := Stripped(path), |site.basePath| + 1;
    if EndsInSlash(path) {
      CutSlash(path);
    } else {
      NoSlash(path);
    }
    if IsStaticAsset(site, path) {
      assert stripped == stripped[..n] + stripped[n..];
      assert IsNamed(site, path, stripped[..n], stripped[n..]);
    }
    if base, name :| IsNamed(site, path, base, name) && (name in site.assets || name + "/index.html" in site.assets) {
      if EndsInSlash(path) {
        assert stripped == path[..|path| - 1] == base + name;
      }
      assert stripped == base + name && stripped[n..] == name;
    }
  }

  lemma ForAssets(site: Site, path: string)
    ensures IsServedFromAssets(site, path) <==> IsForAssets(site, path)
  {
    StaticAssets(site, path);
    var immutable := "/" + site.appPath + "/immutable/";
    if StartsWith(path, immutable) {
      assert path == immutable + path[|immutable|..];
    }
  }

  lemma Toggles(path: string, target: string)
    ensures IsToggle(path, target) <==> target == Toggled(path) && target != ""
  {
    if EndsInSlash(path) {
      CutSlash(path);
      if path == target + "/" {
        assert target == path[..|path| - 1];
      }
    } else {
      NoSlash(path);
    }
  }

  lemma RoutedIsReply(site: Site, req: Request, assets: Reply, server: Reply)
    ensures IsReplyTo(site, req, assets, server, Routed(site, req, assets, server))
  {
    var path := PathOf(site, req.url);
    ForAssets(site, path);
    Toggles(path, Toggled(path));
    if target :| target in site.prerendered && IsToggle(path, target) {
      Toggles(path, target);
    }
  }

  lemma KeptIsSaved(req: Request, res: Response)
    ensures IsKept(req, res.reply) <==> IsSaved(req, res)
  {
    OneCharacter(res.reply.vary, '*');
  }

  lemma AnsweredIsAnswer(site: Site, req: Request, assets: Reply, server: Reply)
    ensures
      var original := Routed(site, req, assets, server);
      IsReplyTo(site, req, assets, server, original) && IsMarked(req, original, Answered(req, original))
  {
    var original := Routed(site, req, assets, server);
    RoutedIsReply(site, req, assets, server);
    KeptIsSaved(req, original);
  }

  /** What a step adds to the answers: nothing, a copy from the cache, or the right party's reply. */
  ghost predicate AnswersRightly(site: Site, before: State, e: Event, after: State) {
    match e
    case Arrive(req) =>
      if MayUseCache(req) && req.url in before.cache then
        exists res :: IsCopy(req, before.cache[req.url], res) && after == before.(answers := before.answers + [(req, res)])
      else after == before.(inFlight := before.inFlight + [req])
    case Finish(k, assets, server) =>
      if k < |before.inFlight| then
        exists original, res ::
          && IsReplyTo(site, before.inFlight[k], assets, server, original) && IsMarked(before.inFlight[k], original, res)
          && IsFinished(before, k, original, res, after)
      else after == before
    case _ => after.answers == before.answers && after.inFlight == before.inFlight
  }

  lemma StepAnswersRightly(site: Site, st: State, e: Event)
    ensures AnswersRightly(site, st, e, Next(site, st, e))
  {
    match e
    case Arrive(req) =>
      if MayUseCache(req) && req.url in st.cache {
        assert IsCopy(req, st.cache[req.url], Lookup(st.cache, req).value);
      }
    case Finish(k, assets, server) =>
      if k < |st.inFlight| {
        var original := Routed(site, st.inFlight[k], assets, server);
        AnsweredIsAnswer(site, st.inFlight[k], assets, server);
        KeptIsSaved(st.inFlight[k], original);
        assert IsFinished(st, k, original, Answered(st.inFlight[k], original), Next(site, st, e));
      }
    case _ =>
  }

  /** What is cached for an address, or on its way there, is an answer that a request for it got. */
  predicate IsEarlierAnswer(st: State, url: Url, res: Response) {
    exists i: nat :: i < |st.answers| && st.answers[i].0.url == url && IsReading(st.answers[i].0.verb) && st.answers[i].1 == res
  }

  ghost predicate CachedAreAnswers(st: State) {
    && (forall url :: url in st.cache ==> IsEarlierAnswer(st, url, st.cache[url]))
    && (forall k :: 0 <= k < |st.writes| ==> IsEarlierAnswer(st, st.writes[k].0, st.writes[k].1))
  }

  lemma StillEarlier(before: State, after: State, url: Url, res: Response)
    requires before.answers <= after.answers && IsEarlierAnswer(before, url, res)
    ensures IsEarlierAnswer(after, url, res)
  {
    var i: nat :| i < |before.answers| && before.answers[i].0.url == url && IsReading(before.answers[i].0.verb) && before.answers[i].1 == res;
    assert after.answers[i] == before.answers[i];
  }

  lemma StepKeepsCached(site: Site, st: State, e: Event)
    requires CachedAreAnswers(st)
    ensures CachedAreAnswers(Next(site, st, e))
  {
    var t := Next(site, st, e);
    forall url, res | IsEarlierAnswer(st, url, res)
      ensures IsEarlierAnswer(t, url, res)
    {
      StillEarlier(st, t, url, res);
    }
    if e.Finish? && e.k < |st.inFlight| {
      assert t.answers[|st.answers|] == t.answers[|t.answers| - 1];
    }
  }

  lemma {:induction false} RunKeepsCached(site: Site, st: State, events: seq<Event>)
    requires CachedAreAnswers(st)
    ensures CachedAreAnswers(Run(site, st, events))
    decreases |events|
  {
    if events != [] {
      StepKeepsCached(site, st, events[0]);
      RunKeepsCached(site, Next(site, st, events[0]), events[1..]);
    }
  }

  lemma {:induction false} RunSnoc(site: Site, st: State, events: seq<Event>, e: Event)
    ensures Run(site, st, events + [e]) == Next(site, Run(site, st, events), e)
    decreases |events|
  {
    if events == [] {
      assert events + [e] == [e] && [e][1..] == [];
    } else {
      assert (events + [e])[0] == events[0] && (events + [e])[1..] == events[1..] + [e];
      RunSnoc(site, Next(site, st, events[0]), events[1..], e);
    }
  }

  /**
   However requests overlap, each is answered rightly: out of the cache by a copy of what an earlier
   request for that address got, or else with the reply of the party that it is for.
   */
  lemma EveryAnswerIsRight(site: Site, events: seq<Event>, e: Event)
    ensures
      var before := Run(site, FRESH, events);
      AnswersRightly(site, before, e, Run(site, FRESH, events + [e])) && CachedAreAnswers(before)
  {
    RunSnoc(site, FRESH, events, e);
    StepAnswersRightly(site, Run(site, FRESH, events), e);
    RunKeepsCached(site, FRESH, events);
  }

  // ----- the handler -----

  /** The run of one request that nothing else overlaps. */
  function Alone(site: Site, cache: map<Url, Response>, req: Request, assets: Reply, server: Reply,
          stored: bool): State {
    Next(site, Next(site, Next(site, State(cache, [], [], []), Arrive(req)), Finish(0, assets, server)), Settle(0, stored))
  }

  /** A copy of what is cached for the address, if it may be used, or else the right party's reply. */
  ghost predicate IsRight(site: Site, cache: map<Url, Response>, req: Request, assets: Reply, server: Reply, res: Response) {
    if MayUseCache(req) && req.url in cache then IsCopy(req, cache[req.url], res) else IsAnswerTo(site, req, assets, server, res)
  }

  lemma AloneIsRight(site: Site, cache: map<Url, Response>, req: Request, assets: Reply, server: Reply, stored: bool, res: Response)
    requires Alone(site, cache, req, assets, server, stored).answers == [(req, res)]
    ensures IsRight(site, cache, req, assets, server, res)
  {
    var st := State(cache, [], [], []);
    var arrived := Next(site, st, Arrive(req));
    var finished := Next(site, arrived, Finish(0, assets, server));
    assert finished.answers == [(req, res)];
    if MayUseCache(req) && req.url in cache {
      HitIsRight(site, cache, req, arrived, res);
    } else {
      MissIsRight(site, cache, req, assets, server, arrived, finished, res);
    }
  }

  lemma HitIsRight(site: Site, cache: map<Url, Response>, req: Request, arrived: State, res: Response)
    requires MayUseCache(req) && req.url in cache && arrived == Next(site, State(cache, [], [], []), Arrive(req))
    requires arrived.answers == [(req, res)]
    ensures IsCopy(req, cache[req.url], res)
  {
    var st := State(cache, [], [], []);
    StepAnswersRightly(site, st, Arrive(req));
    var r :| IsCopy(req, cache[req.url], r) && arrived == st.(answers := st.answers + [(req, r)]);
    assert arrived.answers[0] == (req, r);
  }

  lemma MissIsRight(site: Site, cache: map<Url, Response>, req: Request, assets: Reply, server: Reply,
          arrived: State, finished: State, res: Response)
    requires !(MayUseCache(req) && req.url in cache) && arrived == Next(site, State(cache, [], [], []), Arrive(req))
    requires finished == Next(site, arrived, Finish(0, assets, server)) && finished.answers == [(req, res)]
    ensures IsAnswerTo(site, req, assets, server, res)
  {
    StepAnswersRightly(site, State(cache, [], [], []), Arrive(req));
    assert arrived.inFlight == [req] && arrived.answers == [];
    StepAnswersRightly(site, arrived, Finish(0, assets, server));
    var original, r :| IsReplyTo(site, req, assets, server, original) && IsMarked(req, original, r)
      && IsFinished(arrived, 0, original, r, finished);
    assert finished.answers[0] == (req, r);
  }

  /** `caches.default` and the module's `origin`; `stored` says whether the cache takes a write. */
  class WorkerShim {
    const site: Site
    var cache: map<Url, Response>
    var origin: string

    constructor (site: Site)
      ensures this.site == site && cache == map[] && origin == ""
    {
      this.site := site;
      cache, origin := map[], "";
    }

    method CacheLookup(req: Request) returns (res: Option<Response>)
      requires !Contains(req.cacheControl, "no-cache")
      ensures res == Lookup(cache, req)
      ensures res.Some? <==> IsReading(req.verb) && req.url in cache
      ensures res.Some? ==> IsCopy(req, cache[req.url], res.value)
    {
      var isHead := req.verb == "HEAD";
      var looked := if isHead then req.(verb := "GET") else req;
      res := if looked.verb == "GET" && looked.url in cache then Some(cache[looked.url]) else None;
      if isHead && res.Some? {
        res := Some(res.value.(reply := res.value.reply.(body := "")));
      }
    }

    method CacheSave(req: Request, res: Response, stored: bool) returns (saved: Response)
      modifies this`cache
      ensures
        if IsReading(req.verb) && IsCacheable(res.reply) then
          saved == res.(reply := Saved(res.reply)) && cache == if stored then old(cache)[req.url := saved] else old(cache)
        else saved == res && cache == old(cache)
    {
      saved := res;
      if (req.verb == "GET" || req.verb == "HEAD") && IsCacheable(res.reply) {
        if res.reply.setCookie {
          saved := res.(reply := Saved(res.reply));
        }
        if stored {
          cache := cache[req.url := saved];
        }
      }
    }

    method Fetch(req: Request, assets: Reply, server: Reply, stored: bool) returns (res: Response)
      modifies this
      ensures origin == if old(origin) == "" then req.url.origin else old(origin)
      ensures Alone(site, old(cache), req, assets, server, stored).cache == cache
      ensures Alone(site, old(cache), req, assets, server, stored).answers == [(req, res)]
      ensures IsRight(site, old(cache), req, assets, server, res)
    {
      if origin == "" {
        origin := req.url.origin;
      }
      res := Answer(req, assets, server, stored);
      AloneIsRight(site, old(cache), req, assets, server, stored, res);
    }

    /** The handler once the origin is known. */
    method Answer(req: Request, assets: Reply, server: Reply, stored: bool) returns (res: Response)
      modifies this`cache
      ensures Alone(site, old(cache), req, assets, server, stored).cache == cache
      ensures Alone(site, old(cache), req, assets, server, stored).answers == [(req, res)]
    {
      var pragma := req.cacheControl;
      if !Contains(pragma, "no-cache") {
        var hit := CacheLookup(req);
        if hit.Some? {
          return hit.value;
        }
      }
      var pathname := site.decode(req.url.pathname);
      res := Route(req, pathname, assets, server);
      pragma := res.reply.cacheControl;
      if pragma != "" && res.reply.status < 400 {
        res := CacheSave(req, res, stored);
      }
    }

    /** The branches of the handler. */
    method Route(req: Request, pathname: string, assets: Reply, server: Reply) returns (res: Response)
      requires pathname == PathOf(site, req.url)
      ensures res == Routed(site, req, assets, server)
      ensures IsReplyTo(site, req, assets, server, res)
    {
      RoutedIsReply(site, req, assets, server);
      var strippedPathname := if EndsWith(pathname, "/") then pathname[..|pathname| - 1] else pathname;
      var isStaticAsset := false;
      var filename := if |site.basePath| + 1 <= |strippedPathname| then strippedPathname[|site.basePath| + 1..] else "";
      if filename != "" {
        isStaticAsset := filename in site.assets || filename + "/index.html" in site.assets;
      }
      var location := if EndsWith(pathname, "/") then strippedPathname else pathname + "/";
      if
        || isStaticAsset || pathname in site.prerendered
        || pathname == "/" + site.appPath + "/version.json"
        || StartsWith(pathname, "/" + site.appPath + "/immutable/")
      {
        res := Response(FromAssets, assets);
      } else if location != "" && location in site.prerendered {
        if req.url.search != "" {
          location := location + req.url.search;
        }
        res := Response(FromShim, Reply(308, "", "", false, location, ""));
        assert Toggled(pathname) + "" == Toggled(pathname);
      } else {
        res := Response(FromServer, server);
        if site.defersNotFound && server.status == 404 && (req.verb == "GET" || req.verb == "HEAD")
          && req.acceptsHtml && !site.matchesKitRoute(pathname)
        {
          res := Response(FromAssets, assets);
        }
      }
    }
  }
}
