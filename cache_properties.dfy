/** What the middleware promises about its responses, stated over the
    specification function Respond (which Server.Handle is proved to follow)
    and over NextMode, the new value of `type`. */
module CacheProperties {
  import opened Optional
  import opened CacheServer
  import Mime

  /** A trigger URL is answered with the landing page as `text/html`, and
      selects the mode it names. */
  lemma TriggerServesLandingPage(mode: string, req: Request, env: Env)
    requires req.url in TriggerUrls
    ensures var r := Respond(mode, req, env);
      && r.status == None
      && r.headers == map[ContentTypeHeader := Some(LandingPageType)]
      && r.body == Some(env.landingPage)
    ensures "/" + ModeName(ModeOf(NextMode(mode, req.url))) == req.url
  {
    TriggerSelectsMode(mode, req.url);
  }

  /** `/favicon.ico` gets an empty body, no header and no status, and leaves
      the mode alone. */
  lemma FaviconIsEmpty(mode: string, req: Request, env: Env)
    requires req.url == FaviconUrl
    ensures Respond(mode, req, env) == Response(None, map[], Some([]))
    ensures NextMode(mode, req.url) == mode
  {
    FaviconIsNotTrigger();
  }

  /** Every URL that is not a trigger leaves the mode as it was. */
  lemma OtherUrlsKeepMode(mode: string, url: string)
    requires url !in TriggerUrls
    ensures NextMode(mode, url) == mode
  {
  }

  /** A file URL is answered by the `switch` branch of the current mode. */
  lemma FileUrlFollowsPolicy(mode: string, req: Request, env: Env)
    requires IsFileUrl(req.url)
    ensures Respond(mode, req, env) == Policy(ModeOf(mode), req, env)
  {
  }

  /** Every file URL is typed by `parseMime`, whatever the mode and whether
      or not the request matched. */
  lemma FileUrlsCarryParsedType(mode: string, req: Request, env: Env)
    requires IsFileUrl(req.url)
    ensures var r := Respond(mode, req, env);
      ContentTypeHeader in r.headers && r.headers[ContentTypeHeader] == Mime.ParseMime(req.url)
  {
    FileUrlFollowsPolicy(mode, req, env);
    match ModeOf(mode)
    case Default =>
    case Expires =>
    case CacheControl =>
    case LastModified =>
    case ETag =>
  }

  /** A response has no body exactly when it is a 304, and 304 is the only
      status the middleware sets. */
  lemma NoBodyExactlyWhenNotModified(mode: string, req: Request, env: Env)
    ensures var r := Respond(mode, req, env);
      && (r.status == None || r.status == Some(NotModified))
      && (r.body == None <==> r.status == Some(NotModified))
  {
    if IsFileUrl(req.url) {
      FileUrlFollowsPolicy(mode, req, env);
      match ModeOf(mode)
      case Default =>
      case Expires =>
      case CacheControl =>
      case LastModified =>
      case ETag =>
    }
  }

  /** A 304 is sent exactly when a conditional mode is active and the request
      carries that mode's current validator, character for character. */
  lemma NotModifiedExactlyOnMatch(mode: string, req: Request, env: Env)
    ensures Respond(mode, req, env).status == Some(NotModified) <==>
      && IsFileUrl(req.url)
      && (|| (ModeOf(mode) == LastModified && req.ifModifiedSince == Some(LastModifiedStamp(env)))
          || (ModeOf(mode) == ETag && req.ifNoneMatch == Some(EntityTag(env))))
  {
    if IsFileUrl(req.url) {
      FileUrlFollowsPolicy(mode, req, env);
      match ModeOf(mode)
      case Default =>
      case Expires =>
      case CacheControl =>
      case LastModified =>
      case ETag =>
    }
  }

  /** Default mode (`type` is `''` or unrecognised): the file bytes typed by
      `parseMime` and nothing else; the validator headers are ignored. */
  lemma DefaultModeServesBytes(mode: string, req: Request, env: Env, ims: Option<string>, inm: Option<string>)
    requires IsFileUrl(req.url) && ModeOf(mode) == Default
    ensures var r := Respond(mode, req, env);
      && r.status == None
      && r.headers.Keys == {ContentTypeHeader}
      && r.body == Some(env.file.bytes)
      && Respond(mode, req.(ifModifiedSince := ims, ifNoneMatch := inm), env) == r
  {
    FileUrlFollowsPolicy(mode, req, env);
  }

  /** Expires mode: an `Expires` header 5000 ms ahead of the clock, the file
      bytes, no `Cache-Control` and no validator. */
  lemma ExpiresModeSetsExpiry(mode: string, req: Request, env: Env)
    requires IsFileUrl(req.url) && ModeOf(mode) == Expires
    ensures var r := Respond(mode, req, env);
      && r.status == None
      && r.headers.Keys == {ContentTypeHeader, ExpiresHeader}
      && r.headers[ExpiresHeader] == Some(env.utcString(env.now + 5000))
      && r.body == Some(env.file.bytes)
  {
    FileUrlFollowsPolicy(mode, req, env);
    assert ContentTypeHeader != ExpiresHeader;
  }

  /** cacheControl mode: `Cache-Control: max-age=5`, the file bytes, no
      `Expires` and no validator, and the status untouched. */
  lemma CacheControlModeSetsMaxAge(mode: string, req: Request, env: Env)
    requires IsFileUrl(req.url) && ModeOf(mode) == CacheControl
    ensures var r := Respond(mode, req, env);
      && r.status == None
      && r.headers.Keys == {ContentTypeHeader, CacheControlHeader}
      && r.headers[CacheControlHeader] == Some("max-age=5")
      && r.body == Some(env.file.bytes)
  {
    FileUrlFollowsPolicy(mode, req, env);
  }

  /** lastModified mode: `no-cache` always; a 304 with no body and no
      `Last-Modified` exactly when `If-Modified-Since` equals the file's GMT
      modification time, otherwise that time as `Last-Modified` and the file
      bytes. An absent header never matches. */
  lemma LastModifiedModeRevalidates(mode: string, req: Request, env: Env)
    requires IsFileUrl(req.url) && ModeOf(mode) == LastModified
    ensures var r, stamp := Respond(mode, req, env), env.utcString(env.file.mtime);
      && r.headers[ContentTypeHeader] == Mime.ParseMime(req.url)
      && r.headers[CacheControlHeader] == Some("no-cache")
      && (r.status == Some(304) <==> req.ifModifiedSince == Some(stamp))
      && (r.status == Some(304) ==>
            r.body == None && r.headers.Keys == {ContentTypeHeader, CacheControlHeader})
      && (r.status != Some(304) ==>
            && r.status == None
            && r.headers.Keys == {ContentTypeHeader, CacheControlHeader, LastModifiedHeader}
            && r.headers[LastModifiedHeader] == Some(stamp)
            && r.body == Some(env.file.bytes))
    ensures req.ifModifiedSince == None ==> Respond(mode, req, env).status == None
  {
    FileUrlFollowsPolicy(mode, req, env);
  }

  /** etag mode: `no-cache` always; a 304 with no body and no `Etag` exactly
      when `If-None-Match` equals the quoted MD5 hex digest of the file,
      otherwise that tag as `Etag` and, as body, the bytes that were hashed. */
  lemma ETagModeRevalidates(mode: string, req: Request, env: Env)
    requires IsFileUrl(req.url) && ModeOf(mode) == ETag
    ensures var r, tag := Respond(mode, req, env), "\"" + env.md5Hex(env.file.bytes) + "\"";
      && r.headers[ContentTypeHeader] == Mime.ParseMime(req.url)
      && r.headers[CacheControlHeader] == Some("no-cache")
      && (r.status == Some(304) <==> req.ifNoneMatch == Some(tag))
      && (r.status == Some(304) ==>
            r.body == None && r.headers.Keys == {ContentTypeHeader, CacheControlHeader})
      && (r.status != Some(304) ==>
            && r.status == None
            && r.headers.Keys == {ContentTypeHeader, CacheControlHeader, EtagHeader}
            && r.headers[EtagHeader] == Some(tag)
            && r.body == Some(env.file.bytes))
    ensures req.ifNoneMatch == None ==> Respond(mode, req, env).status == None
  {
    FileUrlFollowsPolicy(mode, req, env);
  }

  /** Revalidation round trip, lastModified mode: a client that sends back the
      `Last-Modified` of a full response, for an unchanged file, gets a 304. */
  lemma EchoedLastModifiedIsNotModified(mode: string, req: Request, env: Env)
    requires IsFileUrl(req.url) && ModeOf(mode) == LastModified
    requires Respond(mode, req, env).status == None
    ensures var echoed := Respond(mode, req, env).headers[LastModifiedHeader];
      Respond(mode, req.(ifModifiedSince := echoed), env).status == Some(NotModified)
  {
    FileUrlFollowsPolicy(mode, req, env);
  }

  /** Revalidation round trip, etag mode: a client that sends back the `Etag`
      of a full response, for unchanged file bytes, gets a 304. */
  lemma EchoedETagIsNotModified(mode: string, req: Request, env: Env)
    requires IsFileUrl(req.url) && ModeOf(mode) == ETag
    requires Respond(mode, req, env).status == None
    ensures var echoed := Respond(mode, req, env).headers[EtagHeader];
      Respond(mode, req.(ifNoneMatch := echoed), env).status == Some(NotModified)
  {
    FileUrlFollowsPolicy(mode, req, env);
  }

  /** Sending a request a second time, with the same file and clock, gets the
      same response and leaves the same mode. */
  lemma RepeatedRequestIsIdempotent(mode: string, req: Request, env: Env)
    ensures Respond(NextMode(mode, req.url), req, env) == Respond(mode, req, env)
    ensures NextMode(NextMode(mode, req.url), req.url) == NextMode(mode, req.url)
  {
  }

  /** The clock reaches the response only through the `Expires` header: at
      another instant everything else is the same. */
  lemma OnlyExpiresReadsClock(mode: string, req: Request, env: Env, later: int)
    ensures var r, r' := Respond(mode, req, env), Respond(mode, req, env.(now := later));
      && r.status == r'.status
      && r.body == r'.body
      && r.headers.Keys == r'.headers.Keys
      && (forall h :: h in r.headers && h != ExpiresHeader ==> r.headers[h] == r'.headers[h])
  {
    if IsFileUrl(req.url) {
      FileUrlFollowsPolicy(mode, req, env);
      FileUrlFollowsPolicy(mode, req, env.(now := later));
      match ModeOf(mode)
      case Default =>
      case Expires =>
      case CacheControl =>
      case LastModified =>
      case ETag =>
    }
  }
}
