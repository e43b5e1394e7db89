/** The Koa middleware of index.js: the process-wide caching mode `type`,
    which a visit to one of five trigger URLs selects, and the response every
    other URL gets under that mode. */
module CacheServer {
  import opened Optional
  import opened NodePath
  import Mime

  newtype byte = x: int | 0 <= x < 256

  // Response header names, as the middleware spells them.
  const ContentTypeHeader := "Content-Type"
  const ExpiresHeader := "Expires"
  const CacheControlHeader := "Cache-Control"
  const LastModifiedHeader := "Last-Modified"
  const EtagHeader := "Etag"

  /** How far ahead of the current time the `Expires` header points. */
  const ExpiresDelayMs := 5000
  const MaxAgeDirective := "max-age=5"
  const NoCacheDirective := "no-cache"
  const NotModified := 304
  const LandingPageType := "text/html"
  const FaviconUrl := "/favicon.ico"

  /** URLs whose visit selects a caching mode and serves the landing page. */
  const TriggerUrls: set<string> := {"/", "/expires", "/cacheControl", "/lastModified", "/etag"}

  /** The values `type` can take: each trigger URL without its leading `/`. */
  const ModeNames: set<string> := {"", "expires", "cacheControl", "lastModified", "etag"}

  /** The branches of the middleware's `switch (type)`. */
  datatype Mode = Default | Expires | CacheControl | LastModified | ETag

  /** The `case` label of each branch; the default branch is the one `/` selects. */
  function ModeName(m: Mode): string
  {
    match m
    case Default => ""
    case Expires => "expires"
    case CacheControl => "cacheControl"
    case LastModified => "lastModified"
    case ETag => "etag"
  }

  /** The branch `switch (type)` takes for the value `name`: the mode with that
      label, and the default branch for a value no label matches. */
  function ModeOf(name: string): (m: Mode)
    ensures m != Default ==> ModeName(m) == name
    ensures m == Default ==> forall k: Mode :: k != Default ==> ModeName(k) != name
  {
    if name == "expires" then Expires
    else if name == "cacheControl" then CacheControl
    else if name == "lastModified" then LastModified
    else if name == "etag" then ETag
    else Default
  }

  /** ModeName and ModeOf are inverse on the labels. */
  lemma ModeNameRoundTrip(m: Mode)
    ensures ModeOf(ModeName(m)) == m
    ensures ModeName(m) in ModeNames
  {
  }

  /** Every value `type` can hold selects the branch it labels, so the
      default branch is taken only for `''`, never for an unrecognised value. */
  lemma ValidModeSelectsItsBranch(mode: string)
    requires mode in ModeNames
    ensures ModeName(ModeOf(mode)) == mode
    ensures ModeOf(mode) == Default <==> mode == ""
  {
  }

  /** The value of `type` after a request for `url`: `url.replace('/', '')`
      for a trigger URL, unchanged for every other URL. */
  function NextMode(mode: string, url: string): string
  {
    if url in TriggerUrls then ReplaceFirst(url, '/', "") else mode
  }

  /** Every trigger URL is `/` followed by one of the labels. */
  lemma TriggerUrlShape(url: string)
    requires url in TriggerUrls
    ensures |url| > 0 && url[0] == '/' && url[1..] in ModeNames
  {
    if url == "/" {
      assert url[1..] == "";
    } else if url == "/expires" {
      assert url[1..] == "expires";
    } else if url == "/cacheControl" {
      assert url[1..] == "cacheControl";
    } else if url == "/lastModified" {
      assert url[1..] == "lastModified";
    } else {
      assert url[1..] == "etag";
    }
  }

  /** Removing the leading `/` of a URL leaves the rest of it. */
  lemma DropLeadingSlash(url: string)
    requires |url| > 0 && url[0] == '/'
    ensures ReplaceFirst(url, '/', "") == url[1..]
    ensures "/" + url[1..] == url
  {
    assert "" + url[1..] == url[1..];
  }

  /** A trigger URL sets `type` to the URL without its leading `/`, which is
      one of the labels, and so selects the branch the URL names. */
  lemma TriggerSelectsMode(mode: string, url: string)
    requires url in TriggerUrls
    ensures NextMode(mode, url) == url[1..] && "/" + NextMode(mode, url) == url
    ensures NextMode(mode, url) in ModeNames
    ensures "/" + ModeName(ModeOf(NextMode(mode, url))) == url
  {
    TriggerUrlShape(url);
    DropLeadingSlash(url);
    var next := url[1..];
    assert ModeName(ModeOf(next)) == next;
  }

  /** The request as the middleware reads it: the URL and the two validator
      headers, None when the client did not send them. */
  datatype Request = Request(url: string, ifModifiedSince: Option<string>, ifNoneMatch: Option<string>)

  /** What the file system reports for the file a URL resolves to: its bytes
      and its modification time in milliseconds. */
  datatype FileFacts = FileFacts(bytes: seq<byte>, mtime: int)

  /** Everything the middleware takes from outside: the clock (`Date.now()`),
      the bytes of ./index.html, the requested file, `Date.prototype.toUTCString`
      (of which `toGMTString` is an alias) and the hex MD5 digest. */
  datatype Env = Env(
    now: int,
    landingPage: seq<byte>,
    file: FileFacts,
    utcString: int -> string,
    md5Hex: seq<byte> -> string)

  /** What the middleware leaves on `ctx`: the status it set (None when it set
      none, so that Koa picks it), the headers it set, each with the value it
      passed (None for `undefined`), and the body it assigned (None when it
      assigned none). */
  datatype Response = Response(
    status: Option<int>,
    headers: map<string, Option<string>>,
    body: Option<seq<byte>>)

  /** A URL served from the file system under the current mode. */
  predicate IsFileUrl(url: string)
  {
    url !in TriggerUrls && url != FaviconUrl
  }

  /** `/favicon.ico` is not a trigger URL. */
  lemma FaviconIsNotTrigger()
    ensures FaviconUrl !in TriggerUrls
  {
  }

  /** The `Last-Modified` validator: the file's modification time in GMT. */
  function LastModifiedStamp(env: Env): string
  {
    env.utcString(env.file.mtime)
  }

  /** The `Etag` validator: the hex MD5 digest of the file's bytes, quoted. */
  function EntityTag(env: Env): string
  {
    "\"" + env.md5Hex(env.file.bytes) + "\""
  }

  /** The response to a file URL under mode `m`. The two revalidating modes
      set `Content-Type` a second time, after `Cache-Control`, as the
      middleware does. */
  function Policy(m: Mode, req: Request, env: Env): Response
  {
    var contentType := Mime.ParseMime(req.url);
    var typed := map[ContentTypeHeader := contentType];
    var full := Some(env.file.bytes);
    match m
    case Default => Response(None, typed, full)
    case Expires =>
      Response(None, typed[ExpiresHeader := Some(env.utcString(env.now + ExpiresDelayMs))], full)
    case CacheControl => Response(None, typed[CacheControlHeader := Some(MaxAgeDirective)], full)
    case LastModified =>
      var revalidated := typed[CacheControlHeader := Some(NoCacheDirective)][ContentTypeHeader := contentType];
      if req.ifModifiedSince == Some(LastModifiedStamp(env)) then Response(Some(NotModified), revalidated, None)
      else Response(None, revalidated[LastModifiedHeader := Some(LastModifiedStamp(env))], full)
    case ETag =>
      var revalidated := typed[CacheControlHeader := Some(NoCacheDirective)][ContentTypeHeader := contentType];
      if req.ifNoneMatch == Some(EntityTag(env)) then Response(Some(NotModified), revalidated, None)
      else Response(None, revalidated[EtagHeader := Some(EntityTag(env))], full)
  }

  /** The response to `req` while `type` holds `mode`. */
  function Respond(mode: string, req: Request, env: Env): Response
  {
    if req.url in TriggerUrls then
      Response(None, map[ContentTypeHeader := Some(LandingPageType)], Some(env.landingPage))
    else if req.url == FaviconUrl then
      Response(None, map[], Some([]))
    else
      Policy(ModeOf(mode), req, env)
  }

  /** The server process: its one piece of state is the module-level `type`. */
  class Server {
    var mode: string

    /** `type` always holds one of the labels of the `switch`; by
        ValidModeSelectsItsBranch it always selects the branch it labels. */
    ghost predicate Valid()
      reads this
    {
      mode in ModeNames
    }

    /** `let type = ''`. */
    constructor ()
      ensures Valid() && mode == ""
    {
      mode := "";
    }

    /** The timer that `resetType` schedules, when it fires. */
    method ResetMode()
      modifies this
      ensures Valid() && mode == ""
    {
      mode := "";
    }

    /** One run of the middleware for `req`. */
    method Handle(req: Request, env: Env) returns (r: Response)
      requires Valid()
      modifies this
      ensures Valid()
      ensures mode == NextMode(old(mode), req.url)
      ensures r == Respond(old(mode), req, env)
    {
      var url := req.url;
      var status: Option<int> := None;
      var headers: map<string, Option<string>> := map[];
      var body: Option<seq<byte>> := None;
      if url in TriggerUrls {
        headers := headers[ContentTypeHeader := Some(LandingPageType)];
        mode := ReplaceFirst(url, '/', "");
        TriggerSelectsMode(old(mode), url);
        body := Some(env.landingPage);
      } else if url == FaviconUrl {
        body := Some([]);
      } else {
        headers := headers[ContentTypeHeader := Mime.ParseMime(url)];
        if mode == "expires" {
          var time := env.utcString(env.now + ExpiresDelayMs);
          headers := headers[ExpiresHeader := Some(time)];
          body := Some(env.file.bytes);
          assert ModeOf(mode) == Expires;
        } else if mode == "cacheControl" {
          headers := headers[CacheControlHeader := Some(MaxAgeDirective)];
          body := Some(env.file.bytes);
          assert ModeOf(mode) == CacheControl;
        } else if mode == "lastModified" {
          var ifModifiedSince := req.ifModifiedSince;
          var fileStat := env.file;
          headers := headers[CacheControlHeader := Some(NoCacheDirective)];
          headers := headers[ContentTypeHeader := Mime.ParseMime(url)];
          assert ModeOf(mode) == LastModified;
          if ifModifiedSince == Some(env.utcString(fileStat.mtime)) {
            status := Some(NotModified);
          } else {
            headers := headers[LastModifiedHeader := Some(env.utcString(fileStat.mtime))];
            body := Some(env.file.bytes);
          }
        } else if mode == "etag" {
          var fileBuffer := env.file.bytes;
          var ifNoneMatch := req.ifNoneMatch;
          var etag := "\"" + env.md5Hex(fileBuffer) + "\"";
          headers := headers[CacheControlHeader := Some(NoCacheDirective)];
          headers := headers[ContentTypeHeader := Mime.ParseMime(url)];
          assert ModeOf(mode) == ETag;
          if ifNoneMatch == Some(etag) {
            status := Some(NotModified);
          } else {
            headers := headers[EtagHeader := Some(etag)];
            body := Some(fileBuffer);
          }
        } else {
          body := Some(env.file.bytes);
          assert ModeOf(mode) == Default;
        }
      }
      r := Response(status, headers, body);
    }
  }
}
