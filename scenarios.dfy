/** Sequences of requests against one server process, as a browser would
    send them while trying the demo. */
module Scenarios {
  import opened Optional
  import opened CacheServer
  import opened CacheProperties

  /** A visit to a trigger URL: the landing page is served, and `type`
      becomes the mode the URL names. */
  method Visit(server: Server, trigger: string, env: Env) returns (landing: Response)
    requires server.Valid() && trigger in TriggerUrls
    modifies server
    ensures server.Valid() && server.mode == trigger[1..]
    ensures landing.body == Some(env.landingPage)
  {
    landing := server.Handle(Request(trigger, None, None), env);
    TriggerSelectsMode(old(server.mode), trigger);
  }

  /** Visit `/etag`, fetch a file, then fetch it again sending back the `Etag`
      just received: the first answer is the full file with its tag, the
      second a 304 without body or tag. */
  method ETagRevisit(url: string, env: Env) returns (first: Response, second: Response)
    requires IsFileUrl(url)
    ensures first.status == None && first.body == Some(env.file.bytes)
    ensures EtagHeader in first.headers && first.headers[EtagHeader] == Some(EntityTag(env))
    ensures second.status == Some(NotModified) && second.body == None
    ensures EtagHeader !in second.headers
  {
    var server := new Server();
    var landing := Visit(server, "/etag", env);
    assert server.mode == "etag";
    first := server.Handle(Request(url, None, None), env);
    ETagModeRevalidates("etag", Request(url, None, None), env);
    second := server.Handle(Request(url, None, first.headers[EtagHeader]), env);
    ETagModeRevalidates("etag", Request(url, None, first.headers[EtagHeader]), env);
  }

  /** Visit `/lastModified`, fetch a file, then fetch it again sending back
      the `Last-Modified` just received: full file, then 304. */
  method LastModifiedRevisit(url: string, env: Env) returns (first: Response, second: Response)
    requires IsFileUrl(url)
    ensures first.status == None && first.body == Some(env.file.bytes)
    ensures LastModifiedHeader in first.headers
    ensures first.headers[LastModifiedHeader] == Some(LastModifiedStamp(env))
    ensures second.status == Some(NotModified) && second.body == None
    ensures LastModifiedHeader !in second.headers
  {
    var server := new Server();
    var landing := Visit(server, "/lastModified", env);
    assert server.mode == "lastModified";
    first := server.Handle(Request(url, None, None), env);
    LastModifiedModeRevalidates("lastModified", Request(url, None, None), env);
    second := server.Handle(Request(url, first.headers[LastModifiedHeader], None), env);
    LastModifiedModeRevalidates("lastModified", Request(url, first.headers[LastModifiedHeader], None), env);
  }

  /** Visit `/cacheControl`; once the reset timer has fired, a file is served
      in the default mode again: no `Cache-Control`. */
  method ModeLapsesAfterReset(url: string, env: Env) returns (during: Response, after: Response)
    requires IsFileUrl(url)
    ensures during.headers.Keys == {ContentTypeHeader, CacheControlHeader}
    ensures during.headers[CacheControlHeader] == Some(MaxAgeDirective)
    ensures after.headers.Keys == {ContentTypeHeader}
    ensures during.body == after.body == Some(env.file.bytes)
  {
    var server := new Server();
    var landing := Visit(server, "/cacheControl", env);
    assert server.mode == "cacheControl";
    during := server.Handle(Request(url, None, None), env);
    CacheControlModeSetsMaxAge("cacheControl", Request(url, None, None), env);
    server.ResetMode();
    after := server.Handle(Request(url, None, None), env);
    DefaultModeServesBytes("", Request(url, None, None), env, None, None);
  }

  /** Two trigger URLs visited within the reset delay. Each visit schedules
      a timer, and the first visit's timer can fire after the second visit;
      when it does, it clears the mode the second visit selected, and a file
      fetched after that gets no caching header. ResetMode does not record
      which visit scheduled it, so the model cannot tell the two timers
      apart: the scenario shows that any timer firing after the second visit
      clears that visit's mode. */
  method EarlierTimerClearsLaterMode(url: string, env: Env) returns (r: Response)
    requires IsFileUrl(url)
    ensures r.headers.Keys == {ContentTypeHeader}
    ensures r.status == None && r.body == Some(env.file.bytes)
  {
    var server := new Server();
    var first := Visit(server, "/expires", env);
    var second := Visit(server, "/etag", env);
    server.ResetMode();
    r := server.Handle(Request(url, None, None), env);
    DefaultModeServesBytes("", Request(url, None, None), env, None, None);
  }
}
