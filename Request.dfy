/** `BaseRequest`: a read-only view of a WSGI environ whose accessors
    compute each derived value on first use and keep it in a cache field.
    The environ is modelled as a map from keys to text; the two stream
    entries (`wsgi.errors`, `wsgi.input`) are present but never read. */
module Request {
  import opened Base
  import opened Text
  import opened Url

  /** A value an accessor hands back unchanged from the environ (text) or
      computes itself (a number). */
  datatype Value = Str(s: string) | Num(n: nat)

  /** The object built from the `Content-Type` header text. Its parsing
      class is not part of this model, so the value is the header text. */
  datatype ContentTypeValue = ContentTypeValue(header: string)

  /** What the `port` accessor leaves in `_host` and returns: `host` is
      absent when the accessor never assigns `_host`. */
  datatype Authority = Authority(host: Option<string>, port: Result<Option<Value>>)

  /** The fallback to `SERVER_NAME` and `SERVER_PORT`, entered on a
      `KeyError` inside the `HTTP_HOST` branch; `host` is what `_host`
      held when the fallback started. */
  function ServerAuthority(env: map<string, string>, host: Option<string>): (a: Authority)
    ensures a.port.Ok? ==> a.host.Some?
  {
    if "SERVER_NAME" !in env then Authority(host, Err(MissingKey("SERVER_NAME")))
    else if "SERVER_PORT" !in env then Authority(Some(env["SERVER_NAME"]), Err(MissingKey("SERVER_PORT")))
    else Authority(Some(env["SERVER_NAME"]), Ok(Some(Str(env["SERVER_PORT"]))))
  }

  /** The `port` accessor on an empty cache. With `HTTP_HOST`, its host
      part is stored; an absent port becomes 443 for `https` and 80
      otherwise, while an explicit port leaves `_port` unassigned. A
      missing `HTTP_HOST`, or a missing `wsgi.url_scheme` when the default
      port is needed, falls back to the server entries. A successful
      lookup always leaves a host behind. */
  function Resolve(env: map<string, string>): (a: Authority)
    ensures a.port.Ok? ==> a.host.Some?
  {
    if "HTTP_HOST" in env then
      var hp := ParseHost(env["HTTP_HOST"]);
      if hp.port.Some? then Authority(Some(hp.host), Ok(None))
      else if "wsgi.url_scheme" in env then
        Authority(Some(hp.host), Ok(Some(Num(if env["wsgi.url_scheme"] == "https" then 443 else 80))))
      else ServerAuthority(env, Some(hp.host))
    else ServerAuthority(env, None)
  }

  /** What `host` returns on an empty cache: the port lookup runs first and
      its error, if any, is raised. */
  function HostOf(env: map<string, string>): Result<string>
  {
    var a := Resolve(env);
    if a.port.Err? then Err(a.port.error) else Ok(a.host.value)
  }

  /** `s.encode("latin1").decode("utf-8", "replace")`. The UTF-8 decoder
      with replacement is the parameter `decodeUtf8`. */
  function Recode(s: string, decodeUtf8: seq<byte> -> string): Result<string>
  {
    if IsLatin1(s) then Ok(decodeUtf8(Latin1Bytes(s))) else Err(Latin1EncodeError)
  }

  /** The parsed query string: `QUERY_STRING` recoded and parsed, or the
      parse of `""` when the key is missing. */
  function QueryOf(env: map<string, string>, decodeUtf8: seq<byte> -> string): Result<QueryMap>
  {
    var raw :- if "QUERY_STRING" in env then Recode(env["QUERY_STRING"], decodeUtf8) else Ok("");
    ParseQuery(raw)
  }

  /** The header text a non-GET request's content type is built from:
      `CONTENT_TYPE` recoded and percent-decoded, or `""` when missing. */
  function ContentTypeHeaderOf(env: map<string, string>, decodeUtf8: seq<byte> -> string): Result<string>
  {
    if "CONTENT_TYPE" in env then
      var raw :- Recode(env["CONTENT_TYPE"], decodeUtf8);
      Decoded(raw)
    else Ok("")
  }

  class BaseRequest {
    const env: map<string, string>
    const decodeUtf8: seq<byte> -> string
    /** `_method`, read once at construction. */
    const requestMethod: string
    /** `_pathinfo`: `PATH_INFO`, or `/` when it is missing. */
    const pathInfo: string

    var hostCache: Option<string>
    var portCache: Option<Value>
    var pathCache: Option<seq<string>>
    var contentTypeCache: Option<ContentTypeValue>
    var queryCache: Option<QueryMap>

    /** A filled `_host` is what the port lookup stores, and a filled
        `_port` is what it returns and comes with a filled `_host`. */
    ghost predicate AuthorityValid()
      reads this`hostCache, this`portCache
    {
      (hostCache.Some? ==> hostCache == Resolve(env).host) &&
      (portCache.Some? ==> hostCache.Some? && Resolve(env).port == Ok(portCache))
    }

    ghost predicate PathValid()
      reads this`pathCache
    {
      pathCache.Some? ==> ParsePathInfo(pathInfo) == Ok(pathCache.value)
    }

    ghost predicate QueryValid()
      reads this`queryCache
    {
      queryCache.Some? ==> QueryOf(env, decodeUtf8) == Ok(queryCache.value)
    }

    ghost predicate ContentTypeValid()
      reads this`contentTypeCache
    {
      contentTypeCache.Some? ==> ContentTypeHeaderOf(env, decodeUtf8) == Ok(contentTypeCache.value.header)
    }

    /** The fields the constructor sets once hold what it read from the
        environ. */
    ghost predicate Constructed()
    {
      "REQUEST_METHOD" in env && requestMethod == env["REQUEST_METHOD"] &&
      pathInfo == (if "PATH_INFO" in env then env["PATH_INFO"] else "/")
    }

    /** The constructed fields match the environ, and every filled cache
        holds what its accessor computes from the environ. */
    ghost predicate Valid()
      reads this
    {
      Constructed() && AuthorityValid() && PathValid() && QueryValid() && ContentTypeValid()
    }

    /** `BaseRequest(environ)`. The environ must carry the keys the
        constructor reads unguarded. */
    constructor (environ: map<string, string>, utf8: seq<byte> -> string)
      requires "REQUEST_METHOD" in environ && "wsgi.errors" in environ && "wsgi.input" in environ
      ensures env == environ && decodeUtf8 == utf8
      ensures requestMethod == environ["REQUEST_METHOD"]
      ensures pathInfo == if "PATH_INFO" in environ then environ["PATH_INFO"] else "/"
      ensures hostCache == None && portCache == None && pathCache == None
      ensures contentTypeCache == None && queryCache == None
      ensures Valid()
    {
      env := environ;
      decodeUtf8 := utf8;
      requestMethod := environ["REQUEST_METHOD"];
      pathInfo := if "PATH_INFO" in environ then environ["PATH_INFO"] else "/";
      hostCache := None;
      portCache := None;
      pathCache := None;
      contentTypeCache := None;
      queryCache := None;
    }

    /** `method`: the environ's `REQUEST_METHOD`, read at construction. */
    function Method(): (m: string)
      requires Constructed()
      ensures m == env["REQUEST_METHOD"]
    {
      requestMethod
    }

    /** `port`: a cached port is returned as is; otherwise the lookup runs,
        and it runs again on every call while it leaves `_port` empty. */
    method Port() returns (r: Result<Option<Value>>)
      requires Valid()
      modifies this`hostCache, this`portCache
      ensures Valid()
      ensures r == Resolve(env).port
      ensures hostCache == Resolve(env).host
      ensures portCache == if r.Ok? then r.value else None
    {
      if portCache.Some? {
        return Ok(portCache);
      }
      var fallback := true;
      if "HTTP_HOST" in env {
        var hp := ParseHost(env["HTTP_HOST"]);
        hostCache := Some(hp.host);
        if hp.port.None? {
          if "wsgi.url_scheme" in env {
            portCache := Some(Num(if env["wsgi.url_scheme"] == "https" then 443 else 80));
            fallback := false;
          }
        } else {
          fallback := false;
        }
      }
      if fallback {
        if "SERVER_NAME" !in env {
          return Err(MissingKey("SERVER_NAME"));
        }
        hostCache := Some(env["SERVER_NAME"]);
        if "SERVER_PORT" !in env {
          return Err(MissingKey("SERVER_PORT"));
        }
        portCache := Some(Str(env["SERVER_PORT"]));
      }
      return Ok(portCache);
    }

    /** `host`: a cached host is returned as is, even when the port lookup
        that stored it failed; otherwise the port lookup runs first. */
    method Host() returns (r: Result<string>)
      requires Valid()
      modifies this`hostCache, this`portCache
      ensures Valid()
      ensures old(hostCache).Some? ==> r == Ok(old(hostCache).value) && hostCache == old(hostCache)
      ensures old(hostCache).Some? ==> portCache == old(portCache)
      ensures old(hostCache).None? ==> r == HostOf(env)
      ensures old(hostCache).None? ==>
                hostCache == Resolve(env).host &&
                portCache == (if Resolve(env).port.Ok? then Resolve(env).port.value else None)
      ensures r.Ok? ==> Resolve(env).host == Some(r.value)
    {
      if hostCache.None? {
        var p := Port();
        if p.Err? {
          return Err(p.error);
        }
      }
      return Ok(hostCache.value);
    }

    /** `host` exactly as written: on an empty `_host` it evaluates the
        `port` property, which may store `_host`, and then calls the value
        the property returned. */
    method HostAsWritten() returns (r: Result<string>)
      requires Valid()
      modifies this`hostCache, this`portCache
      ensures Valid()
      ensures r == HostAsWrittenOf(env, old(hostCache))
      ensures old(hostCache).Some? ==> hostCache == old(hostCache) && portCache == old(portCache)
      ensures old(hostCache).None? ==>
                hostCache == Resolve(env).host &&
                portCache == (if Resolve(env).port.Ok? then Resolve(env).port.value else None)
    {
      if hostCache.None? {
        var p := Port();
        if p.Err? {
          return Err(p.error);
        }
        // the property's value, an int, text or None, is not callable
        return Err(NotCallable);
      }
      return Ok(hostCache.value);
    }

    /** `path`: the segments of `_pathinfo`, computed once. */
    method Path() returns (r: Result<seq<string>>)
      requires Valid()
      modifies this`pathCache
      ensures Valid()
      ensures r == ParsePathInfo(pathInfo)
      ensures pathCache == if r.Ok? then Some(r.value) else None
    {
      if pathCache.Some? {
        return Ok(pathCache.value);
      }
      var p := ParsePathInfo(pathInfo);
      if p.Err? {
        return p;
      }
      pathCache := Some(p.value);
      return Ok(p.value);
    }

    /** `query_string`: the parsed query, computed once. */
    method QueryString() returns (r: Result<QueryMap>)
      requires Valid()
      modifies this`queryCache
      ensures Valid()
      ensures r == QueryOf(env, decodeUtf8)
      ensures queryCache == if r.Ok? then Some(r.value) else None
    {
      if queryCache.None? {
        var raw := "";
        if "QUERY_STRING" in env {
          var q := env["QUERY_STRING"];
          if !IsLatin1(q) {
            return Err(Latin1EncodeError);
          }
          var bytes := ToByteArray(q);
          raw := decodeUtf8(bytes);
        }
        var parsed := ParseQueryString(raw);
        if parsed.Err? {
          return parsed;
        }
        queryCache := Some(parsed.value);
      }
      return Ok(queryCache.value);
    }

    /** `content_type`: empty for a GET request, whatever the header says,
        without touching the cache; otherwise computed once from the
        header. */
    method ContentType() returns (r: Result<ContentTypeValue>)
      requires Valid()
      modifies this`contentTypeCache
      ensures Valid()
      ensures requestMethod == "GET" ==> r == Ok(ContentTypeValue("")) && contentTypeCache == old(contentTypeCache)
      ensures requestMethod != "GET" ==>
                (if ContentTypeHeaderOf(env, decodeUtf8).Err? then r == Err(ContentTypeHeaderOf(env, decodeUtf8).error)
                 else r == Ok(ContentTypeValue(ContentTypeHeaderOf(env, decodeUtf8).value))) &&
                contentTypeCache == if r.Ok? then Some(r.value) else None
    {
      if Method() == "GET" {
        return Ok(ContentTypeValue(""));
      }
      if contentTypeCache.None? {
        var header := "";
        if "CONTENT_TYPE" in env {
          var c := env["CONTENT_TYPE"];
          if !IsLatin1(c) {
            return Err(Latin1EncodeError);
          }
          var bytes := ToByteArray(c);
          var d := Decode(decodeUtf8(bytes));
          if d.Err? {
            return Err(d.error);
          }
          header := d.value;
        }
        contentTypeCache := Some(ContentTypeValue(header));
      }
      return Ok(contentTypeCache.value);
    }

    /** `content_length`: `CONTENT_LENGTH` as given, or 0 when missing. */
    function ContentLength(): (v: Value)
      ensures "CONTENT_LENGTH" in env ==> v == Str(env["CONTENT_LENGTH"])
      ensures "CONTENT_LENGTH" !in env ==> v == Num(0)
    {
      if "CONTENT_LENGTH" in env then Str(env["CONTENT_LENGTH"]) else Num(0)
    }
  }

  // ---------------------------------------------------------------------
  // properties of the accessors' specifications

  /** A `Host` header without a port: its text is the host, and the port
      defaults from the scheme. */
  lemma HostWithoutPort(env: map<string, string>)
    requires "HTTP_HOST" in env && "wsgi.url_scheme" in env
    requires ':' !in env["HTTP_HOST"]
    ensures Resolve(env) == Authority(Some(env["HTTP_HOST"]),
                                      Ok(Some(Num(if env["wsgi.url_scheme"] == "https" then 443 else 80))))
  {
    assert LastIndexOf(env["HTTP_HOST"], ':') == None;
  }

  /** A `Host` header `h:p` with an explicit port: `_host` becomes `h` and
      `_port` stays empty, so `port` returns nothing. */
  lemma HostWithExplicitPort(env: map<string, string>, h: string, p: nat)
    requires "HTTP_HOST" in env && env["HTTP_HOST"] == h + ":" + DecimalString(p)
    ensures Resolve(env) == Authority(Some(h), Ok(None))
    ensures HostOf(env) == Ok(h)
  {
    ParseHostRoundTrip(h, p);
  }

  /** Without a `Host` header, host and port are the server entries. */
  lemma HostFromServer(env: map<string, string>)
    requires "HTTP_HOST" !in env && "SERVER_NAME" in env && "SERVER_PORT" in env
    ensures Resolve(env) == Authority(Some(env["SERVER_NAME"]), Ok(Some(Str(env["SERVER_PORT"]))))
  {
  }

  /** What `host` as written returns when `_host` holds `cached`: a filled
      `_host` is returned; on an empty one it never returns a value, but
      raises the port lookup's error or, when the lookup succeeds, the
      TypeError of calling the property's value. */
  function HostAsWrittenOf(env: map<string, string>, cached: Option<string>): (r: Result<string>)
    ensures cached.Some? ==> r == Ok(cached.value)
    ensures cached.None? ==> r.Err?
    ensures cached.None? && Resolve(env).port.Ok? ==> r == Err(NotCallable)
    ensures cached.None? && Resolve(env).port.Err? ==> r == Err(Resolve(env).port.error)
  {
    if cached.Some? then Ok(cached.value)
    else
      var a := Resolve(env);
      if a.port.Err? then Err(a.port.error) else Err(NotCallable)
  }

  /** A plain `Host: h` request over HTTP: as written, the first `host`
      raises TypeError, while the evidently intended accessor returns `h`.
      The failed call has stored `_host`, so a second `host` returns `h`. */
  lemma HostAsWrittenFails()
    ensures HostAsWrittenOf(map["HTTP_HOST" := "h", "wsgi.url_scheme" := "http"], None) == Err(NotCallable)
    ensures HostOf(map["HTTP_HOST" := "h", "wsgi.url_scheme" := "http"]) == Ok("h")
    ensures HostAsWrittenOf(map["HTTP_HOST" := "h", "wsgi.url_scheme" := "http"],
                            Resolve(map["HTTP_HOST" := "h", "wsgi.url_scheme" := "http"]).host) == Ok("h")
  {
    var env := map["HTTP_HOST" := "h", "wsgi.url_scheme" := "http"];
    HostWithoutPort(env);
  }

  /** A missing query string is the empty dictionary. */
  lemma MissingQueryIsEmpty(env: map<string, string>, utf8: seq<byte> -> string)
    requires "QUERY_STRING" !in env
    ensures QueryOf(env, utf8) == Ok(map[])
  {
    QueryEmpty();
  }
}
