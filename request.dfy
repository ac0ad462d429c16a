/** The request accessors of core/request.go. Each is a read-only lookup of the context's
    request (nil when absent) or of its path parameters. The typed accessors return a value and
    a flag saying whether a value was present. */
module Request {
  import opened Wrappers
  import opened Strings
  import opened Http

  /** QueryAll: the parsed query, or an empty map without a request. */
  function QueryAll(request: Option<Request>): (r: map<string, seq<string>>)
    ensures request.None? ==> r == map[]
    ensures request.Some? ==> r == request.value.query
  {
    if request.Some? then request.value.query else map[]
  }

  /** FormAll: the parsed post form, or an empty map without a request. */
  function FormAll(request: Option<Request>): (r: map<string, seq<string>>)
    ensures request.None? ==> r == map[]
    ensures request.Some? ==> r == request.value.postForm
  {
    if request.Some? then request.value.postForm else map[]
  }

  /** The first value under `key`, when the key is present with at least one value. */
  function FirstValue(params: map<string, seq<string>>, key: string): (r: Option<string>)
    ensures r.Some? <==> key in params && |params[key]| > 0
    ensures r.Some? ==> r.value == params[key][0]
  {
    if key in params && |params[key]| > 0 then Some(params[key][0]) else None
  }

  /** QueryInt, QueryInt64, QueryFloat32, QueryFloat64, QueryBool: the converted first value
      and true, or the default and false. `convert` stands for the `cast` conversion. */
  function QueryTyped<T>(request: Option<Request>, key: string, def: T, convert: string -> T): (r: (T, bool))
    ensures r.1 <==> key in QueryAll(request) && |QueryAll(request)[key]| > 0
    ensures r.1 ==> r.0 == convert(QueryAll(request)[key][0])
    ensures !r.1 ==> r.0 == def
  {
    match FirstValue(QueryAll(request), key)
    case Some(v) => (convert(v), true)
    case None => (def, false)
  }

  function QueryString(request: Option<Request>, key: string, def: string): (r: (string, bool))
    ensures r.1 <==> key in QueryAll(request) && |QueryAll(request)[key]| > 0
    ensures r.1 ==> r.0 == QueryAll(request)[key][0]
    ensures !r.1 ==> r.0 == def
  {
    match FirstValue(QueryAll(request), key)
    case Some(v) => (v, true)
    case None => (def, false)
  }

  /** QueryStringSlice: the values and true whenever the key is present, even with none. */
  function QueryStringSlice(request: Option<Request>, key: string, def: seq<string>): (r: (seq<string>, bool))
    ensures r.1 <==> key in QueryAll(request)
    ensures r.1 ==> r.0 == QueryAll(request)[key]
    ensures !r.1 ==> r.0 == def
  {
    var params := QueryAll(request);
    if key in params then (params[key], true) else (def, false)
  }

  /** Query: the first value, nil without the key, and a panic on a key with no values. */
  function Query(request: Option<Request>, key: string): (r: Outcome<Option<string>>)
    ensures key !in QueryAll(request) ==> r == Returned(None)
    ensures key in QueryAll(request) && |QueryAll(request)[key]| == 0 ==> r == IndexPanic
    ensures key in QueryAll(request) && |QueryAll(request)[key]| > 0 ==> r == Returned(Some(QueryAll(request)[key][0]))
  {
    var params := QueryAll(request);
    if key !in params then Returned(None)
    else if |params[key]| == 0 then IndexPanic
    else Returned(Some(params[key][0]))
  }

  /** FormInt, FormInt64, FormFloat32, FormFloat64, FormBool. */
  function FormTyped<T>(request: Option<Request>, key: string, def: T, convert: string -> T): (r: (T, bool))
    ensures r.1 <==> key in FormAll(request) && |FormAll(request)[key]| > 0
    ensures r.1 ==> r.0 == convert(FormAll(request)[key][0])
    ensures !r.1 ==> r.0 == def
  {
    match FirstValue(FormAll(request), key)
    case Some(v) => (convert(v), true)
    case None => (def, false)
  }

  function FormString(request: Option<Request>, key: string, def: string): (r: (string, bool))
    ensures r.1 <==> key in FormAll(request) && |FormAll(request)[key]| > 0
    ensures r.1 ==> r.0 == FormAll(request)[key][0]
    ensures !r.1 ==> r.0 == def
  {
    match FirstValue(FormAll(request), key)
    case Some(v) => (v, true)
    case None => (def, false)
  }

  function FormStringSlice(request: Option<Request>, key: string, def: seq<string>): (r: (seq<string>, bool))
    ensures r.1 <==> key in FormAll(request)
    ensures r.1 ==> r.0 == FormAll(request)[key]
    ensures !r.1 ==> r.0 == def
  {
    var params := FormAll(request);
    if key in params then (params[key], true) else (def, false)
  }

  /** Form: the first value, or nil, also for a key with no values. */
  function Form(request: Option<Request>, key: string): (r: Option<string>)
    ensures r.Some? <==> key in FormAll(request) && |FormAll(request)[key]| > 0
    ensures r.Some? ==> r.value == FormAll(request)[key][0]
  {
    FirstValue(FormAll(request), key)
  }

  /** The flag of a typed accessor reports that a value was there, not that it converted:
      it is the flag of the string accessor, whatever the conversion. */
  lemma TypedFlagIsPresence<T>(request: Option<Request>, key: string, def: T, convert: string -> T)
    ensures QueryTyped(request, key, def, convert).1 == QueryString(request, key, "").1
    ensures QueryTyped(request, key, def, convert).1 ==>
              QueryTyped(request, key, def, convert).0 == convert(QueryString(request, key, "").0)
    ensures FormTyped(request, key, def, convert).1 == FormString(request, key, "").1
    ensures FormTyped(request, key, def, convert).1 ==>
              FormTyped(request, key, def, convert).0 == convert(FormString(request, key, "").0)
  {
  }

  /** A key present with no values: the slice accessor reports it, the string accessor does
      not, Query panics and Form gives nil. */
  lemma EmptyValueList(request: Option<Request>, key: string)
    requires request.Some? && key in request.value.query && request.value.query[key] == []
    requires key in request.value.postForm && request.value.postForm[key] == []
    ensures QueryStringSlice(request, key, ["d"]) == ([], true)
    ensures QueryString(request, key, "d") == ("d", false)
    ensures Query(request, key) == IndexPanic
    ensures FormStringSlice(request, key, ["d"]) == ([], true)
    ensures FormString(request, key, "d") == ("d", false)
    ensures Form(request, key).None?
  {
  }

  /** Param: the path parameter under `key`, or nil when there are no parameters or no such
      key. */
  function Param(params: Option<map<string, string>>, key: string): (r: Option<string>)
    ensures r.Some? <==> params.Some? && key in params.value
    ensures r.Some? ==> r.value == params.value[key]
  {
    if params.Some? && key in params.value then Some(params.value[key]) else None
  }

  /** ParamInt, ParamInt64, ParamFloat32, ParamFloat64, ParamBool, ParamString. */
  function ParamTyped<T>(params: Option<map<string, string>>, key: string, def: T, convert: string -> T): (r: (T, bool))
    ensures r.1 <==> Param(params, key).Some?
    ensures r.1 ==> r.0 == convert(Param(params, key).value)
    ensures !r.1 ==> r.0 == def
  {
    match Param(params, key)
    case Some(v) => (convert(v), true)
    case None => (def, false)
  }

  /** The first comma-separated entry of X-Forwarded-For, trimmed: the header's text before
      its first comma (all of it when there is none), without white space at either end. */
  function ForwardedFor(request: Request): (r: string)
    ensures ',' !in r
    ensures var h := HeaderGet(request.header, "X-Forwarded-For");
            exists k: nat, i: nat :: k <= |h| && ',' !in h[..k] && (k < |h| ==> h[k] == ',') &&
                                     SpaceAround(h[..k], i, r)
  {
    var h := HeaderGet(request.header, "X-Forwarded-For");
    var entry := Split(h, ',')[0];
    assert entry == SplitFirst(h, ',').0;
    assert h[..|entry|] == entry;
    TrimSpaceKeepsOut(entry, ',');
    TrimSpace(entry)
  }

  /** X-Real-IP, trimmed. */
  function RealIP(request: Request): (r: string)
    ensures exists i: nat :: SpaceAround(HeaderGet(request.header, "X-Real-IP"), i, r)
    ensures r != [] ==> !IsSpace(r[0]) && !IsSpace(r[|r| - 1])
    ensures TrimSpace(r) == r
  {
    TrimSpaceIdempotent(HeaderGet(request.header, "X-Real-IP"));
    TrimSpace(HeaderGet(request.header, "X-Real-IP"))
  }

  /** ClintIP. `splitHostPort` stands for `net.SplitHostPort`, giving the host or an error. */
  function ClintIP(request: Option<Request>, splitHostPort: string -> Option<string>): (r: string)
    ensures request.None? ==> r == ""
    ensures request.Some? && ForwardedFor(request.value) != "" ==> r == ForwardedFor(request.value)
    ensures request.Some? && ForwardedFor(request.value) == "" && RealIP(request.value) != "" ==>
              r == RealIP(request.value)
    ensures request.Some? && ForwardedFor(request.value) == "" && RealIP(request.value) == "" ==>
              r == splitHostPort(TrimSpace(request.value.remoteAddr)).GetOr("")
  {
    if request.None? then ""
    else
      var forwarded := ForwardedFor(request.value);
      if forwarded != "" then forwarded
      else
        var realIP := RealIP(request.value);
        if realIP != "" then realIP
        else match splitHostPort(TrimSpace(request.value.remoteAddr))
          case None => ""
          case Some(host) => host
  }

  /** An address taken from a header is one X-Forwarded-For entry or the X-Real-IP value,
      with no white space at either end. */
  lemma ClintIPFromHeaderIsTrimmed(request: Request, splitHostPort: string -> Option<string>)
    requires ForwardedFor(request) != "" || RealIP(request) != ""
    ensures var r := ClintIP(Some(request), splitHostPort);
            r != "" && !IsSpace(r[0]) && !IsSpace(r[|r| - 1])
    ensures ForwardedFor(request) != "" ==> ',' !in ClintIP(Some(request), splitHostPort)
  {
    if ForwardedFor(request) == "" {
      assert ClintIP(Some(request), splitHostPort) == RealIP(request);
    }
  }

  /** `cookies[i]` is the last cookie named `name`. */
  predicate LastNamed(cookies: seq<Cookie>, i: int, name: string) {
    0 <= i < |cookies| && cookies[i].name == name &&
    forall j :: i < j < |cookies| ==> cookies[j].name != name
  }

  /** Cookies: a map from every cookie name to the value of the last cookie with that name. */
  method Cookies(request: Request) returns (m: map<string, string>)
    ensures forall name :: name in m <==> exists i :: 0 <= i < |request.cookies| && request.cookies[i].name == name
    ensures forall i :: 0 <= i < |request.cookies| && LastNamed(request.cookies, i, request.cookies[i].name) ==>
              m[request.cookies[i].name] == request.cookies[i].value
  {
    var cookies := request.cookies;
    m := map[];
    for n := 0 to |cookies|
      invariant forall name :: name in m <==> exists i :: 0 <= i < n && cookies[i].name == name
      invariant forall i :: 0 <= i < n && LastNamed(cookies[..n], i, cookies[i].name) ==> m[cookies[i].name] == cookies[i].value
    {
      m := m[cookies[n].name := cookies[n].value];
      forall i | 0 <= i <= n && LastNamed(cookies[..n + 1], i, cookies[i].name)
        ensures m[cookies[i].name] == cookies[i].value
      {
        if i < n {
          assert LastNamed(cookies[..n], i, cookies[i].name);
        }
      }
    }
    assert cookies[..|cookies|] == cookies;
  }

  /** A name that some cookie carries has a last cookie carrying it. */
  lemma {:induction false} LastNamedExists(cookies: seq<Cookie>, name: string)
    requires exists i :: 0 <= i < |cookies| && cookies[i].name == name
    ensures exists i :: LastNamed(cookies, i, name)
  {
    var last := |cookies| - 1;
    if cookies[last].name == name {
      assert LastNamed(cookies, last, name);
    } else {
      var init := cookies[..last];
      var i :| 0 <= i < |cookies| && cookies[i].name == name;
      assert init[i] == cookies[i];
      LastNamedExists(init, name);
      var j :| LastNamed(init, j, name);
      assert LastNamed(cookies, j, name);
    }
  }

  /** Cookie: the value of the last cookie named `key` and true, or "" and false. */
  method Cookie(request: Request, key: string) returns (v: string, ok: bool)
    ensures ok <==> exists i :: 0 <= i < |request.cookies| && request.cookies[i].name == key
    ensures ok ==> exists i :: LastNamed(request.cookies, i, key) && request.cookies[i].value == v
    ensures !ok ==> v == ""
  {
    var cookies := Cookies(request);
    if key in cookies {
      LastNamedExists(request.cookies, key);
      return cookies[key], true;
    }
    return "", false;
  }
}
