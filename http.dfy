/** The values of Go's `net/http` that the router reads and writes: requests as plain data,
    header maps with canonical keys, and the response sink as a log of the calls made on it. */
module Http {
  import opened Wrappers
  import opened Strings

  /** A handler in a pipeline, known only by its identity. */
  datatype Handler = Handler(id: nat)

  /** A request cookie, as `Request.Cookies` parses it from the Cookie header. */
  datatype Cookie = Cookie(name: string, value: string)

  /** The parts of an `*http.Request` that the core reads (`verb` is its Method); the maps are the already parsed
      `URL.Query()`, `PostForm` and `Header`. */
  datatype Request = Request(
    verb: string,
    path: string,
    query: map<string, seq<string>>,
    postForm: map<string, seq<string>>,
    header: map<string, seq<string>>,
    remoteAddr: string,
    cookies: seq<Cookie>)

  /** The only SameSite mode the core sets. */
  datatype SameSite = SameSiteDefaultMode

  /** An `http.Cookie` handed to `http.SetCookie`. */
  datatype ResponseCookie = ResponseCookie(
    name: string,
    value: string,
    maxAge: int,
    path: string,
    domain: string,
    sameSite: SameSite,
    secure: bool,
    httpOnly: bool)

  /** One call on the response sink. */
  datatype Event =
    | HeaderSet(key: string, value: string)   // Header().Set
    | HeaderAdd(key: string, value: string)   // Header().Add
    | Status(code: int)                       // WriteHeader
    | Body(chunk: string)                     // Write
    | CookieSet(cookie: ResponseCookie)       // http.SetCookie

  /** The outcome of `json.Marshal` or `xml.Marshal`. */
  datatype Marshalled = Encoded(text: string) | MarshalError(reason: string)

  const StatusOK: int := 200
  const StatusFound: int := 302
  const StatusNotFound: int := 404
  const StatusInternalServerError: int := 500

  /** The bytes Go accepts in a header field name: the token characters of RFC 7230. */
  predicate IsTokenChar(c: char) {
    || 'a' <= c <= 'z'
    || 'A' <= c <= 'Z'
    || '0' <= c <= '9'
    || c in "!#$%&'*+-.^_`|~"
  }

  function LowerChar(c: char): char {
    if 'A' <= c <= 'Z' then (c as int + 32) as char else c
  }

  /** Upper-case at the start and after each '-', lower-case elsewhere. */
  function CanonicalFrom(key: string, upper: bool): (r: string)
    ensures |r| == |key|
    ensures forall i :: 0 <= i < |key| ==>
              r[i] == if (i == 0 && upper) || (i > 0 && key[i - 1] == '-') then UpperChar(key[i]) else LowerChar(key[i])
  {
    if key == [] then []
    else [if upper then UpperChar(key[0]) else LowerChar(key[0])] + CanonicalFrom(key[1..], key[0] == '-')
  }

  /** `textproto.CanonicalMIMEHeaderKey`: a key with a non-token character stays as it is. */
  function CanonicalHeaderKey(key: string): (r: string)
    ensures |r| == |key|
    ensures (exists i :: 0 <= i < |key| && !IsTokenChar(key[i])) ==> r == key
    ensures (forall i :: 0 <= i < |key| ==> IsTokenChar(key[i])) ==>
              forall i :: 0 <= i < |key| ==>
                r[i] == if i == 0 || key[i - 1] == '-' then UpperChar(key[i]) else LowerChar(key[i])
  {
    if forall i :: 0 <= i < |key| ==> IsTokenChar(key[i]) then CanonicalFrom(key, true) else key
  }

  lemma {:induction false} CanonicalFromIgnoresCase(a: string, b: string, upper: bool)
    requires EqualIgnoringCase(a, b)
    requires forall i :: 0 <= i < |a| ==> IsTokenChar(a[i]) && IsTokenChar(b[i])
    ensures CanonicalFrom(a, upper) == CanonicalFrom(b, upper)
  {
    if a != [] {
      assert a[0] == '-' <==> b[0] == '-' by {
        assert UpperChar(a[0]) == UpperChar(b[0]);
      }
      assert LowerChar(a[0]) == LowerChar(b[0]) by {
        assert UpperChar(a[0]) == UpperChar(b[0]);
      }
      CanonicalFromIgnoresCase(a[1..], b[1..], a[0] == '-');
    }
  }

  /** Header keys made of token characters name the same header whatever their case. */
  lemma CanonicalHeaderKeyIgnoresCase(a: string, b: string)
    requires EqualIgnoringCase(a, b)
    requires forall i :: 0 <= i < |a| ==> IsTokenChar(a[i]) && IsTokenChar(b[i])
    ensures CanonicalHeaderKey(a) == CanonicalHeaderKey(b)
  {
    CanonicalFromIgnoresCase(a, b, true);
  }

  /** `Header.Get`: the first value under the canonical key, or "". */
  function HeaderGet(header: map<string, seq<string>>, key: string): (r: string)
    ensures CanonicalHeaderKey(key) !in header ==> r == ""
    ensures CanonicalHeaderKey(key) in header && |header[CanonicalHeaderKey(key)]| > 0 ==>
              r == header[CanonicalHeaderKey(key)][0]
  {
    var k := CanonicalHeaderKey(key);
    if k in header && |header[k]| > 0 then header[k][0] else ""
  }

  /** `e` is a Set or an Add of `value` on the header `key` names. */
  predicate SetsOrAdds(e: Event, key: string, value: string) {
    (e.HeaderSet? || e.HeaderAdd?) && CanonicalHeaderKey(e.key) == CanonicalHeaderKey(key) && e.value == value
  }

  /** The values a header holds after the calls in `log`: Set replaces them, Add appends one. */
  function HeaderValues(log: seq<Event>, key: string): (r: seq<string>)
    ensures |r| <= |log|
    ensures forall j :: 0 <= j < |r| ==>
              exists i :: 0 <= i < |log| && SetsOrAdds(log[i], key, r[j])
  {
    if log == [] then []
    else
      var before := HeaderValues(log[..|log| - 1], key);
      match log[|log| - 1]
      case HeaderSet(k, v) =>
        if CanonicalHeaderKey(k) == CanonicalHeaderKey(key) then [v] else before
      case HeaderAdd(k, v) =>
        if CanonicalHeaderKey(k) == CanonicalHeaderKey(key) then before + [v] else before
      case _ => before
  }

  /** Add keeps what the header held and appends; Set leaves exactly the one value. */
  lemma HeaderAddAppends(log: seq<Event>, k: string, v: string)
    ensures HeaderValues(log + [HeaderAdd(k, v)], k) == HeaderValues(log, k) + [v]
    ensures HeaderValues(log + [HeaderSet(k, v)], k) == [v]
  {
    assert (log + [HeaderAdd(k, v)])[..|log|] == log;
    assert (log + [HeaderSet(k, v)])[..|log|] == log;
  }

  /** The body as logged: every chunk whose write was attempted, accepted or not, in order. */
  function BodyOf(log: seq<Event>): string {
    if log == [] then ""
    else BodyOf(log[..|log| - 1]) + (if log[|log| - 1].Body? then log[|log| - 1].chunk else "")
  }
}
