/** The response methods of core/response.go, on the version of the context whose HasStopped
    is a flag. The response writer is the log of calls made on it. */
module Response {
  import opened Wrappers
  import opened Strings
  import opened Http
  import Request

  /** What JSON or XML writes: nothing once stopped, a 500 when marshalling failed, else the
      Content-Type (added, not set) and the marshalled bytes. No status is written. */
  function GuardedWrites(stopped: bool, contentType: string, body: Marshalled): (r: seq<Event>)
    ensures stopped ==> r == []
    ensures !stopped && body.MarshalError? ==> r == [Status(StatusInternalServerError)]
    ensures !stopped && body.Encoded? ==> r == [HeaderAdd("Content-Type", contentType), Body(body.text)]
  {
    if stopped then []
    else match body
      case MarshalError(_) => [Status(StatusInternalServerError)]
      case Encoded(text) => [HeaderAdd("Content-Type", contentType), Body(text)]
  }

  const DefaultCallback: string := "callback_function"
  const JavascriptType: string := "application/javascript"

  /** The chunks JSONP means to write: the callback, "(", the payload, ")"; only the first two
      when marshalling fails. */
  function JsonpChunks(callback: string, body: Marshalled): (r: seq<string>)
    ensures body.Encoded? ==> r == [callback, "(", body.text, ")"]
    ensures body.MarshalError? ==> r == [callback, "("]
  {
    match body
    case Encoded(text) => [callback, "(", text, ")"]
    case MarshalError(_) => [callback, "("]
  }

  /** The writes attempted when the writer accepts `accepted` of them: all of them up to and
      including the first rejected one. */
  function Attempted(chunks: seq<string>, accepted: nat): (r: seq<string>)
    ensures r <= chunks
    ensures |r| == if accepted < |chunks| then accepted + 1 else |chunks|
  {
    if accepted < |chunks| then chunks[..accepted + 1] else chunks
  }

  function Writes(chunks: seq<string>): (r: seq<Event>)
    ensures |r| == |chunks|
  {
    if chunks == [] then [] else [Body(chunks[0])] + Writes(chunks[1..])
  }

  /** The cookie SetCookie hands to `http.SetCookie`. */
  function CookieOf(key: string, val: string, maxAge: int, path: string, domain: string,
                    secure: bool, httpOnly: bool): (c: ResponseCookie)
    ensures c.path == if path == "" then "/" else path
    ensures c.name == key && c.value == val && c.maxAge == maxAge && c.domain == domain
    ensures c.sameSite == SameSiteDefaultMode && c.secure == secure && c.httpOnly == httpOnly
  {
    ResponseCookie(key, val, maxAge, if path == "" then "/" else path, domain, SameSiteDefaultMode, secure, httpOnly)
  }

  class Context {
    const request: Option<Http.Request>
    /** What HasStopped reports; no method of this file sets it. */
    const stopped: bool
    var response: seq<Event>

    constructor (request: Option<Http.Request>, stopped: bool)
      ensures this.request == request && this.stopped == stopped && response == []
    {
      this.request := request;
      this.stopped := stopped;
      response := [];
    }

    /** JSON(obj), with `body` the outcome of marshalling `obj`. */
    method JSON(body: Marshalled)
      modifies this
      ensures response == old(response) + GuardedWrites(stopped, "application/json", body)
    {
      if stopped {
        return;
      }
      match body
      case MarshalError(_) =>
        SetStatus(StatusInternalServerError);
      case Encoded(text) =>
        SetHeader("Content-Type", "application/json");
        response := response + [Body(text)];
    }

    /** XML(obj), with `body` the outcome of marshalling `obj`. */
    method XML(body: Marshalled)
      modifies this
      ensures response == old(response) + GuardedWrites(stopped, "application/xml", body)
    {
      if stopped {
        return;
      }
      match body
      case MarshalError(_) =>
        SetStatus(StatusInternalServerError);
      case Encoded(text) =>
        SetHeader("Content-Type", "application/xml");
        response := response + [Body(text)];
    }

    /** JSONP(obj): `body` is the outcome of marshalling `obj`, `escape` stands for
        `template.JSEscapeString`, and the writer accepts the first `accepted` writes and
        rejects the next one. The flag is not consulted. */
    method JSONP(body: Marshalled, escape: string -> string, accepted: nat)
      modifies this
      ensures response == old(response) + [HeaderAdd("Content-type", JavascriptType)] +
                Writes(Attempted(JsonpChunks(escape(Request.QueryString(request, "callback", DefaultCallback).0), body), accepted))
    {
      var callback := Request.QueryString(request, "callback", DefaultCallback).0;
      SetHeader("Content-type", JavascriptType);
      callback := escape(callback);
      WriteFrame(callback, body, accepted);
    }

    /** The writes of JSONP after its header: the callback, "(", and, when marshalling
        succeeded, the payload and ")", each only if the writes before it were accepted. */
    method WriteFrame(callback: string, body: Marshalled, accepted: nat)
      modifies this
      ensures response == old(response) + Writes(Attempted(JsonpChunks(callback, body), accepted))
    {
      ghost var chunks := JsonpChunks(callback, body);
      ghost var base := response;
      assert base + Writes(chunks[..0]) == base;
      var ok := Write(callback, accepted, 0);
      WritesStep(base, chunks, 0);
      if !ok {
        JsonpAttempted(callback, body, accepted, 0);
        return;
      }
      ok := Write("(", accepted, 1);
      WritesStep(base, chunks, 1);
      if !ok {
        JsonpAttempted(callback, body, accepted, 1);
        return;
      }
      match body {
        case MarshalError(_) =>
          JsonpAttempted(callback, body, accepted, 1);
          return;
        case Encoded(text) =>
          ok := Write(text, accepted, 2);
          WritesStep(base, chunks, 2);
          if !ok {
            JsonpAttempted(callback, body, accepted, 2);
            return;
          }
          ok := Write(")", accepted, 3);
          WritesStep(base, chunks, 3);
          JsonpAttempted(callback, body, accepted, 3);
      }
    }

    /** One `Write` on the writer that accepts the first `accepted` writes; `written` is the
        number made before. */
    method Write(chunk: string, accepted: nat, written: nat) returns (ok: bool)
      modifies this
      ensures response == old(response) + [Body(chunk)]
      ensures ok <==> written < accepted
    {
      response := response + [Body(chunk)];
      ok := written < accepted;
    }

    /** Text(format, values...), with `out` the formatted text. */
    method Text(out: string)
      modifies this
      ensures response == old(response) + [HeaderAdd("Content-Type", "text/plain"), Body(out)]
    {
      SetHeader("Content-Type", "text/plain");
      response := response + [Body(out)];
    }

    method SetHeader(key: string, val: string)
      modifies this
      ensures response == old(response) + [HeaderAdd(key, val)]
      ensures HeaderValues(response, key) == HeaderValues(old(response), key) + [val]
    {
      HeaderAddAppends(response, key, val);
      response := response + [HeaderAdd(key, val)];
    }

    method SetCookie(key: string, val: string, maxAge: int, path: string, domain: string, secure: bool, httpOnly: bool)
      modifies this
      ensures response == old(response) + [CookieSet(CookieOf(key, val, maxAge, path, domain, secure, httpOnly))]
    {
      var p := path;
      if p == "" {
        p := "/";
      }
      response := response + [CookieSet(ResponseCookie(key, val, maxAge, p, domain, SameSiteDefaultMode, secure, httpOnly))];
    }

    method SetStatus(code: int)
      modifies this
      ensures response == old(response) + [Status(code)]
    {
      response := response + [Status(code)];
    }

    method SetOkStatus()
      modifies this
      ensures response == old(response) + [Status(StatusOK)]
    {
      SetStatus(StatusOK);
    }
  }

  /** JSONP stops after the write at position `i`: the first rejected one, or the last chunk. */
  lemma JsonpAttempted(callback: string, body: Marshalled, accepted: nat, i: nat)
    requires i < |JsonpChunks(callback, body)|
    requires accepted == i || (i == |JsonpChunks(callback, body)| - 1 && accepted > i)
    ensures Attempted(JsonpChunks(callback, body), accepted) == JsonpChunks(callback, body)[..i + 1]
  {
    var chunks := JsonpChunks(callback, body);
    if accepted != i {
      assert chunks[..i + 1] == chunks;
    }
  }

  /** One more accepted or rejected write extends the log by the next chunk. */
  lemma WritesStep(base: seq<Event>, chunks: seq<string>, i: nat)
    requires i < |chunks|
    ensures base + Writes(chunks[..i]) + [Body(chunks[i])] == base + Writes(chunks[..i + 1])
  {
    WritesAt(chunks[..i]);
    WritesAt(chunks[..i + 1]);
    assert Writes(chunks[..i]) + [Body(chunks[i])] == Writes(chunks[..i + 1]);
  }

  /** The writes of a frame are its chunks, one `Write` each, in order. */
  lemma {:induction false} WritesAt(chunks: seq<string>)
    ensures forall i :: 0 <= i < |chunks| ==> Writes(chunks)[i] == Body(chunks[i])
    decreases |chunks|
  {
    if chunks != [] {
      WritesAt(chunks[1..]);
    }
  }

  lemma {:induction false} BodyOfAppend(a: seq<Event>, b: seq<Event>)
    ensures BodyOf(a + b) == BodyOf(a) + BodyOf(b)
    decreases |b|
  {
    if b == [] {
      assert a + b == a;
    } else {
      assert (a + b)[..|a + b| - 1] == a + b[..|b| - 1];
      BodyOfAppend(a, b[..|b| - 1]);
    }
  }

  lemma {:induction false} BodyOfWrites(chunks: seq<string>)
    ensures BodyOf(Writes(chunks)) == Concat(chunks)
    decreases |chunks|
  {
    if chunks != [] {
      assert Writes(chunks) == [Body(chunks[0])] + Writes(chunks[1..]);
      BodyOfAppend([Body(chunks[0])], Writes(chunks[1..]));
      BodyOfWrites(chunks[1..]);
      assert BodyOf([Body(chunks[0])]) == chunks[0] by {
        assert [Body(chunks[0])][..0] == [];
      }
    }
  }

  function Concat(chunks: seq<string>): string {
    if chunks == [] then "" else chunks[0] + Concat(chunks[1..])
  }

  /** A successful JSON or XML leaves the client the marshalled bytes after what was there,
      with `contentType` added to the Content-Type values. */
  lemma GuardedWriteDelivers(log: seq<Event>, contentType: string, text: string)
    ensures BodyOf(log + GuardedWrites(false, contentType, Encoded(text))) == BodyOf(log) + text
    ensures HeaderValues(log + GuardedWrites(false, contentType, Encoded(text)), "Content-Type") ==
              HeaderValues(log, "Content-Type") + [contentType]
  {
    var w := GuardedWrites(false, contentType, Encoded(text));
    BodyOfAppend(log, w);
    assert BodyOf(w) == text by {
      assert w[..1] == [HeaderAdd("Content-Type", contentType)];
      assert w[..1][..0] == [];
    }
    assert (log + w)[..|log + w| - 1] == log + [HeaderAdd("Content-Type", contentType)];
    HeaderAddAppends(log, "Content-Type", contentType);
  }

  /** With every write accepted, the client receives callback(payload). */
  lemma JsonpFrame(log: seq<Event>, callback: string, text: string)
    ensures BodyOf(log + [HeaderAdd("Content-type", "application/javascript")] +
                   Writes(Attempted(JsonpChunks(callback, Encoded(text)), 4))) ==
              BodyOf(log) + callback + "(" + text + ")"
  {
    var chunks := [callback, "(", text, ")"];
    assert Attempted(JsonpChunks(callback, Encoded(text)), 4) == chunks;
    BodyAfterHeader(log, HeaderAdd("Content-type", "application/javascript"), Writes(chunks));
    BodyOfWrites(chunks);
    ConcatFrame(BodyOf(log), callback, text);
  }

  /** JSONP's header key "Content-type" names the same header as "Content-Type". */
  lemma JsonpContentTypeKey()
    ensures CanonicalHeaderKey("Content-type") == CanonicalHeaderKey("Content-Type")
  {
    CanonicalHeaderKeyIgnoresCase("Content-type", "Content-Type");
  }

  lemma BodyAfterHeader(log: seq<Event>, e: Event, w: seq<Event>)
    requires !e.Body?
    ensures BodyOf(log + [e] + w) == BodyOf(log) + BodyOf(w)
  {
    BodyOfAppend(log + [e], w);
    BodyOfAppend(log, [e]);
    assert BodyOf([e]) == "" by {
      assert [e][..0] == [];
    }
  }

  lemma ConcatFrame(prefix: string, callback: string, text: string)
    ensures prefix + Concat([callback, "(", text, ")"]) == prefix + callback + "(" + text + ")"
  {
    assert [callback, "(", text, ")"][1..] == ["(", text, ")"];
    assert ["(", text, ")"][1..] == [text, ")"];
    assert [text, ")"][1..] == [")"];
    assert Concat([")"]) == ")" by {
      assert [")"][1..] == [];
    }
    assert Concat([text, ")"]) == text + ")";
    assert Concat(["(", text, ")"]) == "(" + text + ")";
    assert Concat([callback, "(", text, ")"]) == callback + ("(" + (text + ")"));
  }

  /** A rejected write ends JSONP: the writes attempted are a prefix of the frame that stops
      at the first rejected one, and a failed marshalling ends it after "(". */
  lemma JsonpStopsEarly(callback: string, body: Marshalled, accepted: nat)
    ensures accepted == 0 ==> Attempted(JsonpChunks(callback, body), accepted) == [callback]
    ensures accepted == 1 ==> Attempted(JsonpChunks(callback, body), accepted) == [callback, "("]
    ensures body.MarshalError? ==> |Attempted(JsonpChunks(callback, body), accepted)| <= 2
  {
  }
}
