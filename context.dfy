/** The request context of core/context.go: the response guard (`hasStopped`, an int32
    counter, and the response the context writes) and the query and form lookups.

    Every guarded method runs under the context's write mutex, so each is one atomic step on
    the pair (counter, response). The pure functions `AfterJson` and `AfterExec` give that
    step; `Run` gives a whole sequence of steps, as the handler chain and the timeout
    middleware interleave them. */
module Context {
  import opened Wrappers
  import opened Strconv
  import opened Http

  newtype int32 = x: int | -0x8000_0000 <= x < 0x8000_0000

  const MaxInt32: int32 := 0x7FFF_FFFF
  const MinInt32: int32 := -0x8000_0000

  /** `atomic.AddInt32(&x, 1)`: two's complement wrap-around at the top. */
  function Inc(x: int32): (r: int32)
    ensures r as int == (x as int + 1 + 0x8000_0000) % 0x1_0000_0000 - 0x8000_0000
  {
    if x == MaxInt32 then MinInt32 else x + 1
  }

  /** The int32 whose bits are those of `n` modulo 2^32. */
  function Wrap(n: nat): (r: int32)
    ensures n < 0x8000_0000 ==> r as int == n
  {
    var m := n % 0x1_0000_0000;
    if m < 0x8000_0000 then m as int32 else (m - 0x1_0000_0000) as int32
  }

  lemma IncWrap(n: nat)
    ensures Inc(Wrap(n)) == Wrap(n + 1)
  {
    var m := n % 0x1_0000_0000;
    assert (n + 1) % 0x1_0000_0000 == if m == 0xFFFF_FFFF then 0 else m + 1;
  }

  /** The counter is zero again only after a multiple of 2^32 increments. */
  lemma WrapIsZero(n: nat)
    ensures Wrap(n) == 0 <==> n % 0x1_0000_0000 == 0
  {
  }

  /** The state the write mutex protects: the stop counter and what was written. */
  datatype Guard = Guard(hasStopped: int32, response: seq<Event>)

  /** The state of a new context. */
  const Fresh: Guard := Guard(0, [])

  /** What a JSON call writes on a context that has not stopped. */
  function JsonWrites(status: int, body: Marshalled): seq<Event> {
    match body
    case Encoded(text) => [HeaderSet("Content-Type", "application/json"), Status(status), Body(text)]
    case MarshalError(_) => [Status(StatusInternalServerError)]
  }

  /** The guard after `JSON(status, obj)`, where `body` is the outcome of marshalling `obj`. */
  function AfterJson(g: Guard, status: int, body: Marshalled): (r: Guard)
    ensures r.hasStopped == g.hasStopped
    ensures g.hasStopped != 0 ==> r == g
    ensures g.hasStopped == 0 ==> r.response == g.response + JsonWrites(status, body)
  {
    if g.hasStopped != 0 then g else g.(response := g.response + JsonWrites(status, body))
  }

  /** The error JSON returns. */
  function JsonError(g: Guard, body: Marshalled): (r: Option<string>)
    ensures r.Some? <==> g.hasStopped == 0 && body.MarshalError?
  {
    if g.hasStopped == 0 && body.MarshalError? then Some(body.reason) else None
  }

  /** The guard after ExecTimeout or ExecPanic: the counter goes up and a 500 with `message`
      is written, whatever the counter was. */
  function AfterExec(g: Guard, message: string): (r: Guard)
    ensures r.hasStopped != 0 <==> g.hasStopped != -1
    ensures r.response == g.response + [Status(StatusInternalServerError), Body(message)]
  {
    Guard(Inc(g.hasStopped), g.response + [Status(StatusInternalServerError), Body(message)])
  }

  const TimeoutMessage: string := "time out"
  const PanicMessage: string := "panic"

  /** One guarded step. */
  datatype Op = Json(status: int, body: Marshalled) | Timeout | Panic

  function Step(g: Guard, op: Op): (r: Guard)
    ensures g.response <= r.response
    ensures op.Json? ==> r.hasStopped == g.hasStopped
    ensures !op.Json? ==> r.hasStopped == Inc(g.hasStopped) && |r.response| == |g.response| + 2
  {
    match op
    case Json(status, body) => AfterJson(g, status, body)
    case Timeout => AfterExec(g, TimeoutMessage)
    case Panic => AfterExec(g, PanicMessage)
  }

  /** The guard after the steps `ops`, in order. */
  function Run(g: Guard, ops: seq<Op>): (r: Guard)
    ensures g.response <= r.response
    ensures (forall k :: 0 <= k < |ops| ==> ops[k].Json?) ==> r.hasStopped == g.hasStopped
    decreases |ops|
  {
    if ops == [] then g else Step(Run(g, ops[..|ops| - 1]), ops[|ops| - 1])
  }

  /** The number of ExecTimeout and ExecPanic steps in `ops`. */
  function Execs(ops: seq<Op>): nat {
    if ops == [] then 0 else Execs(ops[..|ops| - 1]) + (if ops[|ops| - 1].Json? then 0 else 1)
  }

  /** What the Exec steps of `ops` write. */
  function ExecWrites(ops: seq<Op>): seq<Event> {
    if ops == [] then []
    else
      ExecWrites(ops[..|ops| - 1]) +
      match ops[|ops| - 1]
      case Json(_, _) => []
      case Timeout => [Status(StatusInternalServerError), Body(TimeoutMessage)]
      case Panic => [Status(StatusInternalServerError), Body(PanicMessage)]
  }

  /** What the JSON steps of `ops` write when none of them finds the context stopped. */
  function AllJsonWrites(ops: seq<Op>): seq<Event> {
    if ops == [] then []
    else
      AllJsonWrites(ops[..|ops| - 1]) +
      match ops[|ops| - 1]
      case Json(status, body) => JsonWrites(status, body)
      case _ => []
  }

  lemma {:induction false} RunAppend(g: Guard, a: seq<Op>, b: seq<Op>)
    ensures Run(g, a + b) == Run(Run(g, a), b)
    decreases |b|
  {
    if b == [] {
      assert a + b == a;
    } else {
      assert (a + b)[..|a + b| - 1] == a + b[..|b| - 1];
      RunAppend(g, a, b[..|b| - 1]);
    }
  }

  /** The counter counts the Exec steps, as an int32. */
  lemma {:induction false} CounterCountsExecs(ops: seq<Op>)
    ensures Run(Fresh, ops).hasStopped == Wrap(Execs(ops))
    decreases |ops|
  {
    if ops != [] {
      CounterCountsExecs(ops[..|ops| - 1]);
      if !ops[|ops| - 1].Json? {
        IncWrap(Execs(ops[..|ops| - 1]));
      }
    }
  }

  /** Before any Exec step, every JSON writes: JSON itself never sets the counter, so two
      JSON calls both reach the client. */
  lemma {:induction false} JsonAlwaysWritesBeforeExec(ops: seq<Op>)
    requires Execs(ops) == 0
    ensures Run(Fresh, ops) == Guard(0, AllJsonWrites(ops))
    decreases |ops|
  {
    if ops != [] {
      JsonAlwaysWritesBeforeExec(ops[..|ops| - 1]);
    }
  }

  /** Once an Exec step has run, and until the counter wraps back to zero after 2^32 of them,
      only the Exec steps write any more. */
  lemma {:induction false} OnlyExecsWriteAfterStop(before: seq<Op>, after: seq<Op>)
    requires Execs(before) > 0
    requires Execs(before + after) < 0x1_0000_0000
    ensures Run(Fresh, before + after).response == Run(Fresh, before).response + ExecWrites(after)
    decreases |after|
  {
    if after == [] {
      assert before + after == before;
    } else {
      var init := after[..|after| - 1];
      assert (before + after)[..|before + after| - 1] == before + init;
      assert Execs(before + after) == Execs(before + init) + (if after[|after| - 1].Json? then 0 else 1);
      OnlyExecsWriteAfterStop(before, init);
      CounterCountsExecs(before + init);
      assert Execs(before + init) >= Execs(before) by {
        ExecsAppend(before, init);
      }
      WrapIsZero(Execs(before + init));
    }
  }

  lemma {:induction false} ExecsAppend(a: seq<Op>, b: seq<Op>)
    ensures Execs(a + b) == Execs(a) + Execs(b)
    decreases |b|
  {
    if b == [] {
      assert a + b == a;
    } else {
      assert (a + b)[..|a + b| - 1] == a + b[..|b| - 1];
      ExecsAppend(a, b[..|b| - 1]);
    }
  }

  /** The outcomes the timeout middleware races between, each as a sequence of atomic steps. */
  lemma RaceOutcomes(status: int, text: string)
    // The deadline fires first: the late JSON of the handler is dropped.
    ensures Run(Fresh, [Timeout, Json(status, Encoded(text))]).response ==
              [Status(StatusInternalServerError), Body(TimeoutMessage)]
    // A handler panics first: likewise.
    ensures Run(Fresh, [Panic, Json(status, Encoded(text))]).response ==
              [Status(StatusInternalServerError), Body(PanicMessage)]
    // The handler writes first: ExecTimeout does not look at the counter, so both writes go out.
    ensures Run(Fresh, [Json(status, Encoded(text)), Timeout]).response ==
              JsonWrites(status, Encoded(text)) + [Status(StatusInternalServerError), Body(TimeoutMessage)]
  {
    var j := Json(status, Encoded(text));
    assert [Timeout, j][..1] == [Timeout] && [Timeout][..0] == [];
    assert Run(Fresh, [Timeout]).hasStopped == 1;
    assert [Panic, j][..1] == [Panic] && [Panic][..0] == [];
    assert [j, Timeout][..1] == [j] && [j][..0] == [];
    assert Run(Fresh, [j]) == Guard(0, JsonWrites(status, Encoded(text)));
  }

  /** A request context. `request` is nil when absent. */
  class Context {
    const request: Option<Request>
    var hasStopped: int32
    var response: seq<Event>

    function State(): Guard
      reads this
    {
      Guard(hasStopped, response)
    }

    /** NewContext. */
    constructor (request: Option<Request>)
      ensures this.request == request
      ensures State() == Fresh
    {
      this.request := request;
      hasStopped := 0;
      response := [];
    }

    method SetHasStopped()
      modifies this
      ensures hasStopped == Inc(old(hasStopped))
      ensures response == old(response)
    {
      hasStopped := Inc(hasStopped);
    }

    method HasStopped() returns (r: int32)
      ensures r == hasStopped
    {
      r := hasStopped;
    }

    /** JSON(status, obj), with `body` the outcome of marshalling `obj`. */
    method JSON(status: int, body: Marshalled) returns (err: Option<string>)
      modifies this
      ensures State() == AfterJson(old(State()), status, body)
      ensures err == JsonError(old(State()), body)
    {
      var stopped := HasStopped();
      if stopped != 0 {
        return None;
      }
      match body
      case MarshalError(reason) =>
        response := response + [Status(StatusInternalServerError)];
        return Some(reason);
      case Encoded(text) =>
        response := response + [HeaderSet("Content-Type", "application/json")];
        response := response + [Status(status)];
        response := response + [Body(text)];
        return None;
    }

    method ExecTimeout()
      modifies this
      ensures State() == AfterExec(old(State()), TimeoutMessage)
    {
      SetHasStopped();
      response := response + [Status(StatusInternalServerError)];
      response := response + [Body(TimeoutMessage)];
    }

    method ExecPanic()
      modifies this
      ensures State() == AfterExec(old(State()), PanicMessage)
    {
      SetHasStopped();
      response := response + [Status(StatusInternalServerError)];
      response := response + [Body(PanicMessage)];
    }

    /** Carries out guarded steps in order, as the handler chain and the timeout middleware
        do. */
    method Perform(ops: seq<Op>)
      modifies this
      ensures State() == Run(old(State()), ops)
    {
      for i := 0 to |ops|
        invariant State() == Run(old(State()), ops[..i])
      {
        assert ops[..i + 1][..i] == ops[..i];
        match ops[i]
        case Json(status, body) =>
          var _ := JSON(status, body);
        case Timeout =>
          ExecTimeout();
        case Panic =>
          ExecPanic();
      }
      assert ops[..|ops|] == ops;
    }

    /** QueryAll: the parsed query, or an empty map without a request. */
    function QueryAll(): (r: map<string, seq<string>>)
      ensures request.None? ==> r == map[]
      ensures request.Some? ==> r == request.value.query
    {
      if request.Some? then request.value.query else map[]
    }

    /** The last of the values under `key`, if there is one. */
    function LastQueryValue(key: string): (r: Option<string>)
      ensures r.Some? <==> key in QueryAll() && |QueryAll()[key]| > 0
      ensures r.Some? ==> r.value == QueryAll()[key][|QueryAll()[key]| - 1]
    {
      var params := QueryAll();
      if key in params && |params[key]| > 0 then Some(params[key][|params[key]| - 1]) else None
    }

    function QueryInt(key: string, def: int): (r: int)
      ensures LastQueryValue(key).None? ==> r == def
      ensures LastQueryValue(key).Some? ==> r == Atoi(LastQueryValue(key).value).GetOr(def)
    {
      match LastQueryValue(key)
      case None => def
      case Some(v) => Atoi(v).GetOr(def)
    }

    function QueryString(key: string, def: string): (r: string)
      ensures r == LastQueryValue(key).GetOr(def)
    {
      LastQueryValue(key).GetOr(def)
    }

    /** QueryArray: every value under `key`, even none, when the key is present. */
    function QueryArray(key: string, def: seq<string>): (r: seq<string>)
      ensures key in QueryAll() ==> r == QueryAll()[key]
      ensures key !in QueryAll() ==> r == def
    {
      if key in QueryAll() then QueryAll()[key] else def
    }

    /** FormAll: the parsed post form, or an empty map without a request. */
    function FormAll(): (r: map<string, seq<string>>)
      ensures request.None? ==> r == map[]
      ensures request.Some? ==> r == request.value.postForm
    {
      if request.Some? then request.value.postForm else map[]
    }

    /** FormString as written: it indexes the values of `key` by the number of form keys. */
    function FormStringAsWritten(key: string, def: string): (r: Outcome<string>)
      ensures key !in FormAll() ==> r == Returned(def)
      ensures key in FormAll() && |FormAll()| - 1 >= |FormAll()[key]| ==> r == IndexPanic
      ensures key in FormAll() && |FormAll()| - 1 < |FormAll()[key]| ==>
                r == Returned(FormAll()[key][|FormAll()| - 1])
    {
      var params := FormAll();
      if key in params then
        var vals := params[key];
        var l := |params|;
        assert l > 0;
        if l - 1 < |vals| then Returned(vals[l - 1]) else IndexPanic
      else Returned(def)
    }

    /** FormInt as written. */
    function FormIntAsWritten(key: string, def: int): (r: Outcome<int>)
      ensures FormStringAsWritten(key, "").IndexPanic? ==> r == IndexPanic
      ensures key !in FormAll() ==> r == Returned(def)
      ensures key in FormAll() && FormStringAsWritten(key, "").Returned? ==>
                r == Returned(Atoi(FormStringAsWritten(key, "").value).GetOr(def))
    {
      var params := FormAll();
      if key in params then
        var vals := params[key];
        var l := |params|;
        if l - 1 < |vals| then Returned(Atoi(vals[l - 1]).GetOr(def)) else IndexPanic
      else Returned(def)
    }

    /** The last of the form values under `key`, if there is one. */
    function LastFormValue(key: string): (r: Option<string>)
      ensures r.Some? <==> key in FormAll() && |FormAll()[key]| > 0
      ensures r.Some? ==> r.value == FormAll()[key][|FormAll()[key]| - 1]
    {
      var params := FormAll();
      if key in params && |params[key]| > 0 then Some(params[key][|params[key]| - 1]) else None
    }

    /** FormString as evidently intended, the same rule as QueryString: the last value. */
    function FormString(key: string, def: string): (r: string)
      ensures r == LastFormValue(key).GetOr(def)
    {
      LastFormValue(key).GetOr(def)
    }

    /** FormInt as evidently intended, the same rule as QueryInt. */
    function FormInt(key: string, def: int): (r: int)
      ensures LastFormValue(key).None? ==> r == def
      ensures LastFormValue(key).Some? ==> r == Atoi(LastFormValue(key).value).GetOr(def)
    {
      match LastFormValue(key)
      case None => def
      case Some(v) => Atoi(v).GetOr(def)
    }

    function FormArray(key: string, def: seq<string>): (r: seq<string>)
      ensures key in FormAll() ==> r == FormAll()[key]
      ensures key !in FormAll() ==> r == def
    {
      if key in FormAll() then FormAll()[key] else def
    }
  }

  /** QueryInt reads back a 64-bit integer written in decimal as the last value of its key. */
  lemma QueryIntReadsLastNumber(c: Context, key: string, vals: seq<string>, n: int, def: int)
    requires MinInt <= n <= MaxInt
    requires c.request.Some? && key in c.request.value.query
    requires c.request.value.query[key] == vals + [Itoa(n)]
    ensures c.QueryInt(key, def) == n
    ensures c.QueryString(key, "") == Itoa(n)
  {
    AtoiItoa(n);
  }

  /** The corrected FormInt reads back a number the same way, whatever the other form keys. */
  lemma FormIntReadsLastNumber(c: Context, key: string, vals: seq<string>, n: int, def: int)
    requires MinInt <= n <= MaxInt
    requires c.request.Some? && key in c.request.value.postForm
    requires c.request.value.postForm[key] == vals + [Itoa(n)]
    ensures c.FormInt(key, def) == n
    ensures c.FormString(key, "") == Itoa(n)
  {
    AtoiItoa(n);
  }

  /** The form accessors as written go wrong with two form keys: a single value makes them
      panic, and with three values they return the middle one rather than the last. */
  lemma FormStringAsWrittenMisreads(c: Context)
    requires c.request.Some?
    requires c.request.value.postForm == map["a" := ["1"], "b" := ["x", "y", "z"]]
    ensures c.FormStringAsWritten("a", "") == IndexPanic
    ensures c.FormIntAsWritten("a", 0) == IndexPanic
    ensures c.FormStringAsWritten("b", "") == Returned("y")
    ensures c.FormString("a", "") == "1" && c.FormString("b", "") == "z"
  {
    var form := c.request.value.postForm;
    assert "a" != "b";
    assert |form| == 2;
  }
}
