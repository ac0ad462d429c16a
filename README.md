# easyweb core, modelled in Dafny

This project models the dispatch core of easyweb, a small Go HTTP router. It covers five parts:

- **Segment tree** (`trie.dfy`, core/trie.go). Routes are `/`-separated paths. Literal segments are upper-cased. Segments that start with `:` are parameter ("wild") segments and are kept as written. `AddRouter` rejects a path the tree already matches. Otherwise it walks the path and adds the missing nodes. `matchNode` does a depth-first search and returns the first terminal node it reaches, taking children in insertion order. The nodes live in an arena (`seq<Node>`) and children are positions in it. `Tree.AddRouter` is the Go loop, proved equal to the recursive function `Insert`.
- **Router object** (`core.dfy`, core/core.go). It holds one tree per method (GET, POST, PUT, DELETE) and a middleware list. Every route registered afterwards gets the middleware in front of its handlers. Requests are looked up by upper-cased method. `ServeHTTP` chooses between a 404 answer, running the handler chain, and a 500 answer when the chain fails.
- **Write guard of the context** (`context.dfy`, the context in core/context.go). The state is the `int32` counter `hasStopped` plus the response. The response is a log of the calls made on the `http.ResponseWriter` (`http.dfy`). Every guarded method holds the write mutex, so it is one atomic step. The interleavings that the timeout middleware races between are sequences of these steps (`Run`). The same module models the query and form lookups of that context.
- **Request accessors** (`request.dfy`, core/request.go). These are pure lookups that return a value and a presence flag. The module also covers the client-address priority rule of `ClintIP` and the cookie fold of `Cookies`.
- **Response methods** (`response.dfy`, core/response.go). These are the guarded `JSON`/`XML`, the framing of `JSONP`, `Text`, and the header, cookie and status setters.

core/context.go and core/request.go/core/response.go declare the same methods of `Context` twice, with different signatures. In the first version `HasStopped` is an `int32`, in the second a `bool`. They are two versions of one API and are modelled as separate modules: `Context` for the first, `Request` and `Response` for the second.

Supporting modules:

- `Strings` and `Strconv` (`strings.dfy`): the parts of Go's `strings` and `strconv` the core calls (SplitN, Split, ToUpper, TrimSpace, Atoi, Itoa).
- `Http` (`http.dfy`): requests as data, canonical header keys, and the response event log.
- `Wrappers` (`wrappers.dfy`): `Option`, and `Outcome`, which is a value or an index-out-of-range panic.

Behaviour of the code that the model keeps as it is:

- **Existing final node.** Registration marks the final node terminal and gives it the handlers only when it creates that node (core/trie.go:104-108). Registering a path that already exists as a non-terminal node changes nothing and returns no error (`Trie.InsertExistingIsNoop`).
- **More than one response.** `JSON` in core/context.go never sets the counter, and `ExecTimeout`/`ExecPanic` never read it (core/context.go:173-205). So two `JSON` calls both write, and a `JSON` followed by a timeout writes twice (`Context.RaceOutcomes`).
- **Registration errors.** On a route conflict `Get`, `Post`, `Put` and `Delete` call `log.Fatal` (core/core.go:32-34). The model returns the error instead.
- **Earlier routes.** A request path with no parameter segment keeps the node it matched when a later registration passes the conflict check (`Trie.LiteralPathKeepsMatch`, `Core.RegisterKeepsLiteralRoutes`). A request segment starting with `:` matches every child, so a later literal branch can capture a request path that has one (`TrieExample.LaterRouteCanShadow`). Every request path that matched keeps matching some node (`Trie.RouteStaysResolved`).

## Model

| member | source | states |
|---|---|---|
| Strings.Upper | core/trie.go:42-44 | ToUpper keeps the length and upper-cases each ASCII letter in place |
| Strings.UpperOfEqualIgnoringCase | core/core.go:61 | strings equal up to ASCII case have the same upper-cased form |
| Strings.UpperIdempotent | core/trie.go:94-96 | upper-casing an upper-cased segment changes nothing |
| Strings.SplitFirst | core/trie.go:39 | SplitN(s, "/", 2): with no separator, the whole string and no tail; otherwise s is head + "/" + tail with no separator in head |
| Strings.SplitFirstAt | core/trie.go:39 | SplitN of head + "/" + tail, with no separator in head, gives exactly (head, tail) |
| Strings.Split | core/trie.go:91 | Split gives at least one piece, and no piece contains the separator |
| Strings.Join | core/trie.go:91 | the first part then the separator start the result, and every character comes from a part or is the separator |
| Strings.JoinSplit | core/trie.go:91 | joining the pieces of Split with the separator gives back the original path |
| Strings.SplitJoin | core/trie.go:91 | Split of a join of separator-free pieces gives back those pieces |
| Strings.TrimSpace | core/request.go:364 | the result has no white space at either end, and it is what remains of the input after dropping leading and trailing white space only |
| Strings.TrimSpaceKeepsOut | core/request.go:364 | trimming introduces no character that was not in the input |
| Strings.TrimSpaceIdempotent | core/request.go:369 | trimming twice gives the same as trimming once |
| Strconv.Atoi | core/context.go:85 | a result is a 64-bit int; empty input or input starting with anything but a sign or digit fails; an unsigned or `+`-signed numeral gives its value when it is at most 2^63-1 and fails otherwise; a `-`-signed numeral gives its negation when it is at most 2^63 and fails otherwise; any accepted input is digits after at most one sign |
| Strconv.Itoa | core/context.go:85-89 | a decimal numeral with a leading '-' exactly for a negative number, whose digits have the number's magnitude |
| Strconv.AtoiItoa | core/context.go:85-89 | Atoi reads back every 64-bit int written by Itoa |
| Http.HeaderGet | core/request.go:363 | Header.Get looks up the canonical key: "" when absent, otherwise the first value |
| Http.CanonicalFrom | core/request.go:363 | same length; upper-case at the start (when asked) and after each '-', lower-case elsewhere |
| Http.CanonicalHeaderKey | core/request.go:363 | same length; a key with a non-token character is unchanged, otherwise each letter is upper-cased at the start and after '-' and lower-cased elsewhere |
| Http.CanonicalHeaderKeyIgnoresCase | core/request.go:369 | header keys of token characters that differ only in ASCII case name the same header |
| Http.HeaderValues | core/response.go:128-131 | every value a header holds was set or added under a key with the same canonical form, and there are no more values than logged calls |
| Http.HeaderAddAppends | core/response.go:128-131 | Header().Add appends one value after the existing ones; Header().Set leaves exactly the one value |
| Trie.IsWild | core/trie.go:124-126 | a segment is a parameter segment iff it starts with ':' |
| Trie.Canon | core/trie.go:42-44 | a wild segment is kept verbatim; any other segment is upper-cased |
| Trie.CanonAll | core/trie.go:93-96 | every segment is canonicalised in place, and the number of segments is kept |
| Trie.CanonSegments | core/trie.go:91-96 | one canonical segment per `/`-separated piece of the path, and at least one: literals upper-cased, parameters verbatim |
| Trie.Keep | core/trie.go:28-35 | the filter loop keeps exactly the children that are wild or carry the request segment, in order |
| Trie.Filter | core/trie.go:19-36 | a wild request segment selects all children; otherwise a child is a candidate iff it is wild or equal to the segment |
| Trie.FirstTerminal | core/trie.go:51-58 | the last-segment loop returns a terminal candidate, and none exactly when no candidate is terminal |
| Trie.Match | core/trie.go:38-67 | matchNode only ever returns a node with isLast set |
| Trie.MatchReaches | core/trie.go:38-67 | soundness: a node matchNode returns is terminal and is reached from the start node by one admitting child per canonical segment of the path |
| Trie.ReachesMatches | core/trie.go:38-67 | completeness: when a terminal node is reached that way, matchNode returns a node |
| Trie.FindHandler | core/trie.go:116-122 | non-empty handlers are those of a terminal node reached from the root along the path's canonical segments |
| Trie.FirstMatch | core/trie.go:60-66 | the candidate loop only returns a node with isLast set |
| Trie.FirstMatchSpec | core/trie.go:60-66 | the candidate loop returns the match of some candidate, and none exactly when no candidate matches |
| Trie.FindIn | core/trie.go:70-74 | findChildNode's loop returns a child whose segment equals the text, and none exactly when no child has it |
| Trie.FindChild | core/trie.go:69-76 | findChildNode of a node: a child of that node with exactly that segment, or none |
| Trie.Graft | core/trie.go:104-110 | appending a new child adds it as the last node of the arena and links it last among the node's children; the parent changes only in its children and every other node is unchanged; the arena stays well formed |
| Trie.NewNode | core/trie.go:104-108 | the new node has the segment, no children, and isLast with the handlers only when it is the last segment |
| Trie.Walk | core/trie.go:93-102 | following existing children segment by segment stays in the arena, reaches its end by admitting children, and fails only with segments left |
| Trie.Insert | core/trie.go:93-112 | the loop leaves a well-formed arena that is at least as large |
| Trie.InsertGrows | core/trie.go:100-111 | insertion only appends nodes and child links; old nodes keep their segment, flag and handlers and only gain new children, and every new terminal node carries the given handlers |
| Trie.InsertExistingIsNoop | core/trie.go:100-102 | when every segment already has a node, registration changes nothing: it neither sets isLast nor replaces handlers |
| Trie.InsertWalks | core/trie.go:93-112 | after insertion the path walks to a node; when that node is new it is terminal and holds the given handlers |
| Trie.GraftKeepsUnique | core/trie.go:100-110 | appending a child whose segment findChildNode did not find keeps the children's segments distinct |
| Trie.InsertKeepsUnique | core/trie.go:100-111 | insertion preserves that no two children of any node share a segment |
| Trie.WalkToTerminalMatches | core/trie.go:38-67 | a path whose canonical segments walk to a terminal node is matched |
| Trie.MatchGrown | core/trie.go:38-67 | after the tree grows, a match that existed still exists, and a new match can only end at a new node |
| Trie.AddedRouteResolves | core/trie.go:116-121 | when the tree did not match the path and no node existed for it, after insertion FindHandler of the path returns exactly the given handlers |
| Trie.RouteStaysResolved | core/trie.go:84-114 | inserting any path keeps every previously matching request path matching |
| Trie.FirstMatchPicksFirst | core/trie.go:60-65 | among candidates, the first one in insertion order that leads to a match supplies the result |
| Trie.FirstMatchDrops | core/trie.go:60-65 | candidates that lead to no match are passed over: the loop's result is that of the candidates after them |
| Trie.FirstTerminalPicksFirst | core/trie.go:52-56 | among last-segment candidates, the first terminal one in insertion order is returned |
| Trie.CanonOfSameSegment | core/trie.go:42-44 | segments equal up to the ASCII case of literal text have the same canonical form |
| Trie.MatchIgnoresCase | core/trie.go:38-67 | paths that differ only in the ASCII case of literal segments match the same node |
| Trie.FindHandlerIgnoresCase | core/trie.go:116-122 | paths that differ only in the ASCII case of literal segments get the same handlers |
| Trie.CanonKeepsWild | core/trie.go:42-44 | upper-casing neither makes nor unmakes a parameter segment |
| Trie.CanonPathIsStable | core/trie.go:91-96 | a path and its canonical spelling give the same segments and the same handlers; a canonical path is its own spelling |
| Trie.InsertKeepsLabels | core/trie.go:93-112 | insertion keeps every old node's root-to-node segment texts and labels each new terminal node with the inserted segments |
| Trie.GraftKeepsLabels | core/trie.go:104-110 | a new child is labelled with its parent's texts and its own segment |
| Trie.ReachesSpells | core/trie.go:38-67 | the node texts on a reached path admit the request segments one by one |
| Trie.ReachesAlong | core/trie.go:38-67 | a reached node is reached by every request path its node texts admit |
| Trie.MatchUnchanged | core/trie.go:38-67 | after insertions whose new terminal nodes are not reachable along the path, matchNode returns what it returned before |
| Trie.LiteralPathKeepsMatch | core/trie.go:84-122 | a request path without parameter segments that matched a node keeps that node, and its handlers, across a registration that passed the conflict check |
| Trie.Tree.constructor | core/trie.go:78-82 | NewTree: a single empty, non-terminal root; the tree invariant (well formed, unique child segments, node labels) holds |
| Trie.Tree.AddRouter | core/trie.go:84-114 | on a match: a conflict error and an unchanged tree; otherwise no error and the tree becomes Insert of the canonical segments; the new route resolves to its handlers; an existing path is a no-op; parameter-free paths that matched keep their handlers; the tree invariant is kept |
| TrieExample.LaterRouteCanShadow | core/trie.go:84-114 | routes P then :id/K, then P/Q registered without conflict: the request P/:z resolves to the first route before and the third after |
| Context.Inc | core/context.go:45-47 | atomic.AddInt32 by one: the successor taken modulo 2^32 in two's complement |
| Context.Wrap | core/context.go:45-47 | the int32 counter after n increments equals n while n is below 2^31 |
| Context.IncWrap | core/context.go:45-47 | atomic.AddInt32 by one is one more increment of the wrapped count |
| Context.WrapIsZero | core/context.go:176 | the counter reads 0 again only after a multiple of 2^32 increments |
| Context.AfterJson | core/context.go:173-189 | JSON leaves the counter alone; once stopped it writes nothing; otherwise it appends its writes |
| Context.JsonError | core/context.go:179-183 | JSON returns an error exactly when the context has not stopped and marshalling failed |
| Context.Step | core/context.go:173-205 | one guarded call only appends to the response; JSON leaves the counter alone, an Exec increments it and writes status and message |
| Context.Run | core/context.go:173-205 | a sequence of guarded calls only appends to the response, and leaves the counter alone when all are JSON |
| Context.RunAppend | core/context.go:173-205 | running two sequences of guarded steps one after the other equals running their concatenation |
| Context.CounterCountsExecs | core/context.go:191-205 | after any interleaving, hasStopped is the int32 count of ExecTimeout and ExecPanic steps; JSON steps do not count |
| Context.JsonAlwaysWritesBeforeExec | core/context.go:176-178 | with no Exec step, every JSON call writes, so two JSON calls both reach the client |
| Context.OnlyExecsWriteAfterStop | core/context.go:176-178 | after an Exec step, and until the counter wraps, later JSON steps write nothing and only Exec steps write |
| Context.RaceOutcomes | core/context.go:191-197 | timeout then a late JSON: only the timeout's 500; panic then JSON: only the panic's 500; JSON then timeout: both writes |
| Context.Context.constructor | core/context.go:25-31 | NewContext starts with the counter at 0 and an empty response |
| Context.Context.SetHasStopped | core/context.go:45-47 | the counter goes up by one with int32 wrap-around; the response is unchanged |
| Context.Context.HasStopped | core/context.go:49-51 | returns the counter |
| Context.Context.JSON | core/context.go:173-189 | the state after the call is AfterJson of the state before it, and the error is JsonError |
| Context.AfterExec | core/context.go:191-205 | the shared effect of ExecTimeout and ExecPanic: the response gains exactly a 500 status and the message, and the counter reads "stopped" (non-zero) afterwards unless it wrapped from -1 |
| Context.Context.ExecTimeout | core/context.go:191-197 | the counter is incremented and 500 with "time out" is written, whatever the counter was |
| Context.Context.ExecPanic | core/context.go:199-205 | the counter is incremented and 500 with "panic" is written, whatever the counter was |
| Context.Context.Perform | core/context.go:173-205 | a sequence of guarded calls leaves the state Run of the old state |
| Context.Context.QueryAll | core/context.go:73-78 | the parsed query, or an empty map without a request |
| Context.Context.LastQueryValue | core/context.go:97-101 | some value iff the key is present with a value, and then it is the last one |
| Context.Context.QueryInt | core/context.go:80-93 | def when the key is missing or empty, otherwise Atoi of the last value or def when it fails |
| Context.Context.QueryString | core/context.go:95-104 | the last value of the key, or def |
| Context.Context.QueryArray | core/context.go:106-112 | all values of a present key (even none), or def |
| Context.Context.FormAll | core/context.go:114-120 | the parsed post form, or an empty map without a request |
| Context.Context.FormStringAsWritten | core/context.go:137-146 | as written: def for a missing key; otherwise the value at position (number of form keys - 1), panicking when there is none |
| Context.Context.FormIntAsWritten | core/context.go:122-135 | as written: panics exactly when FormString as written does; otherwise Atoi of that value or def |
| Context.Context.LastFormValue | core/context.go:137-146 | corrected: some value iff the key is present with a value, and then it is the last one |
| Context.Context.FormString | core/context.go:137-146 | corrected: the last value of the key, or def |
| Context.Context.FormInt | core/context.go:122-135 | corrected: def when missing, otherwise Atoi of the last value or def |
| Context.Context.FormArray | core/context.go:148-154 | all values of a present key, or def |
| Context.QueryIntReadsLastNumber | core/context.go:80-93 | a 64-bit number written as the last query value is what QueryInt returns, whatever the other query keys |
| Context.FormIntReadsLastNumber | core/context.go:122-135 | corrected FormInt reads back a number written as the last value, whatever the other form keys |
| Context.FormStringAsWrittenMisreads | core/context.go:140-142 | with two form keys, as written a single-value key panics and a three-value key yields the middle value; corrected gives the last |
| Request.QueryAll | core/request.go:67-72 | the parsed query, or an empty map without a request |
| Request.FormAll | core/request.go:201-207 | the parsed post form, or an empty map without a request |
| Request.FirstValue | core/request.go:124-132 | some value iff the key is present with at least one value, and then it is the first |
| Request.QueryTyped | core/request.go:74-122 | the flag is true iff the key has a value; then the conversion of the first value, else def |
| Request.QueryString | core/request.go:124-132 | (first value, true) iff the key is present with a value; otherwise (def, false) |
| Request.QueryStringSlice | core/request.go:134-140 | (values, true) whenever the key is present, even with no values; otherwise (def, false) |
| Request.Query | core/request.go:142-148 | nil for a missing key, the first value when there is one, and a panic for a present key with no values |
| Request.FormTyped | core/request.go:209-257 | the flag is true iff the key has a value; then the conversion of the first value, else def |
| Request.FormString | core/request.go:259-267 | (first value, true) iff the key is present with a value; otherwise (def, false) |
| Request.FormStringSlice | core/request.go:269-275 | (values, true) whenever the key is present; otherwise (def, false) |
| Request.Form | core/request.go:281-289 | the first value when there is one; nil for a missing key and for an empty list |
| Request.TypedFlagIsPresence | core/request.go:74-82 | a typed accessor's flag is the string accessor's flag, and its value is the conversion of the string accessor's value |
| Request.EmptyValueList | core/request.go:134-148 | for a key with no values, the slice accessors report it, the string accessors do not, Query panics and Form gives nil |
| Request.Param | core/request.go:192-199 | a value iff the parameters exist and hold the key |
| Request.ParamTyped | core/request.go:150-190 | the flag is true iff Param finds the key; then the conversion, else def |
| Request.ForwardedFor | core/request.go:363-364 | the first comma-separated entry of X-Forwarded-For, trimmed: the header's text before its first comma (all of it without a comma) minus white space at both ends; it holds no comma |
| Request.RealIP | core/request.go:369 | the X-Real-IP value with white space dropped at both ends only; nothing further to trim |
| Request.ClintIP | core/request.go:358-378 | "" without a request; else the trimmed first X-Forwarded-For entry if non-empty; else trimmed X-Real-IP if non-empty; else the host of the trimmed RemoteAddr, or "" when splitting fails |
| Request.ClintIPFromHeaderIsTrimmed | core/request.go:363-372 | an address taken from a header is non-empty and has no white space at either end, and one from X-Forwarded-For has no comma |
| Request.Cookies | core/request.go:388-395 | exactly the cookie names are keys, and each maps to the value of the last cookie with that name |
| Request.Cookie | core/request.go:397-404 | (value of the last cookie named key, true) when one exists, otherwise ("", false) |
| Response.GuardedWrites | core/response.go:35-51 | stopped: no writes; marshal failure: status 500 only; success: Content-Type added, then the bytes |
| Response.JsonpChunks | core/response.go:58-81 | JSONP writes callback, "(", payload, ")"; after a marshal failure only callback and "(" |
| Response.Attempted | core/response.go:58-81 | the writes attempted are a prefix of the frame, ending at the first rejected write |
| Response.CookieOf | core/response.go:133-147 | an empty path becomes "/"; every other field is passed through; SameSite is the default mode |
| Response.Context.JSON | core/response.go:35-51 | the response gains GuardedWrites with application/json |
| Response.Context.XML | core/response.go:86-102 | the response gains GuardedWrites with application/xml |
| Response.Context.Write | core/response.go:58-81 | one write appends the chunk to the body and succeeds iff the writer still accepts writes |
| Response.Context.WriteFrame | core/response.go:58-83 | writes callback, "(", payload, ")" in order, stopping after the first rejected write or after "(" when marshalling failed |
| Response.Context.JSONP | core/response.go:53-84 | adds Content-type application/javascript, then writes the escaped callback frame up to the first rejected write; the stopped flag is not read |
| Response.Context.Text | core/response.go:116-121 | adds Content-Type text/plain and writes the formatted text, whatever the flag |
| Response.Context.SetHeader | core/response.go:128-131 | adds a value: the header's values are the old ones plus the new one |
| Response.Context.SetCookie | core/response.go:133-150 | hands CookieOf of the arguments to http.SetCookie |
| Response.Context.SetStatus | core/response.go:152-155 | writes exactly that status |
| Response.Context.SetOkStatus | core/response.go:157-159 | writes exactly status 200, as SetStatus(200) |
| Response.GuardedWriteDelivers | core/response.go:48-50 | a successful JSON or XML adds the bytes to the body and the content type to the Content-Type values |
| Response.JsonpFrame | core/response.go:53-84 | with every write accepted the body gains callback(payload) |
| Response.JsonpContentTypeKey | core/response.go:55 | the key "Content-type" that JSONP adds names the same header as "Content-Type" |
| Response.JsonpStopsEarly | core/response.go:58-66 | a rejected first write ends JSONP after the callback, a rejected second one after "(", and a marshal failure after at most two writes |
| Core.InitialRoutes | core/core.go:14-24 | exactly the GET, POST, PUT and DELETE tables, each an empty root |
| Core.RegisterError | core/core.go:30-35 | registration fails with a route conflict exactly when the method's tree already matches the path |
| Core.AfterRegister | core/core.go:30-56 | registration changes only the given method's table: unchanged on conflict, otherwise Insert of the path with the pipeline; the tree invariant holds |
| Core.FindRoute | core/core.go:58-68 | a method with no table gives no handlers; otherwise FindHandler of the path in the upper-cased method's table |
| Core.FindRouteIgnoresCase | core/core.go:61 | requests whose methods and literal path segments differ only in ASCII case find the same handlers |
| Core.PatchIsNotRouted | core/core.go:63-67 | a PATCH request finds no handlers, whatever was registered |
| Core.NewRouterFindsNothing | core/core.go:14-24 | a new router finds no handlers for any request |
| Core.RegisteredRouteIsFound | core/core.go:30-35 | after a registration that creates the path, any request for it with the same method in any case finds exactly the pipeline |
| Core.RegisterKeepsOtherMethods | core/core.go:30-56 | registering under one method does not change the lookup for any other method |
| Core.RegisterKeepsLiteralRoutes | core/core.go:30-68 | a request with a parameter-free path that found a route still finds the same handlers after a registration under its method |
| Core.Dispatch | core/core.go:70-85 | no handlers: exactly the JSON 404 "NOT FOUND ROUTER" writes, and the chain never runs; otherwise what the chain wrote, followed by JSON 500 "INNER ERROR" only when the chain failed |
| Core.InnerErrorIsReported | core/core.go:81-83 | a chain that fails with no timeout or panic first yields its JSON writes followed by the 500 "INNER ERROR" answer |
| Core.InnerErrorAfterStopIsDropped | core/core.go:81-83 | a chain that fails after a timeout or panic was answered gets no 500 "INNER ERROR" of its own |
| Core.SuccessAddsNothing | core/core.go:79-84 | on success ServeHTTP writes nothing of its own: with no timeout or panic the response is exactly the chain's JSON writes, and the same chain failing adds only the 500 answer |
| Core.Core.constructor | core/core.go:14-24 | New: the four method trees, each an empty root, and no middlewares |
| Core.Core.Use | core/core.go:26-28 | the middlewares are appended in call order after the earlier ones; routes are unchanged |
| Core.Core.Register | core/core.go:30-56 | the route tables become AfterRegister with the pipeline of the current middlewares and the handlers; the error is RegisterError |
| Core.Core.Get | core/core.go:30-35 | registers middlewares + handlers in the GET tree only |
| Core.Core.Post | core/core.go:37-42 | registers middlewares + handlers in the POST tree only |
| Core.Core.Put | core/core.go:44-49 | registers middlewares + handlers in the PUT tree only |
| Core.Core.Delete | core/core.go:51-56 | registers middlewares + handlers in the DELETE tree only |
| Core.Core.FindRouteByRequest | core/core.go:58-68 | the lookup FindRoute on the router's current tables |
| Core.Core.ServeHTTP | core/core.go:70-85 | the response is Dispatch of the handlers found for the request, run on a new context |
| Core.Serve | core/core.go:71-84 | on a new context: the 404 answer without handlers, else the chain's writes followed by the 500 answer when it fails; equal to Dispatch |

## Left out

- Path-parameter capture and route groups: no code writes the context's parameters, and `NewGroup`/`IGroup` are not part of this model. `Param` takes the parameter map as an argument.
- The middlewares (timeout, recovery, cost, test), controller.go, main.go and route.go. They are goroutines, channels, `panic`/`recover`, clocks and logging. Their effect on the context is modelled as sequences of guarded steps (`Context.Op`).
- `SetHandlers` and `Next` are not defined in any file of this model. `Core.Core.ServeHTTP` takes the chain that `Next` runs as a parameter: the guarded steps it takes and the error it returns.
- Core.Core.Get: `log.Fatal` on a conflict is modelled as a returned error. The process exit is not modelled. The same holds for Post, Put and Delete.
- `sync.Mutex` and `atomic`: each locked method body is one atomic step.
- `json.Marshal`/`xml.Marshal` are given as their outcome (`Marshalled`). `template.JSEscapeString`, `net.SplitHostPort`, the `cast` conversions and `fmt.Sprintf` are function parameters or given results.
- Floats: the float accessors are not modelled separately. `Request.QueryTyped`/`Request.FormTyped`/`Request.ParamTyped` cover their presence flags with an abstract conversion.
- `BindJSON`/`BindJson`/`BindXml`/`GetRawData`/`FormFile`: body I/O. `HTML`/`Redirect` of core/response.go: template execution and `http.Redirect`. `Uri`/`Method`/`Host`/`Headers`/`Header`: plain field reads. `WriteMutex`/`GetRequest`/`GetResponse`/`BaseContext`/`Deadline`/`Done`/`Err`/`Value`: accessors of Go objects.
- The `HTML` and `Text` methods of core/context.go do nothing and return nil, so they are not modelled.
- `URL.Query()` and `ParseForm`: the request carries the already parsed maps.
- The request cookies are given as already parsed from the Cookie header. `Cookies` on a nil request (a nil dereference in the Go code) is not modelled: `Request.Cookies` takes a request.
- `http.SetCookie` internals: the model records the cookie handed to it.
- Response.Context.JSONP: a failing `Write` is modelled by the number of writes the writer accepts. Error values and partial writes are not modelled.
- Strings.Upper: ASCII upper-casing only. Go's `strings.ToUpper` is Unicode-aware and can change the length of non-ASCII text.
- Strconv.Atoi: only the accept/reject decision and the value for a 64-bit `int`. Go's error kinds (syntax versus range) are not distinguished.
- Core.Core.Register: handler lists are values. Go's `append(c.middlewares, handlers...)` may write into spare capacity of the middleware slice that two routes share, so the aliasing this can cause between routes' handler lists is not modelled.
- Trie.Tree.AddRouter: nodes are positions in an arena rather than pointers. Pointer identity is represented by the position, and nodes are never removed.
- Context.Context.HasStopped: the atomic load and the mutex are not separate steps.

## Findings

| source | as written | input that shows it | evidently intended | confidence | as-written member | corrected member |
|---|---|---|---|---|---|---|
| core/context.go:125-127 | `FormInt`/`FormString` index the values of the key by `len(params)-1`, the number of form keys | post form {"a": ["1"], "b": ["x","y","z"]}: `FormString("a")` indexes position 1 of a one-element list and panics; `FormString("b")` returns "y" | `len(vals)-1`, the last value, as `QueryInt`/`QueryString` do | high, not executed | Context.Context.FormStringAsWritten, Context.Context.FormIntAsWritten, Context.FormStringAsWrittenMisreads | Context.Context.FormString, Context.Context.FormInt, Context.FormIntReadsLastNumber |
