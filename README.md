# Kvantum socket admission and Cookie header parsing, in Dafny

This project models two pieces of the Kvantum HTTP server.

**The socket handler** (`SocketHandler`) decides which incoming connections the server serves.
- At construction it reads a settings file named `socketFilters`. For each entry of its static filter map it writes a default setting when none exists. The key `"1isActive"` gives setting `isActive` with default `true`. The key `"0all"` gives setting `all` with default `false`. The filters whose setting reads back as `true` make up the filter chain.
- `acceptSocket` runs the chain in order. The first filter that turns the context away wins, and the connection is torn down. Otherwise the context is tracked and one pipeline task is handed to the worker pool.
- `breakSocketConnection` closes the socket when it is active at that moment and clears its temp files when it has a manager. It swallows failures of either step, then stops tracking the context.
- `handleShutdown` is meant to tear every tracked context down, call `shutdownNow` on the pool and wait up to ten seconds. As written, it throws after the first teardown when two or more contexts are tracked (see Findings).

A socket context is an object whose socket can close at any time. The handler therefore tracks contexts by identity, and every call receives the context's state at that moment: its identity, whether its socket is active, and whether it has a temp-file manager. Shutdown receives the state of every context as a function from identity to state.

The handler is the class `SocketHandling.SocketHandler`. Its fields are:
- the filter chain;
- the identities of the tracked contexts;
- the pipeline tasks submitted to the pool since it was created or last shut down;
- whether the pool was shut down;
- two ghost fields: a log of closes and temp-file clears, and the settings as last saved.

**The Cookie parser** (`CookieManager.getCookies`) turns the raw value of a request's `Cookie` header into a list multimap from cookie name to cookies. It removes the first space anywhere in the header and splits the rest on `"; "`. Each piece is split on `"="`. Java's `String.split` is modelled exactly: with no match it gives the whole string, and otherwise it drops trailing empty strings. The imperative `GetCookies` is proved equal to the function `ParseCookies`, and the properties are proved about that function.

Files:
- `wrappers.dfy`: `Option` and `Result`.
- `java_strings.dfy`: `String.indexOf`, `split`, `join` and `replaceFirst` on a single character.
- `cookie_manager.dfy`: the parser.
- `socket_filters.dfy`: the filters, the filter map, the default settings and the chain build.
- `socket_handler.dfy`: the handler class.
- `scenarios.dfy`: client code that drives the handler through a fresh settings file, admission and shutdown.

## Model

| member | source | states |
|---|---|---|
| SocketFilters.Admits | Implementation/src/main/java/xyz/kvantum/server/implementation/SocketHandler.java:47-48 | a filter admits a context only if it is the isActive filter and the context is active |
| SocketFilters.FilterDecisions | Implementation/src/main/java/xyz/kvantum/server/implementation/SocketHandler.java:47-48 | the isActive filter admits a context exactly when it is active; the `all` filter admits no context |
| SocketFilters.CatalogKeys | Implementation/src/main/java/xyz/kvantum/server/implementation/SocketHandler.java:54-55 | the filter map keys name the settings `isActive` (default true) and `all` (default false), and no two keys name the same setting |
| SocketFilters.ApplyDefaults | Implementation/src/main/java/xyz/kvantum/server/implementation/SocketHandler.java:76-77 | setIfNotExists over the map keeps every existing setting and its value, adds a setting for every key, and adds nothing else |
| SocketFilters.ApplyDefaultsWritesDefaults | Implementation/src/main/java/xyz/kvantum/server/implementation/SocketHandler.java:76-77 | a setting that was absent receives the default its key encodes (first character `'1'` means true) |
| SocketFilters.FreshDefaults | Implementation/src/main/java/xyz/kvantum/server/implementation/SocketHandler.java:75-78 | a settings file without either setting is saved with isActive = true and all = false, and is otherwise unchanged |
| SocketFilters.BuildChain | Implementation/src/main/java/xyz/kvantum/server/implementation/SocketHandler.java:79-85 | the chain holds exactly the filters whose setting is true and whose earlier settings all read back as booleans; the build completes exactly when every setting reads back as a boolean; otherwise it keeps the filters added before the failing read |
| SocketFilters.BuildChainStops | Implementation/src/main/java/xyz/kvantum/server/implementation/SocketHandler.java:79-85 | once a read has thrown, the rest of the map adds no filter |
| SocketFilters.CatalogChain | Implementation/src/main/java/xyz/kvantum/server/implementation/SocketHandler.java:79-81 | the chain for any settings, written out for the two map entries |
| SocketFilters.DefaultChain | Implementation/src/main/java/xyz/kvantum/server/implementation/SocketHandler.java:79-81 | with isActive = true and all = false the chain is the isActive filter alone |
| SocketFilters.FreshConfiguration | Implementation/src/main/java/xyz/kvantum/server/implementation/SocketHandler.java:75-81 | a fresh settings file yields the chain [isActive], which admits exactly the active contexts |
| SocketFilters.EnableSocketRejectsAll | Implementation/src/main/java/xyz/kvantum/server/implementation/SocketHandler.java:48 | with `all` enabled, every context is turned away |
| SocketFilters.FirstReject | Implementation/src/main/java/xyz/kvantum/server/implementation/SocketHandler.java:104-111 | the index found rejects the context and every earlier filter admits it; no index is found exactly when the whole chain admits the context |
| SocketFilters.FirstRejectAt | Implementation/src/main/java/xyz/kvantum/server/implementation/SocketHandler.java:104-111 | a rejecting filter preceded only by admitting ones is the one the loop stops at |
| SocketFilters.AdmittedEach | Implementation/src/main/java/xyz/kvantum/server/implementation/SocketHandler.java:104-112 | a chain admits a context exactly when each of its filters does |
| SocketFilters.RejectIffSomeFilterRejects | Implementation/src/main/java/xyz/kvantum/server/implementation/SocketHandler.java:104-111 | a chain turns a context away exactly when some filter in it does, whatever the order |
| SocketHandling.WriteDefaults | Implementation/src/main/java/xyz/kvantum/server/implementation/SocketHandler.java:76-77 | the forEach over the map computes ApplyDefaults |
| SocketHandling.ReadFilters | Implementation/src/main/java/xyz/kvantum/server/implementation/SocketHandler.java:79-81 | the stream over the map adds BuildChain's filters, stopping at the first setting that cannot be read |
| SocketHandling.SocketHandler.constructor | Implementation/src/main/java/xyz/kvantum/server/implementation/SocketHandler.java:63-86 | nothing is tracked or queued; if loading or saving the settings throws, the chain is empty; otherwise the defaults are saved and the chain is the one built from them |
| SocketHandling.SocketHandler.AcceptSocket | Implementation/src/main/java/xyz/kvantum/server/implementation/SocketHandler.java:102-119 | rejected exactly when the chain does not admit the context, at the first rejecting filter, and then torn down, untracked and nothing queued; otherwise tracked, and one pipeline task appended unless the pool is shut down (then the submit is refused after tracking); the chain and pool are unchanged |
| SocketHandling.SocketHandler.BreakSocketConnection | Implementation/src/main/java/xyz/kvantum/server/implementation/SocketHandler.java:122-145 | the context's identity leaves the tracked set and no other identity does, whatever the context's state when it was admitted and whether or not closing or clearing throws; the log gains exactly its teardown for its state now |
| SocketHandling.TeardownEventsSpec | Implementation/src/main/java/xyz/kvantum/server/implementation/SocketHandler.java:122-143 | a teardown closes the socket exactly when the context is active, clears temp files exactly when it has a manager, touches only that context, and closes before it clears |
| SocketHandling.SocketHandler.BreakAll | Implementation/src/main/java/xyz/kvantum/server/implementation/SocketHandler.java:153 | every tracked context is torn down once, in some order, in its state at shutdown, and the tracked set ends empty |
| SocketHandling.SocketHandler.HandleShutdown | Implementation/src/main/java/xyz/kvantum/server/implementation/SocketHandler.java:148-166 | every context tracked at the start is torn down exactly once, the set ends empty, queued tasks are discarded, the pool is shut down, and the wait is the lesser of the drain time and ten seconds |
| SocketHandling.ShutdownEventsSpec | Implementation/src/main/java/xyz/kvantum/server/implementation/SocketHandler.java:153 | during shutdown a context's socket is closed exactly when it was tracked and is active at shutdown, and its temp files cleared exactly when it was tracked and has a manager |
| SocketHandling.SocketHandler.HandleShutdownAsWritten | Implementation/src/main/java/xyz/kvantum/server/implementation/SocketHandler.java:148-166 | with no tracked context it only shuts the pool down; otherwise one tracked context is torn down first, and the log gains exactly its teardown; with exactly one, the pool is then shut down, its queued tasks dropped and the wait bounded by ten seconds; with two or more, a ConcurrentModificationException escapes, the others stay tracked and the pool is never shut down |
| JavaStrings.IndexOf | ServerAPI/src/main/java/com/github/intellectualsites/iserver/api/views/CookieManager.java:59 | the leftmost occurrence at or after the start, or none exactly when there is no occurrence there |
| JavaStrings.DropTrailingEmpty | ServerAPI/src/main/java/com/github/intellectualsites/iserver/api/views/CookieManager.java:59 | the result is a prefix, everything dropped is empty, and the result does not end in an empty string |
| JavaStrings.JoinPieces | ServerAPI/src/main/java/com/github/intellectualsites/iserver/api/views/CookieManager.java:59 | the raw pieces of a split, joined with the separator, give the string back |
| JavaStrings.PiecesFree | ServerAPI/src/main/java/com/github/intellectualsites/iserver/api/views/CookieManager.java:59 | no piece contains the separator |
| JavaStrings.PiecesOfJoin | ServerAPI/src/main/java/com/github/intellectualsites/iserver/api/views/CookieManager.java:59 | joining pieces that lack the separator's first character and splitting again gives those pieces |
| JavaStrings.Split | ServerAPI/src/main/java/com/github/intellectualsites/iserver/api/views/CookieManager.java:59 | String.split with a literal separator and limit 0; what it promises is stated by SplitSpec |
| JavaStrings.SplitSpec | ServerAPI/src/main/java/com/github/intellectualsites/iserver/api/views/CookieManager.java:59 | a string without the separator comes back alone; otherwise the raw pieces with only trailing empty strings removed, the last piece kept not empty; no piece holds the separator |
| JavaStrings.SplitOnChar | ServerAPI/src/main/java/com/github/intellectualsites/iserver/api/views/CookieManager.java:66 | split on a character absent from the string gives the string alone, and otherwise the pieces with trailing empty ones dropped |
| JavaStrings.PiecesAllEmpty | ServerAPI/src/main/java/com/github/intellectualsites/iserver/api/views/CookieManager.java:66 | splitting on a character gives only empty pieces exactly when the string is made of that character |
| JavaStrings.RemoveFirst | ServerAPI/src/main/java/com/github/intellectualsites/iserver/api/views/CookieManager.java:57 | replaceFirst of one character: a string without it is unchanged, otherwise exactly one occurrence of it is removed and every other character kept |
| JavaStrings.RemoveFirstSpec | ServerAPI/src/main/java/com/github/intellectualsites/iserver/api/views/CookieManager.java:57 | replaceFirst deletes exactly the first occurrence of the character, wherever it stands, and leaves a string without it unchanged |
| CookieManager.ParseCookies | ServerAPI/src/main/java/com/github/intellectualsites/iserver/api/views/CookieManager.java:52-55 | an empty header gives the empty multimap |
| CookieManager.GetCookies | ServerAPI/src/main/java/com/github/intellectualsites/iserver/api/views/CookieManager.java:46-77 | the loop that reassigns the header, splits it and puts piece by piece computes ParseCookies |
| CookieManager.PutAll | ServerAPI/src/main/java/com/github/intellectualsites/iserver/api/views/CookieManager.java:61-74 | succeeds exactly when every piece parses; then one entry per piece, in piece order, each holding that piece's cookie under the cookie's own name |
| CookieManager.HeaderPieces | ServerAPI/src/main/java/com/github/intellectualsites/iserver/api/views/CookieManager.java:57-59 | no piece holds the "; " separator, and a header without any space is a single piece |
| CookieManager.ParsePiece | ServerAPI/src/main/java/com/github/intellectualsites/iserver/api/views/CookieManager.java:66-73 | a piece without '=' is a cookie named by the whole piece with an empty value; the full behaviour is stated by ParsePieceSpec |
| CookieManager.ParsePieceSpec | ServerAPI/src/main/java/com/github/intellectualsites/iserver/api/views/CookieManager.java:66-73 | a piece fails exactly when it is made only of '='; otherwise the name is the text before the first '=' and the value the text up to the second '=', empty when there is none |
| CookieManager.ParseCookiesSpec | ServerAPI/src/main/java/com/github/intellectualsites/iserver/api/views/CookieManager.java:57-74 | a non-empty header fails exactly when one of its pieces is only '='; otherwise one entry per piece, in order, with that piece's name and value |
| CookieManager.EdgePieces | ServerAPI/src/main/java/com/github/intellectualsites/iserver/api/views/CookieManager.java:66-72 | the header "=" fails on `subPieces[0]`; a lone space gives one cookie with empty name and value |
| CookieManager.RoundTrip | ServerAPI/src/main/java/com/github/intellectualsites/iserver/api/views/CookieManager.java:57-74 | a header of well-formed cookies, written with the usual leading space and "; " separators, parses back to exactly those cookies in order |
| CookieManager.DuplicatesKept | ServerAPI/src/main/java/com/github/intellectualsites/iserver/api/views/CookieManager.java:61-74 | looking a name up gives every cookie sent under that name, in the order sent |
| CookieManager.SeparatorSpaceRemoved | ServerAPI/src/main/java/com/github/intellectualsites/iserver/api/views/CookieManager.java:57-59 | without a leading space the first separator loses its space, so two cookies merge into one whose value is the first value, ';' and the second name |

## Left out

- The worker pool's threads, timing and capacity are not modelled. The pool is the list of tasks submitted since it was created or last shut down, and `shutdownNow` empties it. No task is ever started. `awaitTermination` is a wait of `Min(drain time, 10)` seconds, where the drain time is a parameter.
- Being interrupted during `awaitTermination` is not modelled, and neither is the caught `InterruptedException`.
- `execute` after `shutdownNow` throws `RejectedExecutionException`, which escapes `acceptSocket`. The model returns `ExecutionRejected` after the context has been added to the tracked set.
- Loading and saving the YAML settings file is not modelled. The stored settings are a parameter, and each I/O failure is a boolean flag.
- The path of the settings file, which comes from the server's core folder, is not modelled.
- `getSocketFilters` (lines 88-99) reads static fields by reflection and holds no logic to state, so it is not modelled.
- Logging and `printStackTrace` are not modelled.
- `KvantumPipeline` is not part of this model. A submitted task only names the context it will run on.
- The internals of `SocketContext`, its socket and its temp-file manager are not part of this model. The handler sees a context as an identity, and each call is given its current state: an active flag and a flag for having a manager. A failure while closing or clearing is a parameter of the call, and it is recorded in the log entry.
- `HashSet` membership is modelled as the identity of the context. This assumes `SocketContext` keeps `Object`'s `equals`. That class is not part of this model.
- The log records closes and temp-file clears, not the individual filter calls. That the loop stops at the first rejecting filter is stated through `FirstReject`.
- The iteration order of the `HashMap` filter map is fixed as isActive before all. This is the order Java's `HashMap` gives these two keys; it is written into the model, not derived.
- Settings are a map from name to either a boolean or some other value. A setting that is missing or not a boolean makes the unboxing in the stream throw. The catch then keeps the filters added so far.
- `Assert.isValid` and `Request.getHeader` are not modelled. The raw header value is the parser's input, and a missing header is not modelled.
- `replaceFirst` takes a regular expression. Only the single-space pattern the parser uses is modelled.
- The Guava multimap is modelled as its sequence of puts. `Get` returns the values of one key in put order, which is what a list multimap keeps. The expected-keys size hint is not modelled.
- CookieManager.ParseCookies: for an empty header the source returns the shared static multimap `EMPTY_COOKIES` (lines 38 and 54). It is a mutable `ArrayListMultimap`, so a caller's `put` into it changes what every later empty-header call returns. The model returns a fresh empty multimap and does not capture this aliasing.
- SocketHandling.SocketHandler.HandleShutdownAsWritten: states which context the failed forEach tore down only as some tracked context. It does not say which one, because `HashSet` iteration order is not modelled.

## Findings

| source | as written | input that shows it | evidently intended | confidence | as-written member | corrected member |
|---|---|---|---|---|---|---|
| Implementation/src/main/java/xyz/kvantum/server/implementation/SocketHandler.java:153 | `socketContexts.forEach(this::breakSocketConnection)` removes each context from the `HashSet` it is iterating. Its fail-fast iterator throws `ConcurrentModificationException` after the first teardown, and `shutdownNow` at line 160 is never reached | two tracked active contexts, then `handleShutdown` | tear down every tracked context, by iterating over a snapshot, then shut the pool down | high, not executed | SocketHandling.SocketHandler.HandleShutdownAsWritten | SocketHandling.SocketHandler.HandleShutdown |
