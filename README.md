# HttpServer redirect listener, modelled in Dafny

This project models the local redirect listener of the BaseSpace Java SDK
(`com.illumina.basespace.HttpServer`). During an authorization-code login
it waits on a TCP port for the browser redirect, `GET /?code=... HTTP/1.1`.
It extracts the code from the request line and writes a short HTML page
back. Then it tells its registered `AuthCodeListener`s either that a code
arrived or that the wait timed out.

Modules, one per file:

- `JavaStrings` (`java_strings.dfy`): `String.indexOf` and `String.split`
  with a one-character pattern, following the JDK's rules. Strings are
  sequences of Dafny `char`s (Unicode scalar values), not UTF-16 code
  units; see "## Left out". When the pattern
  does not occur the result is `[s]`. Otherwise the string is cut at every
  occurrence and trailing empty pieces are dropped.
- `QueryParsing` (`query.dfy`): `getAuthCode` and `getQueryMap`. Each is a
  function that states the result, and a method (with the `getQueryMap`
  loop) proved equal to it. The result has three cases: a code (which may
  be empty), no code (`null`), or an exception.
- `Registry` (`registry.dfy`): the listener list as a sequence of listener
  handles. Also the add, remove and deliver operations, and a log of the
  callbacks made.
- `Response` (`response.dfy`): the page written back, and the loop that
  drains the request headers.
- `Session` (`session.dfy`): `run()` as a state machine. It consumes a trace
  of events: a connection with its request line, a failed connection, an
  accept timeout at a given clock value, `setRunning(false)`, and listener
  registration and removal from another thread.
- `Server` (`http_server.dfy`): the class `HttpServer` with its fields and
  methods, each proved against the functions above. `Run` is the
  `while (running)` loop over a trace of events.

### Where the code differs from the intended design

Where the code and the intended design disagree, the model follows the
code.

- The request line is not matched against an exact `GET /?` prefix and
  ` HTTP/1.1` suffix. It only has to contain both strings somewhere.
  After that, the first 6 and the last 9 characters are cut off whatever
  they are (`QueryParsing.AuthCodeOf`).
- A parameter's value is the text between its first and second `=`, not
  everything after the first `=`. A parameter with no `=`, or with an
  empty value and nothing but `=` after it, makes `getQueryMap` throw.
  Then the whole line yields no code, even when another parameter is a
  good `code` (`QueryParsing.CodeIsLastCodeParameter`).
- `code==x` yields the empty code `""`. The loop treats that as success.
- A bind failure is caught inside `run()`: no event fires, the listeners
  are cleared and `run()` returns normally (`Session.Run` with
  `bound == false`).
- The deadline multiplies `timeoutSeconds * 1000` in 32-bit `int`. Above
  2147483 seconds the product wraps around (`Session.DeadlineOverflow`).
- Suppose an exception is thrown after a code was read, while the page is
  written or the headers are drained. Then the code stays pending and the
  loop keeps running. A later accept timeout after the deadline then
  fires the timed-out event inside the loop, and the auth-code event
  after it (`Session.BothOutcomesAfterFailedResponse`). A later empty read
  or `setRunning(false)` ends the loop with the pending code delivered
  (`Session.PendingCodeDeliveredOnStop`). A later request line that
  carries no code, such as a favicon request, sets the pending code back
  to null, so the code is lost and only a timeout can end the wait
  (`Session.PendingCodeLostOnCodelessLine`). Without such failures, a run
  delivers at most one outcome (`Session.AtMostOneOutcome`).
- When a parameter has no value, `getQueryMap` throws inside
  `getAuthCode`, before anything is written. The client then gets no
  HTML page at all, not a generic error page, and the connection is
  closed (`Session.Step` leaves the state unchanged).

## Model

| member | source | states |
|---|---|---|
| JavaStrings.IndexOfFrom | src/main/java/com/illumina/basespace/HttpServer.java:159 | the result is -1 exactly when there is no occurrence at or after `from`; otherwise it is the first such occurrence |
| JavaStrings.IndexOf | src/main/java/com/illumina/basespace/HttpServer.java:159 | `indexOf` returns -1 if and only if the pattern does not occur; otherwise it returns the first occurrence |
| JavaStrings.Pieces | src/main/java/com/illumina/basespace/HttpServer.java:167 | cutting at the separator gives at least one piece; no piece holds the separator; joining the pieces with it gives back the string |
| JavaStrings.TrimTrailingEmpty | src/main/java/com/illumina/basespace/HttpServer.java:167 | the result is a prefix that does not end in an empty piece; every piece dropped was empty |
| JavaStrings.Split | src/main/java/com/illumina/basespace/HttpServer.java:167 | no element of `split`'s result holds the separator |
| JavaStrings.PiecesAfterFirst | src/main/java/com/illumina/basespace/HttpServer.java:171-172 | the text before the first separator is the first piece, followed by the pieces of the rest |
| JavaStrings.PiecesWithoutSep | src/main/java/com/illumina/basespace/HttpServer.java:167 | a string without the separator is a single piece |
| JavaStrings.PiecesOfJoin | src/main/java/com/illumina/basespace/HttpServer.java:167 | cutting is the inverse of joining pieces that are free of the separator |
| JavaStrings.SplitOfJoin | src/main/java/com/illumina/basespace/HttpServer.java:167 | `split` gives back joined pieces when none holds the separator and the last is non-empty |
| JavaStrings.PiecesAllEmpty | src/main/java/com/illumina/basespace/HttpServer.java:171-172 | all pieces are empty if and only if the string is made only of separators |
| QueryParsing.ParamPair | src/main/java/com/illumina/basespace/HttpServer.java:171-172 | `split("=")[0]` and `[1]`, or failure when `[1]` is out of range: a parameter without `=` fails; the name and value hold no `=`. It is fully characterised by `ParamPairOf` and `ParamWithoutEqualsFails` |
| QueryParsing.ParamPairReadsPieces | src/main/java/com/illumina/basespace/HttpServer.java:171-172 | `split("=")[1]` exists if and only if some piece after the first is non-empty; name and value are then the first two pieces |
| QueryParsing.ParamWithoutEqualsFails | src/main/java/com/illumina/basespace/HttpServer.java:171-172 | a parameter without `=` (such as `a` or the empty one) fails |
| QueryParsing.ParamPairOf | src/main/java/com/illumina/basespace/HttpServer.java:171-172 | for `name=value` plus a tail starting with `=`: fails if and only if the value is empty and the tail is all `=`; otherwise gives (name, value) |
| QueryParsing.MoreAfterValue | src/main/java/com/illumina/basespace/HttpServer.java:171-172 | the pieces of `name=value` plus such a tail are name, value, then pieces that are all empty if and only if the tail is all `=` |
| QueryParsing.ParamPairFromPieces | src/main/java/com/illumina/basespace/HttpServer.java:171-172 | given pieces name, value, more: the pair is (name, value) unless the value and all later pieces are empty, in which case it fails |
| QueryParsing.QueryMapOf | src/main/java/com/illumina/basespace/HttpServer.java:165-176 | building the map fails if and only if some parameter has no value |
| QueryParsing.LastValue | src/main/java/com/illumina/basespace/HttpServer.java:168-175 | the reference lookup finds a value if and only if some parameter parses with that name |
| QueryParsing.QueryMapIsLastValue | src/main/java/com/illumina/basespace/HttpServer.java:168-175 | the map holds a name if and only if some parameter has it, and maps it to the value of the last such parameter |
| QueryParsing.LastValueAt | src/main/java/com/illumina/basespace/HttpServer.java:173 | the occurrence of a name with none after it supplies the value |
| QueryParsing.LastValueSnoc | src/main/java/com/illumina/basespace/HttpServer.java:173 | a parameter appended last decides the value for its own name and leaves other names unchanged |
| QueryParsing.LastValueIgnoresOtherNames | src/main/java/com/illumina/basespace/HttpServer.java:173 | removing a parameter with another name leaves the value unchanged |
| QueryParsing.GetQueryMap | src/main/java/com/illumina/basespace/HttpServer.java:165-176 | the loop returns the map of `QueryMapOf` over the `&`-split query, or fails when a parameter lacks a value |
| QueryParsing.CodeOf | src/main/java/com/illumina/basespace/HttpServer.java:161-162 | `map.get("code")`: failure if and only if `getQueryMap` threw; no code if and only if the map has no "code" key; otherwise the value stored under "code" |
| QueryParsing.MarkersFit | src/main/java/com/illumina/basespace/HttpServer.java:157-160 | a line containing both markers has length at least 15, so `substring(6, length-9)` is in range |
| QueryParsing.AuthCodeOf | src/main/java/com/illumina/basespace/HttpServer.java:155-163 | no code unless the line contains both markers; otherwise the line has length at least 15, and the result is the code looked up in the query between the first 6 and last 9 characters |
| QueryParsing.ShortLineHasNoCode | src/main/java/com/illumina/basespace/HttpServer.java:159 | a line shorter than `GET /?` yields no code |
| QueryParsing.GetAuthCode | src/main/java/com/illumina/basespace/HttpServer.java:155-163 | the method, calling the `getQueryMap` loop, returns what `AuthCodeOf` states |
| QueryParsing.FramedLine | src/main/java/com/illumina/basespace/HttpServer.java:157-162 | for `GET /?q HTTP/1.1` exactly `q` is parsed, literally |
| QueryParsing.CodeIsLastCodeParameter | src/main/java/com/illumina/basespace/HttpServer.java:161-175 | any parameter without a value makes the request fail; otherwise the code is the value of the last `code` parameter, or there is none |
| QueryParsing.FailureIgnoresGoodParameter | src/main/java/com/illumina/basespace/HttpServer.java:169-174 | removing a parameter that parses does not change whether the query fails |
| QueryParsing.OtherParametersIgnored | src/main/java/com/illumina/basespace/HttpServer.java:165-176 | a parameter that parses and has another name never changes the result |
| QueryParsing.CodeParameterParses | src/main/java/com/illumina/basespace/HttpServer.java:171-172 | `code=c` parses to ("code", c) |
| QueryParsing.FramedParameters | src/main/java/com/illumina/basespace/HttpServer.java:155-167 | `&`-free parameters, the last non-empty, framed by the markers, are parsed exactly as given |
| QueryParsing.SingleCodeParameter | src/main/java/com/illumina/basespace/HttpServer.java:155-163 | `GET /?code=c HTTP/1.1` yields `c` |
| QueryParsing.SecondOfTwoWins | src/main/java/com/illumina/basespace/HttpServer.java:173 | of two parameters with the same name, the map keeps the second one's value |
| QueryParsing.LaterCodeWins | src/main/java/com/illumina/basespace/HttpServer.java:155-176 | `GET /?code=a&code=b HTTP/1.1` yields `b` |
| QueryParsing.DoubledEqualsGivesEmptyCode | src/main/java/com/illumina/basespace/HttpServer.java:155-176 | `GET /?code==x HTTP/1.1` yields the empty code |
| Registry.Added | src/main/java/com/illumina/basespace/HttpServer.java:187-190 | after adding, the listener is in the list; the members are the old ones plus it; the old list is a prefix; no duplicates are introduced |
| Registry.AddIsIdempotent | src/main/java/com/illumina/basespace/HttpServer.java:187-190 | adding twice is the same as adding once |
| Registry.RemoveFirst | src/main/java/com/illumina/basespace/HttpServer.java:191-194 | removing an absent listener changes nothing; otherwise exactly one occurrence goes (length and multiset) |
| Registry.Without | src/main/java/com/illumina/basespace/HttpServer.java:191-194 | the reference filter leaves the listener absent and keeps every other member |
| Registry.WithoutAbsent | src/main/java/com/illumina/basespace/HttpServer.java:193 | filtering out an absent listener leaves the list as it is |
| Registry.RemoveKeepsOthersInOrder | src/main/java/com/illumina/basespace/HttpServer.java:191-194 | on a duplicate-free list, removal equals the order-keeping filter and leaves no duplicates |
| Registry.WithoutKeepsNoDup | src/main/java/com/illumina/basespace/HttpServer.java:191-194 | filtering never introduces a duplicate |
| Registry.Deliver | src/main/java/com/illumina/basespace/HttpServer.java:202-216 | firing makes one delivery per listener, in list order, all with the same event |
| Registry.NotificationsAppend | src/main/java/com/illumina/basespace/HttpServer.java:202-216 | the callback count of a log grown by appending is the sum of the counts |
| Registry.DeliveredOncePerListener | src/main/java/com/illumina/basespace/HttpServer.java:202-216 | on a duplicate-free list, firing tells each registered listener once and an unregistered one never |
| Registry.RegisteredTwiceNotifiedOnce | src/main/java/com/illumina/basespace/HttpServer.java:187-190 | a listener added twice is told exactly once |
| Registry.UnregisteredNotNotified | src/main/java/com/illumina/basespace/HttpServer.java:191-194 | a removed listener is not told |
| Response.Blanks | src/main/java/com/illumina/basespace/HttpServer.java:96-100 | `n` empty lines |
| Response.LeadingNonEmpty | src/main/java/com/illumina/basespace/HttpServer.java:96-100 | the header lines before the first empty one: all non-empty, followed by an empty line or by end of input |
| Response.Page | src/main/java/com/illumina/basespace/HttpServer.java:86-102 | the page has `6 + drained` lines: status, content type, blank line, opening tags, then the success or error text, `drained` empty lines, and the closing tags |
| Response.WriteResponse | src/main/java/com/illumina/basespace/HttpServer.java:82-103 | the page is the status, content type, blank line, opening tags, success or error text, one blank line per drained header, and the footer; the reads stop after the first empty header line or at end of input |
| Response.DrainStopsAt | src/main/java/com/illumina/basespace/HttpServer.java:96-100 | the drain count is fixed by the position of the first empty line |
| Session.Wrap32 | src/main/java/com/illumina/basespace/HttpServer.java:68 | Java `int` arithmetic: in the signed 32-bit range, congruent modulo 2^32, and identity inside the range |
| Session.Deadline | src/main/java/com/illumina/basespace/HttpServer.java:68 | for timeouts up to 2147483 seconds the deadline is start plus the timeout in milliseconds |
| Session.DeadlineOverflow | src/main/java/com/illumina/basespace/HttpServer.java:68 | a timeout of 2147484 seconds wraps to a deadline about 24.8 days in the past |
| Session.Step | src/main/java/com/illumina/basespace/HttpServer.java:72-137 | one turn: `running` never goes back to true; a delivery happens only on a late timeout (timed-out, to every listener); the list stays duplicate-free; without a failed response no code is left pending while running |
| Session.Drive | src/main/java/com/illumina/basespace/HttpServer.java:70-138 | the loop only turns `running` off, only extends the log, and keeps the list duplicate-free |
| Session.Finish | src/main/java/com/illumina/basespace/HttpServer.java:139-151 | after the loop, a pending code is delivered to every listener in list order (and nothing otherwise), then the listener list is empty; `running` and the code are unchanged |
| Session.Run | src/main/java/com/illumina/basespace/HttpServer.java:53-153 | whenever `run()` returns, the listener list is empty |
| Session.DriveAppend | src/main/java/com/illumina/basespace/HttpServer.java:70-138 | running the loop over two traces in turn equals running it over their concatenation |
| Session.DriveFaultFree | src/main/java/com/illumina/basespace/HttpServer.java:70-138 | without failed responses, either nothing is delivered, or the loop stopped on a timeout with no code pending, having told the current listeners once |
| Session.DeliverIsOneOutcome | src/main/java/com/illumina/basespace/HttpServer.java:202-216 | firing at a duplicate-free list is one outcome, to distinct listeners |
| Session.AtMostOneOutcome | src/main/java/com/illumina/basespace/HttpServer.java:67-142 | without failed responses, a run delivers a single outcome, and at most once to each listener |
| Session.CodeEndsRun | src/main/java/com/illumina/basespace/HttpServer.java:77-142 | a line yielding code `c` stops the loop: later events are ignored, each listener gets `c` once, and the list is emptied |
| Session.CodeToldOncePerListener | src/main/java/com/illumina/basespace/HttpServer.java:139-142 | over the whole run, a listener registered when the code arrives gets exactly one more callback; any other listener gets none |
| Session.LateTimeoutEndsRun | src/main/java/com/illumina/basespace/HttpServer.java:110-118 | a timeout after the deadline with no code pending stops the loop and tells every listener once that it timed out, with no auth-code event |
| Session.StopIsSilent | src/main/java/com/illumina/basespace/HttpServer.java:70-151 | `setRunning(false)` with no code pending ends the run with no delivery and an empty list |
| Session.InertEventsChangeNothing | src/main/java/com/illumina/basespace/HttpServer.java:72-122 | with no code pending, none of these changes the state: an empty read, a failed connection, a line without a code or one that fails to parse, or a timeout before the deadline |
| Session.PendingCodeDeliveredOnStop | src/main/java/com/illumina/basespace/HttpServer.java:80-142 | a code read before the response fails, followed by `setRunning(false)`, delivers that code once to the listener |
| Session.PendingCodeLostOnCodelessLine | src/main/java/com/illumina/basespace/HttpServer.java:80-142 | a code read before the response fails, then a line without a code, then a late timeout: the listener only hears that the wait timed out |
| Session.BothOutcomesAfterFailedResponse | src/main/java/com/illumina/basespace/HttpServer.java:80-142 | a code read before the response fails, followed by a late timeout, makes the same listener receive timed-out and then the code |
| Server.HttpServer.constructor | src/main/java/com/illumina/basespace/HttpServer.java:47-51 | a new server is running, with no listeners and the given port and timeout |
| Server.HttpServer.SetRunning | src/main/java/com/illumina/basespace/HttpServer.java:182-185 | sets `running` and nothing else |
| Server.HttpServer.AddAuthCodeListener | src/main/java/com/illumina/basespace/HttpServer.java:187-190 | the list becomes `Added` of the old list and stays duplicate-free |
| Server.HttpServer.RemoveAuthCodeListener | src/main/java/com/illumina/basespace/HttpServer.java:191-194 | the list becomes the old list with that listener removed, the others in order |
| Server.HttpServer.RemoveAllAuthCodeListeners | src/main/java/com/illumina/basespace/HttpServer.java:195-201 | removing index 0 until none are left empties the list and changes nothing else |
| Server.HttpServer.Notify | src/main/java/com/illumina/basespace/HttpServer.java:202-216 | the loop appends one delivery per listener, in list order, and changes nothing else |
| Server.HttpServer.FireAuthCodeEvent | src/main/java/com/illumina/basespace/HttpServer.java:202-208 | every listener receives the code, in list order |
| Server.HttpServer.FireTimedOutEvent | src/main/java/com/illumina/basespace/HttpServer.java:209-216 | every listener is told of the timeout, in list order |
| Server.HttpServer.Run | src/main/java/com/illumina/basespace/HttpServer.java:53-153 | the loop leaves the fields exactly as `Session.Run` states for the trace, and returns exactly when `run()` would return within the trace |

## Left out

- QueryParsing.AuthCodeOf: the first 6 and last 9 characters cut off by `substring` are counted in Unicode scalar values, not Java's UTF-16 code units. A line with a character outside the Basic Multilingual Plane among those characters therefore gives a different query than Java. The markers and separators are ASCII, so `indexOf` and `split` are unaffected.
- Sockets and streams are replaced by events: binding, `accept`, `readLine`, writing, flushing and closing in `finally`. Each event carries what the loop sees: the request line, or a missing one at end of input; whether the response threw; and accept timeouts.
- The page written on a connection is modelled by `Response.WriteResponse`, but it is not recorded in the `run` state.
- `System.currentTimeMillis()` becomes a parameter: the start time given to `Run` and the `now` of each accept timeout.
- The 500 ms accept poll (`setSoTimeout(500)`) is not modelled. Timeouts are events in the trace.
- Concurrency is not modelled. The loop runs on its own thread and the list is a `Collections.synchronizedList`. The model treats calls from other threads (`setRunning`, add, remove) as events applied atomically between two turns of the loop.
- The listeners' own callback code is not modelled, including anything it throws or any change it makes to the list while it is being walked. A callback is recorded as a (listener, event) log entry.
- Logging and `printStackTrace` are left out; they are output only.
- `isRunning` is left out: it only reads the field.
- Session.Deadline: the `long` addition of the clock and the wrapped product is taken as unbounded, because a `long` overflow would need a clock near 2^63 ms.
- Session.AtMostOneOutcome: stated only for traces in which no connection reads a code and then fails while answering. Failing connections whose line carries no code are allowed. `Session.BothOutcomesAfterFailedResponse` shows the code as written can fire both events otherwise.
- Session.Run: calls that arrive after `run()` has returned are not modelled. The state after a trace that does not reach the end of the loop is the state still waiting.
- The constructor does not check the port range, and the model does not either.
- `TestBaseSpaceConfiguration.java` is not part of this model. It only returns fixed strings and the port 7777.
