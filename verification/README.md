# DAQs, verified

DAQs is a data-acquisition server. Clients add variables, save readings of them and ask for lists of
variables or of readings, over TCP. This project models the server and its client in Dafny and proves
what they promise each other, for every input and every run.

* **Compression** (`Compression.dfy`, `CompressionLaws.dfy`). `DataAccess::compress` turns n readings
  into m averages. The method is the code's two passes over iterators, with every dereference checked.
  It is proved equal to an even split that is defined without the code's arithmetic, and the split is
  proved to be the only fair one, to conserve the total, and to keep values and timestamps where they
  belong. The code does not always deliver: when m divides n and n/m exceeds m it reads past the end of
  its input. That condition is proved exact.
* **Wire format** (`Wire.dfy`, `Messages.dfy`, `Protocol.dfy`). The Protocol Buffers encoding of every
  message and the frame `MetaHeader | Header | Body`, byte by byte, following the Protocol Buffers
  Encoding document (sections "Base 128 Varints", "Message Structure" and "Length-Delimited Records").
  The later proofs use the encoding through a `Codec` with stated properties, and the concrete encoding
  is proved to have them.
* **Store** (`Store.dfy`, `Catalog.dfy`, `DataAccess.dfy`, `Times.dfy`). `SQLiteWrapper` as an object
  with two tables and their sequences, each statement by its effect. Any history of statements is proved
  to be that of a plain ordered map from names to a color and readings.
* **Server** (`Sessions.dfy`, `Server.dfy`, `Invariants.dfy`, `Linearization.dfy`, `Alignment.dfy`,
  `Progress.dfy`). Sessions are chains of handlers over a transition system whose actions are: a peer
  connects, sends a request or any other bytes, bytes arrive, an operation succeeds, an operation fails.
  `Server.dfy` has the server's objects, whose methods are proved to make these steps. The invariants and
  linearizability hold in every run, with failures and arbitrary bytes. That sessions stay on frame
  boundaries, and answer everything, holds in every run without transport failures whose peers send frames.
* **Client** (`Client.dfy`, `Mirror.dfy`, `ClosedLoop.dfy`, `LoopProgress.dfy`). The request writers, the
  frame reader with its loop over short reads, and the mirror of the list of variables. The closed loop of
  client, mirror and session is proved to keep the mirror equal to the store's list at its last refresh,
  to ask for a refresh behind every addition, and to come to rest in every continuation without new
  requests of the user, as long as anything that concerns the session keeps happening.

Some choices that matter when reading the statements:

* Undefined behaviour is an outcome of its own: `Fault` in compress, `Faulted` in a fetch, `Crash` for
  the process. Nothing is claimed about a process after a crash.
* Handlers ignore the result of `ParseFromArray`. Wherever the input is refused, the fields that it
  leaves are an arbitrary part of the action (`Oracle`, `Leftovers`), so that the theorems about all
  runs hold for any such leftovers. An enum is narrowed to 32 bits, and a value that the schema does not
  list counts as absent.
* A double is a real number in the store and a 64-bit pattern on the wire. `Doubles` holds the two
  conversions, with the rounding of `%f` inside, and all theorems hold for any such pair.
* A millisecond count that a time point cannot express overflows; the model lets it wrap around. Since
  every time point converts to an expressible count, no other outcome could make such a count survive.
* `std::numeric_limits<size_t>::infinity()` is 0, so a limit of 0 means no limit.
* In `Linearization.LogOf` a request enters the global order when its handler runs.

Where code and documentation disagree the model follows the code. `idatasource.h:93` promises the index
of each variable, but `fetch_variables` always passes 0: `Catalogs.SecondVariableHasIndex0` has the
failing history, and `Store.CallsAreNumbered` says exactly when the promise holds. The tests of compress
ask for exactly the given number of averages, which the code delivers only on the lengths stated by
`Compression.FaultsExactlyOffSound`.

## Model

| member | source | states |
|---|---|---|
| Compression.Compress | src/database-server/data-access/dataaccess.cc:54-94 | The loop code, with checked reads, ends on every input and every length as `Compressed` says: m averages of the even split, a refused length, or a read outside the input |
| Compression.ApplyCompression | src/database-server/data-access/dataaccess.cc:63-83 | One pass appends the averages of consecutive chunks, and faults exactly when one of its reads (a summed element or a middle element) falls outside the input |
| Compression.SumRange | src/database-server/data-access/dataaccess.cc:75-77 | The accumulation over [begin, end) gives the sum of that slice, and faults exactly when the slice ends outside the input |
| Compression.BothPasses | src/database-server/data-access/dataaccess.cc:88-92 | The two calls with given sizes and amounts, the second amount by subtraction on size_t: the outputs of both, or a fault exactly when one of them leaves the input |
| Compression.PassSizes | src/database-server/data-access/dataaccess.cc:84-92 | The sizes and amounts of both passes, and the offset of the second, in terms of dealing n items to m chunks; ceiling division included |
| Compression.FaultsExactlyOffSound | src/database-server/data-access/dataaccess.cc:84-92 | A call succeeds if and only if the length is accepted, n >= m >= 1, and m does not divide n or n/m <= m; otherwise it faults |
| CompressionLaws.ReadsStayInsideExactlyWhenSound | src/database-server/data-access/dataaccess.cc:84-92 | That condition is tight: it holds if and only if every single read of both passes lies inside the input and the second amount does not underflow |
| CompressionLaws.FaultExamples | src/database-server/data-access/dataaccess.cc:86-90 | Concrete failures: 100 readings into 5, and 14520 readings into 120 |
| CompressionLaws.UnsafeLengthsOf120 | src/database-server/session.h:104 | For the server's limit the failing lengths are the multiples of 120 from 14520 on, and no others |
| CompressionLaws.EvenCutIsUnique | src/database-server/data-access/dataaccess.cc:84-92 | The chunk boundaries are the one and only cut of 0..n-1 into m consecutive chunks, larger ones first, whose sizes differ by at most one |
| CompressionLaws.ChunksCoverInput | src/database-server/data-access/dataaccess.cc:63-93 | Every reading falls in exactly one chunk |
| CompressionLaws.TotalIsConserved | src/database-server/data-access/dataaccess.cc:72-82 | There are exactly m outputs, and weighted by chunk size they add up to the sum of all inputs |
| CompressionLaws.OutputStandsForItsChunk | src/database-server/data-access/dataaccess.cc:72-82 | Each output lies between two readings of its own chunk and carries the timestamp of the chunk's middle reading |
| CompressionLaws.CompressKeepsTimeOrder | src/database-server/data-access/dataaccess.cc:66-82 | Readings in time order give averages in time order |
| DataAccesses.DataAccess.FetchVariableValues | src/database-server/data-access/dataaccess.cc:107-155 | Both fetches: the callback loop followed by compress gives the limited fetch, for every table, name, range and limit |
| DataAccesses.DataAccess.FetchAllVariables | src/database-server/data-access/dataaccess.cc:96-105 | The callback loop collects all variables in row order, or reports the failure |
| DataAccesses.LimitedFetchLength | src/database-server/data-access/dataaccess.cc:131-155 | All matching readings if there is no limit or they fit; exactly max_len otherwise, or none if no vector has that length; no defined result if and only if their number is a multiple of max_len above its square |
| DataAccesses.LimitedFetchStamp | src/database-server/data-access/dataaccess.cc:131-155 | Every reading of a limited fetch carries the timestamp of a stored reading of that variable within the range |
| DataAccesses.LimitedFetchOrder | src/database-server/data-access/dataaccess.cc:131-155 | Timestamps come out in order when the rows were stored in order |
| DataAccesses.LimitedFetchConserves | src/database-server/data-access/dataaccess.cc:107-155 | A fetch that shortens gives averages: weighted by the chunk sizes of the even cut, they add up to the sum of all matching readings |
| DataAccesses.LimitedFetchAverages | src/database-server/data-access/dataaccess.cc:107-155 | Its reading k lies between two readings of chunk k and carries the timestamp of the chunk's middle reading |
| DataAccesses.LimitedIsAverage | src/database-server/data-access/dataaccess.cc:63-83 | Exactly: the total of chunk k divided by its size, without a name |
| Store.SQLiteWrapper.CreateTables | src/database-server/data-source/sqlitewrapper.cc:66-96 | Creates the empty schema once; a second call fails and changes nothing |
| Store.SchemaOnlyOnce | src/database-server/data-source/sqlitewrapper.cc:66-96 | Creating the schema succeeds exactly when it is not there, and then fails |
| Store.SQLiteWrapper.Lookup | src/database-server/data-source/sqlitewrapper.cc:121 | The sub-select by name gives the id of the first row with that name, or NULL |
| Store.SQLiteWrapper.InsertVariable | src/database-server/data-source/sqlitewrapper.cc:98-111 | A new name gets the next id; a taken name, or a missing schema, fails and changes nothing |
| Store.SQLiteWrapper.InsertValue | src/database-server/data-source/sqlitewrapper.cc:113-129 | A known name gets a reading stamped by the clock; an unknown name fails and changes nothing |
| Store.SQLiteWrapper.SelectVariables | src/database-server/data-source/sqlitewrapper.cc:131-173 | One callback per row in row order, with the indices of `VariableCalls`, which are all 0 |
| Store.CallsAreNumbered | src/database-server/data-source/sqlitewrapper.cc:162-163 | The documented index, that of the variable, is what every callback gets if and only if there are not two variables |
| Catalogs.SecondVariableHasIndex0 | src/database-server/data-source/sqlitewrapper.cc:162-163 | A failing history: the schema and any two variables, the second of which gets index 0 |
| Store.SQLiteWrapper.SelectValues | src/database-server/data-source/sqlitewrapper.cc:181-340 | One callback per matching row in row order, with indices 0, 1, 2, ... in both the ranged and the unranged query, whose bounds go through two casts |
| Store.SQLiteWrapper.Count | src/database-server/data-source/sqlitewrapper.cc:235-388 | The count is the number of matching row positions, ranged and unranged |
| Store.FetchedReading | src/database-server/data-source/sqlitewrapper.cc:181-340 | Fetched reading k is that of the matching row with k matching rows before it: its value, its timestamp as an unsigned number, and no name |
| Store.AddVariableKeepsValid | src/database-server/data-source/sqlitewrapper.cc:70-73 | Ids stay increasing, names unique and references resolved; rows are only appended; a refusal changes nothing |
| Store.AddValueKeepsValid | src/database-server/data-source/sqlitewrapper.cc:76-81 | The same for readings: every VARIABLE_ID resolves to an existing variable |
| Store.CountIsNumberSelected | src/database-server/data-source/sqlitewrapper.cc:235-388 | Every count equals the number of rows that the matching fetch selects |
| Store.CountsAddUp | src/database-server/data-source/sqlitewrapper.cc:342-388 | Counts over [a,b] and [b+1,c] add up to the count over [a,c] |
| Store.CStr | src/database-server/data-source/sqlitewrapper.cc:99-122 | A text argument reaches the database as its prefix before the first zero byte |
| Catalogs.AddVariableRefines | src/database-server/data-source/sqlitewrapper.cc:98-111 | Inserting a variable into the tables is adding a name to an ordered map |
| Catalogs.AddValueRefines | src/database-server/data-source/sqlitewrapper.cc:113-129 | Inserting a value through the sub-select appends to the readings of exactly one name of the map |
| Catalogs.SavedValueIsFetched | src/database-server/data-source/sqlitewrapper.cc:113-129 | A saved value is fetched behind the values that were there, with the time at which it was saved, by its name and in every range with that time; for no other name anything changes |
| Catalogs.FetchVariablesRefines | src/database-server/data-source/sqlitewrapper.cc:131-173 | The list of rows is the map's list of names and colors |
| Catalogs.FetchValuesRefines | src/database-server/data-source/sqlitewrapper.cc:181-340 | Selecting by foreign key and range is filtering the readings of the name |
| Catalogs.LookupReads | src/database-server/data-source/sqlitewrapper.cc:181-340 | The map's answer in full: values and timestamps of the readings kept, in their order |
| Catalogs.CountRefines | src/database-server/data-source/sqlitewrapper.cc:235-388 | Counting rows is the length of the map's answer |
| Catalogs.WithinConcat | src/database-server/data-source/sqlitewrapper.cc:292-296 | A range filter treats every reading by itself and keeps their order |
| Catalogs.RowsAreNumbered | src/database-server/data-source/sqlitewrapper.cc:70-81 | After any history the ids are 1, 2, 3, ... in both tables |
| Catalogs.StoreIsAnOrderedMap | src/database-server/data-source/sqlitewrapper.cc:66-388 | After any history of statements the tables are valid, and they and every answer equal those of a plain ordered map |
| Times.MillisSurvive | src/database-server/session.cc:318-321 | A millisecond count survives the conversion to a time point if and only if the time point can express it |
| Times.BoundSurvivesTrip | src/database-server/client/client.cc:247-259 | A range bound of the client reaches the server as the same millisecond, before the epoch as well, and the fetch query's two casts of it give what the count query's one cast gives |
| Times.ToMillis | src/database-server/data-source/sqlitewrapper.cc:348-353 | duration_cast truncates toward zero, on both sides of the epoch |
| Wire.FieldsRoundTrip | src/protocol/messages.proto:31-125 | Any sequence of varint, fixed64 and length-delimited fields is read back as it was written |
| Wire.LastOfConcat | src/protocol/messages.proto:31-125 | Of several fields with one number, the last one counts |
| Wire.VarintMeans | src/protocol/messages.proto:85-106 | What the bytes of a varint mean: the seven low bits of byte i count 128^i, the high bit says whether another byte follows, and no shorter sequence means the same |
| Wire.Varint64RoundTrip | src/protocol/messages.proto:85-86 | Every 64-bit value survives its base-128 varint, whatever bytes follow |
| Wire.LittleEndianMeans | src/protocol/messages.proto:32-43 | What the bytes of a fixed-width number mean: byte i counts 256^i |
| Wire.Fixed64RoundTrip | src/protocol/messages.proto:32-43 | Every 64-bit value survives its little-endian form |
| Messages.KnownMetaHeader | src/protocol/messages.proto:31-33 | The bytes of a MetaHeader for a small header |
| Messages.HeaderBytes | src/protocol/messages.proto:5-44 | The bytes of a Header: field tags, the code of each message type, the size |
| Messages.SaveVariableBytes | src/protocol/messages.proto:50-53 | The bytes of a SaveVariable: records of fields 1 and 5 |
| Messages.SaveValueBytes | src/protocol/messages.proto:59-62 | The bytes of a SaveValue: a record of field 1 and eight bytes of field 2 |
| Messages.FailureBytes | src/protocol/messages.proto:68-73 | The bytes of a Failure: the code of each status, the text if there is one, the type if there is one |
| Messages.GetValuesBytes | src/protocol/messages.proto:80-87 | The bytes of a GetValues: a record and the bounds that there are, in two's complement |
| Messages.VarValueBytes | src/protocol/messages.proto:100-107 | The bytes of a VarValue |
| Messages.ValuesBytes | src/protocol/messages.proto:114-116 | The bytes of a list of values: a record of field 1 for each |
| Messages.VariablesBytes | src/protocol/messages.proto:123-125 | The bytes of a list of variables |
| Messages.MetaHeaderRoundTrip | src/protocol/messages.proto:31-33 | A MetaHeader takes 9 bytes for every size, and is decoded to itself |
| Messages.HeaderRoundTrip | src/protocol/messages.proto:41-44 | A Header takes 11 bytes for every type and size, and is decoded to itself |
| Messages.SaveVariableRoundTrip | src/protocol/messages.proto:50-53 | A SaveVariable is decoded to itself |
| Messages.SaveValueRoundTrip | src/protocol/messages.proto:59-62 | A SaveValue is decoded to itself |
| Messages.EnumsAreNarrowed | src/protocol/messages.proto:4-18 | A code is read as an enum value if and only if its low 32 bits are that value's code |
| Messages.FailureRoundTrip | src/protocol/messages.proto:68-73 | A Failure is decoded to itself, with msg and prev_msg present or absent as they were |
| Messages.GetValuesRoundTrip | src/protocol/messages.proto:80-87 | A GetValues is decoded to itself, with each bound present or absent, negative or not |
| Messages.VarValueRoundTrip | src/protocol/messages.proto:100-107 | A VarValue is decoded to itself |
| Messages.ValuesRoundTrip | src/protocol/messages.proto:114-116 | A list of values of any length is decoded to itself in order; its body is empty exactly when it is |
| Messages.VariablesRoundTrip | src/protocol/messages.proto:123-125 | The same for a list of variables |
| Protocol.FramePrefix | src/database-server/session.cc:167-187 | Meta header and header have the probed and announced sizes for every frame, and announce type and body size; the bytes of the meta header |
| Protocol.RequestFrameBytes | src/database-server/client/client.cc:197-291 | All bytes of a request: meta header, a header that announces the type that belongs to the body, and the body |
| Protocol.ResponseFrameBytes | src/database-server/session.cc:90-199 | All bytes of a response, in the same way |
| Protocol.RequestRoundTrip | src/database-server/session.cc:218-364 | Each of the four request bodies decodes to the request under its own type |
| Protocol.ResponseRoundTrip | src/database-server/client/client.cc:106-189 | Each response body decodes to the response under its own type; only empty lists have empty bodies |
| Protocol.ProtobufIsFaithful | src/protocol/messages.proto:20-125 | The concrete encoding has all the properties that the proofs about both ends rely on, for every message |
| Servers.Session.OnSuccess | src/database-server/session.cc:57-88 | The success handlers of all operations make exactly the step of the transition system: bytes taken, store, next operation |
| Servers.Session.OnFailure | src/database-server/session.cc:76-86 | The failure handlers make exactly its failure step |
| Servers.Session.ServeRequest | src/database-server/session.cc:241-364 | The four body handlers run the store operation and start the write of its answer |
| Servers.Session.ReadBodyOf | src/database-server/session.cc:218-239 | The type switch starts the body read of a request, or answers any other type at once |
| Servers.Session.SendResponse | src/database-server/session.cc:90-216 | One buffer of meta header, header and body is handed to the write |
| Servers.Session.Start | src/database-server/session.h:56 | A session starts with the read of a meta header |
| Servers.Server.constructor | src/database-server/server.cc:60-73 | A new server has the schema, the variable "temp" and no session |
| Servers.Server.DoAccept | src/database-server/server.cc:81-91 | An accepted peer gets a new session that reads; a failed accept changes nothing |
| Servers.Perform | src/database-server/server.cc:98-115 | From its construction on, the server of objects goes through any run of actions exactly as the transition system does |
| Invariants.AtMostOneOperation | src/database-server/session.cc:201-216 | In every run, failures and arbitrary bytes included, no session ever has two operations under way |
| Invariants.EachStepStartsOne | src/database-server/session.cc:57-88 | In every run, after a success the protocol's next operation is under way, after a failed header read or write the write of a failure report, after a failed body read nothing |
| Invariants.FailedOperation | src/database-server/session.cc:57-88 | A failed operation has taken or written the first of its bytes and nothing else has changed; what its failure report says |
| Invariants.UnknownTypeIsRefused | src/database-server/session.cc:232-237 | A type that is not a request is answered by FAILED and the source's text |
| Invariants.StopsExactlyOnFailedBodyRead | src/database-server/session.cc:267-269 | A session is without any operation if and only if one of its body reads has failed earlier in the run |
| Invariants.StoreAlwaysInOrder | src/database-server/server.cc:60-73 | In every run the store is valid, has its schema and still starts with "temp" |
| Invariants.CrashesExactly | src/database-server/session.cc:305-338 | A request runs into undefined behaviour if and only if it matches a multiple of 120 readings, at least 14520 |
| Invariants.NoCrashBefore14520Readings | src/database-server/session.cc:305-338 | No run, whatever bytes arrive, does so before 14520 readings are stored |
| Progress.CrashIsReachable | src/database-server/session.cc:305-338 | The bound is tight: for every multiple of 120 from 14520 on, a run of one session that saves that many readings of "temp" and asks for them ends in undefined behaviour |
| Invariants.RowsAlwaysFollowClock | src/database-server/data-source/sqlitewrapper.cc:115-122 | In every run whose clock does not go back and shows no time before the epoch, every stored timestamp is a clock reading of the run, and rows are in time order |
| Linearization.ServeRefines | src/database-server/session.cc:241-364 | Each request handler answers and changes the tables as it should an ordered map |
| Linearization.AnswersTellTheOutcome | src/database-server/session.cc:258-266 | A status says OK exactly when the map has changed, prev_msg is there exactly when a variable was added, and queries change nothing |
| Linearization.StatusesInFull | src/database-server/session.cc:256-299 | Status, text and prev_msg of the replies to additions and values, accepted and refused |
| Linearization.ValuesReplyIsShort | src/database-server/session.cc:138-151 | A values reply has all matching readings up to 120, exactly 120 of more, and never names the variable |
| Linearization.ValuesReplyShows | src/database-server/session.cc:138-151 | The contents of a values reply: every reading with its value and timestamp, or in place k the average of chunk k with its middle timestamp |
| Linearization.SavedValueIsReplied | src/database-server/session.cc:272-338 | From request to request: a value that is saved is the last one of the next values reply, behind the values of the reply before |
| Linearization.RequestedRange | src/database-server/session.cc:317-326 | A request filters by time exactly when both bounds are present, and then by the milliseconds it names |
| Linearization.EveryRunIsLinearized | src/database-server/session.cc:201-364 | Linearizability in every run, with any bytes, any failures, and up to a crash: there is one global order of the answered requests in which an ordered map, serving one at a time, ends as the store and gives every answer |
| Linearization.AnswersAreInTimeOrder | src/database-server/session.cc:317-328 | In such a run the timestamps of every values reply are in order, averages or not |
| Alignments.EveryCleanRunIsExplained | src/database-server/session.cc:46-364 | In every failure-free run of any number of sessions that order also accounts for every byte: each session has answered a prefix of its peer's requests, in order and once each, and written exactly these answers; every read stands at the start of a frame part |
| Alignments.FramedRunsStayAligned | src/database-server/session.cc:46-88 | The same alignment when peers send frames of the four types with any bodies, also undecodable ones: each session answers one request per frame, in order, and every read stands at the start of a frame part |
| Alignments.RequestInFull | src/database-server/session.cc:241-316 | What a handler makes of a body: the request that it encodes, or, if it is too large or cannot be decoded, the fields left by the parse under the same type |
| Alignments.BodyIsNextRequest | src/database-server/session.cc:46-88 | However the bytes were split, the request that a handler decodes is the next one that the peer sent |
| Alignments.WaitingMeansAllAnswered | src/database-server/session.cc:46-88 | A session that waits with nothing more to arrive has recovered exactly the requests sent, has no byte left over and has answered them all |
| Progress.EveryTurnCounts | src/database-server/session.cc:46-88 | With its bytes arrived, a session needs exactly four turns per unanswered frame, counted from where it stands; each turn is one less, and nothing that others do changes the count |
| Progress.SessionSettles | src/database-server/session.cc:46-88 | So four turns per unanswered frame, and one more, bring a session to rest with every frame answered, whatever the others do in between, unless the process crashes |
| Progress.NoSessionIsStuck | src/database-server/session.cc:46-88 | From any point of such a run, the rest of a session's bytes and nothing but its own handlers bring it to rest, or one of these handlers makes the process crash |
| Progress.AllRequestsRecovered | src/database-server/client/client.cc:197-291 | For the concrete encoding: after these turns the server has recovered exactly the requests sent, has no byte left over, and has written their answers, which together with the store are those of an ordered map |
| Progress.OneExchange | src/database-server/session.cc:46-364 | A request to a session at rest: six actions later its answer has been written and the session is at rest again, or the process has crashed, exactly as the handler decides |
| Progress.FirstListOfVariables | src/database-server/server.cc:60-73 | A whole run on a new server: the first peer asks for the variables and is sent "temp" |
| Alignments.ReadsResumeBehindRequests | src/database-server/session.cc:232-237 | Behind any frame, reading resumes at the next frame boundary if and only if the type is one of the four requests or the body is empty |
| Clients.Client.SendRequest | src/database-server/client/client.cc:197-215 | What is written is always the stream of the frames of all requests so far |
| Clients.Client.SendVar | src/database-server/client/client.cc:197-215 | Writes one REQUEST_ADD_VAR frame with that name and color |
| Clients.Client.SendVarVal | src/database-server/client/client.cc:217-234 | Writes one REQUEST_SAVE_VALUE frame with that name and value |
| Clients.Client.RequestVars | src/database-server/client/client.cc:236-239 | Writes one REQUEST_GET_VARIABLES frame |
| Clients.Client.RequestVarValues | src/database-server/client/client.cc:241-259 | Writes one REQUEST_GET_VALUES frame, for which the server will query the milliseconds asked for |
| Clients.Client.ReadList | src/database-server/client/client.cc:123-141 | For any splitting into arrivals the loop ends with exactly the next size bytes and leaves the rest, or, if they never come, with nothing left |
| Clients.Client.OnReadyRead | src/database-server/client/client.cc:67-193 | Takes one frame: signals and remaining bytes are as `TakeFrame` says for any buffered bytes and arrivals |
| Clients.SignalFitsType | src/database-server/client/client.cc:106-189 | A body gives at most one signal, of the kind of its type; a complete list body gives one exactly when it is not empty, whatever is decoded from it |
| Clients.FrameIsTold | src/database-server/client/client.cc:106-189 | In full, what is emitted for a frame of the server's: the status, text and request type that were sent, the values that were sent, or the variables that were sent |
| Clients.TakesFromFront | src/database-server/client/client.cc:67-193 | Whatever the bytes are, the client takes them from the front of the stream and leaves all others as they are |
| Clients.GivesUp | src/database-server/client/client.cc:86-189 | When the client gives up on a frame, and which bytes it has swallowed by then |
| Clients.FrameIsTaken | src/database-server/client/client.cc:67-193 | For a frame that the server built, those are exactly the signals of the response and exactly the bytes behind the frame |
| Mirrors.VarsModel.Receive | src/hmi/model/varsmodel.cc:70-95 | A list of variables replaces the mirror; an OK status for REQUEST_ADD_VAR, and no other signal, writes one refresh request |
| Mirrors.VarsModel.AddVar | src/hmi/model/varsmodel.cc:98-102 | Adding a variable only sends the request; the mirror stays as it is |
| Mirrors.ResponsesAreReceived | src/database-server/client/client.cc:67-193 | Whenever the pieces of a response stream arrive, as long as each call finds what the client needs of its frame: n calls emit exactly the signals of the first n responses, in order, and take exactly their bytes |
| ClosedLoops.ClientEmitsLoggedReplies | src/database-server/client/client.cc:67-193 | In every clean run, what the client of a session emits in its first n calls is what the first n logged replies of that session say, in order |
| Mirrors.MirrorFollowsStore | src/hmi/model/varsmodel.cc:70-95 | Whatever other sessions do, the mirror equals the store's names and colors, in order, at the point where the last refresh it has a reply to was processed, and it asks for one refresh per variable it has added |
| Mirrors.AddedVariableIsListed | src/hmi/model/varsmodel.cc:82-95 | A variable that was added is in the list of every later refresh |
| ClosedLoops.LoopIsKept | src/hmi/model/varsmodel.cc:82-95 | The rule joined to the run: whatever happens between a client and its session, each acknowledged addition that the client has received is followed by a refresh among its requests |
| ClosedLoops.MirrorAtAnyTime | src/database-server/client/client.cc:156-189 | From bytes to mirror at any time: the mirror is the store's list at the point in the global order of the last refresh that the client has received |
| ClosedLoops.MirrorShowsOwnAdditions | src/hmi/model/varsmodel.cc:82-102 | Whenever the session is at rest and the client has taken all replies, a refresh has been processed behind every addition of the client, and the mirror lists the variable |
| LoopProgress.PotentialRunsDown | src/hmi/model/varsmodel.cc:82-95 | If the user asks for nothing more, then in every continuation, whatever the other sessions do: each delivery to the session, each turn it can take and each reply received lowers a natural number, which counts the bytes, turns and replies to come, those of future refreshes included, and nothing raises it |
| LoopProgress.RestIsZero | src/hmi/model/varsmodel.cc:82-95 | That number is 0 exactly when the session waits and the client has taken all replies |
| LoopProgress.RefreshesEnd | src/hmi/model/varsmodel.cc:82-95 | So in every such continuation refreshes come to an end: it has no more of these events than the number says; and once at rest, client and session stay there |
| LoopProgress.LoopComesToRest | src/hmi/model/varsmodel.cc:82-95 | Client and session come to rest, with all requests answered, in every continuation in more stages than that number, each with at least one of these events unless at rest already: deliveries of any size, refused additions and anything that other sessions do included, up to a crash |
| LoopProgress.EveryAdditionComesToBeShown | src/hmi/model/varsmodel.cc:82-102 | So at the end of every such continuation, the mirror shows every variable that its client has added |
| LoopProgress.NeverStuck | src/hmi/model/varsmodel.cc:82-95 | Short of rest one of these events is always possible, unless the next reply is too large to parse |
| LoopProgress.NothingLeftMeansRest | src/hmi/model/varsmodel.cc:82-102 | The same wherever none of these events is possible any more and no reply is too large |
| LoopProgress.HistoriesKeepGoing | src/hmi/model/varsmodel.cc:82-95 | Such continuations of any number of stages exist from every point, unless a reply is too large or the client itself has asked for values |
| LoopProgress.RestCanBeReached | src/hmi/model/varsmodel.cc:82-95 | The session's own events alone lead to rest, in no more than that number, unless a reply is too large or the client's own request for values makes the process crash |

## Left out

- The socket libraries: a connection is a byte queue with exact-n reads that complete when the bytes are there, short reads on the client, and failures after any number of bytes.
- SQL text and SQLite internals: each statement is its effect on the tables, scans follow insertion order, ids do not run out, and a database that already has the schema (the constructor then throws) is not opened.
- Values whose `%f` text is not a number literal (infinities, NaN), which SQLite would refuse: `stored` gives a number for every bit pattern.
- Floating-point rounding in sums, averages and `std::ceil`: real arithmetic and integer ceiling division, which agree for fewer than 2^53 readings.
- Iterators advanced past the end: only dereferences are checked.
- Running out of memory, in `reserve` or for a size announced by a peer, and messages of more than INT_MAX bytes other than as refused input.
- Unknown fields of wire types that the schema never uses: a message with one counts as refused.
- Which readyRead signals arrive: the client takes one frame per signal, and with fewer signals than frames the last frames stay in its buffer (`Mirrors.ResponsesAreReceived`).
- The client's desynchronisation after a partial prefix or status: modelled by `Clients.TakeFrame`, but the theorems on the mirror assume timely calls.
- The clock: timestamps are parameters, in time order only where that is required.
- Parsing colors by name, the 1000 dummy variables, the values model, charts, QML, logging and memory management.
- Messages of 2^64 bytes or more: the round trips are stated below that size.
