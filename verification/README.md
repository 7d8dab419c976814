# ultra-nrepl core, modelled in Dafny

`ultra-nrepl` is a command-line nREPL client written in Rust. It talks to a
Clojure nREPL server over bencode (the encoding of BEP 3). The client:

- sends requests ("ops") and collects the responses of each exchange;
- keeps one server session per address in a small SQLite store;
- prints responses as JSON.

This project models the core of that client as pure Dafny functions and
proves what each part promises.

- **Bencode decoder** (`src/bencode.rs`, module `Bencode`). The decoder reads
  from a stream with a one-token lookahead. Here it reads a byte sequence and
  returns the bytes it did not consume.
  - `BencodeEncoding` writes the encoding the decoder is checked against.
  - `BencodeStreaming` shows that bytes arriving after a value never change it.
  - `BencodeExamples` covers the source's tests and each rejection path.
- **Exchange** (`src/nrepl.rs`, module `Nrepl`). An `Op` is written as a
  bencode dict with its pairs sorted. A decoded dict becomes a response map.
  Responses are read until the first one that carries `status`.
- **Op builders and interpreters** (`src/nrepl/ops.rs`).
  - `NreplOps` covers `clone`, `ls-sessions`, `describe` and the `eval` behind
    `GetNsName`.
  - `NreplInfo` covers `info` and the doc text it assembles.
- **Session resolution** (`src/nrepl/session.rs`, module `SessionManager`).
  The stored session is reused while the server still lists it. Otherwise a
  new one is cloned, described and saved.
- **Session store and migrations** (`src/config.rs`, module `Config`).
- **JSON conversion** (`src/bencode/json.rs`, module `BencodeJson`).
- **The `op` command's option parsing and field rendering**
  (`src/cmd/op.rs`, module `CmdOp`).
- **The `ultra-op` binary's copy of the option parsing**
  (`src/bin/ultra-op.rs`, module `UltraOp`).

Supporting modules:

- `Base` holds `Option` and `Result`.
- `Bytes` holds UTF-8 text as bytes, with `find`, `split`, `join` and `count`.
- `Decimal` holds Rust's `u32`/`i64` parsing and decimal printing.
- `PairSort` holds the ordering and sort of `Vec<(&str, &str)>`.
- `Assoc` holds building a map from keyed pairs, where the last pair wins.

Modelling conventions:

- **Text.** A Rust `String` is its UTF-8 bytes (`Text = seq<byte>`).
  `ValidUtf8` is the check `String::from_utf8` makes (Unicode Table 3-7).
- **Aborts.** An `unwrap()` that can fail is an error variant whose name ends
  in `Panic`, standing for the process abort.
- **Exchanges.** The nREPL socket is replaced by two inputs: the outcome of the
  send, and the sequence of results `read_resp` would return.
- **Status.** The op interpreters take the classified outcome of an exchange,
  a `Result<Status, NreplError>`. The variants are `Done`, `State`, `NoInfo`
  and any other named status. `nrepl::Status` and its classification are not
  part of the source files modelled, so the classified status is an input.
- **Store.** The SQLite store is a map from address to row. Two input flags
  say whether the statements of `save_session` and `load_session` fail. For
  `run_migrations`, an input set names the positions, in issue order, of
  the statements that fail.
- **Helpers outside these files.** `bc::try_into_string`,
  `bc::try_into_str_vec`, `bc::try_into_int`, `Session::id` and
  `Session::is_op_available` are called by the core but not defined in its
  files. They are modelled from their names and uses:
  - `try_into_string` accepts a UTF-8 byte string;
  - `try_into_str_vec` accepts a list of UTF-8 byte strings;
  - `try_into_int` accepts an integer;
  - `id` is the stored session id;
  - `is_op_available` is membership in the stored op names.

Three behaviours of the code that a reader might expect otherwise:

- **Status classes.** The interpreters match on `Done`, `State`, `NoInfo`
  and any other status.
- **Early end of stream.** A stream that ends before the final response
  aborts, because the deserializer's result is unwrapped (`ReadPanic`).
  `Error::ConnectionLost` is never raised.
- **Sort order.** The `(key, value)` pairs of the wire dict are sorted, so
  pairs with a repeated key are ordered by value.

## Model

| member | source | states |
|---|---|---|
| Bencode.ReadLength | src/bencode.rs:61-82 | A length prefix is read to the first `:` as a `u32`. With no `:`, the result is `MalformedInput` naming the last byte read. Text that is not UTF-8 or not a `u32` is rejected, and what remains is a proper suffix. |
| Bencode.ReadStr | src/bencode.rs:84-96 | Exactly `n` bytes are read, and the rest is what follows them. Fewer than `n` bytes left is the `read_exact` end-of-file error, never `StrReadError`. |
| Bencode.ReadInt | src/bencode.rs:98-116 | The bytes up to the first `e` are read as an `i64`. A missing `e` is `UnexpectedEOF`, and every other failure is `MalformedInput`. |
| Bencode.NextToken | src/bencode.rs:118-139 | The result is `None` exactly at the end of the input. A digit starts a length prefix below 2^32. Each token consumes input. |
| Bencode.ReadObject | src/bencode.rs:176-225 | The result is `Ok(None)` exactly on empty input. Any value returned is well formed (an `i64` number, strings shorter than 2^32) and consumes input. |
| Bencode.ReadValue | src/bencode.rs:176-221 | A value follows from the popped token. A lone `e` is `ExpectedObjectStart(End)`. The result is well formed. |
| Bencode.ReadItems | src/bencode.rs:179-191 | A list reads elements up to its `e`, and all of them are well formed. Running out of input is `UnexpectedEOF`. |
| Bencode.ReadPairs | src/bencode.rs:193-209 | A dict reads pairs up to its `e`, and all of them are well formed. Running out of input is `UnexpectedEOF`. |
| Bencode.ReadDictPair | src/bencode.rs:165-174 | A pair must start with a length token; any other token is `ExpectedDictKey` of that token. |
| BencodeEncoding.RoundTrip | src/bencode.rs:176-225 | Decoding the encoding of any well-formed value, followed by any bytes, gives the value back and leaves exactly those bytes. |
| BencodeStreaming.ObjectExtend | src/bencode.rs:176-225 | Once a value has been read, bytes appended later leave it unchanged; they are left over after it. |
| BencodeStreaming.NextTokenExtend | src/bencode.rs:118-139 | A token that has been read does not change when more bytes arrive. |
| BencodeExamples.NegativeInt | src/bencode.rs:240-246 | `i-42e` decodes to the number -42. |
| BencodeExamples.UnterminatedInt | src/bencode.rs:248-259 | `i-42` without its `e` is `UnexpectedEOF`. |
| BencodeExamples.EmptyList | src/bencode.rs:179-191 | `le` decodes to the empty list. |
| BencodeExamples.ListOfEmptyDicts | src/bencode.rs:179-209 | `ldedee` decodes to a list of two empty dicts. |
| BencodeExamples.LoneEnd | src/bencode.rs:220 | A lone `e` is `ExpectedObjectStart(End)`. |
| BencodeExamples.BadStart | src/bencode.rs:135 | A byte outside `l i d e 0-9` is `UnexpectedToken` of that byte, whatever follows it. |
| BencodeExamples.OpenList | src/bencode.rs:183 | An unclosed list is `UnexpectedEOF`. |
| BencodeExamples.IntDictKey | src/bencode.rs:172 | An integer where a dict key belongs is `ExpectedDictKey(Int)`. |
| BencodeExamples.DuplicateKeysKept | src/bencode.rs:193-209 | A dict with a repeated key keeps both pairs, in wire order. |
| BencodeExamples.MissingDictValue | src/bencode.rs:169 | A key followed by the dict's `e` is `ExpectedObjectStart(End)`. |
| BencodeExamples.ShortString | src/bencode.rs:89 | A length longer than the bytes left is the `read_exact` end-of-file error. |
| BencodeExamples.LengthWithoutColon | src/bencode.rs:66-72 | Digits that never reach a `:` are `MalformedInput`, not end of input. |
| BencodeExamples.LengthNotANumber | src/bencode.rs:79 | A length prefix that is not a `u32` is `BadLengthStr`. |
| Nrepl.OpPairs | src/nrepl.rs:193-201 | The emitted pairs are `op`→name plus every argument, each exactly once (as a multiset), sorted by key and then by value. |
| Nrepl.EncodeOp | src/nrepl.rs:188-211 | The bytes sent for an op are one bencode dict, framed by `d` and `e`. What they decode to is stated by EncodeOpDecodes. |
| Nrepl.OpKeysAscending | src/nrepl.rs:201-205 | The keys of the sent dict appear in ascending byte order. |
| Nrepl.EncodeOpPermutation | src/nrepl.rs:193-205 | Two ops with the same name and the same arguments in any order are sent as the same bytes. |
| Nrepl.EncodeOpDecodes | src/nrepl.rs:188-211 | The bytes sent for an op decode, with this crate's decoder, to the dict of its sorted pairs, whatever follows on the wire. |
| Nrepl.CloneEncoding | src/nrepl.rs:188-211 | `clone` without arguments is sent as `d2:op5:clonee`. |
| Nrepl.RespFromValue | src/nrepl.rs:172-186 | A dict becomes a response exactly when all its keys are UTF-8; a non-UTF-8 key aborts. Anything other than a dict is `ExpectedMap` of that value. |
| Nrepl.RespKeepsLastValue | src/nrepl.rs:177-181 | A converted response has exactly the dict's keys, and each key holds the value of its last occurrence. |
| Nrepl.FinalOnlyWithStatus | src/nrepl.rs:290-302 | A response is final when it has a `status` field and not otherwise. |
| Nrepl.Collect | src/nrepl.rs:253-270 | A successful collection frames the replies. The responses are a non-empty prefix of them, all successful, with the last one final and no earlier one final. |
| Nrepl.CollectErrors | src/nrepl.rs:253-270 | A failed collection returns the first failed read that comes before any final response, or `ReadPanic` when the replies run out first, and no other error. |
| Nrepl.CollectFindsFraming | src/nrepl.rs:258-267 | Whenever some prefix of the replies frames an exchange, collecting returns exactly that prefix. |
| Nrepl.FramingUnique | src/nrepl.rs:258-267 | At most one prefix of the replies frames an exchange. |
| Nrepl.CollectErrorMeansNoFraming | src/nrepl.rs:244-250 | A failed collection means no prefix frames an exchange. A failed read, or the stream ending first, fails it. |
| Nrepl.Exchange | src/nrepl.rs:253-270 | A failed send is returned as is. Otherwise the loop returns what `Collect` does: the framed responses, or the first read error with no partial list. |
| NreplOps.TryIntoString | src/nrepl/ops.rs:59 | A field converts to text exactly when it is a UTF-8 byte string, and the text is its bytes. Otherwise the field is rejected as it was found. |
| NreplOps.TryIntoStrVec | src/nrepl/ops.rs:97 | A field converts to a list of texts exactly when it is a list of UTF-8 byte strings, element by element. |
| NreplOps.TryIntoInt | src/nrepl/ops.rs:186 | A field converts to a number exactly when it is an integer. |
| NreplOps.CloneOp | src/nrepl/ops.rs:39-48 | The request is `clone`. Its only argument is `session`, present exactly when a session is given; without one there are no arguments. |
| NreplOps.CloneRequestEncoding | src/nrepl/ops.rs:39-48 | The request of `CloneSession::new(None)` is sent as `d2:op5:clonee`. |
| NreplOps.LsSessionsOp | src/nrepl/ops.rs:83-87 | The request is `ls-sessions` with no arguments. |
| NreplOps.DescribeOp | src/nrepl/ops.rs:409-417 | The request is `describe`. Its only argument is `verbose?=true`, present exactly when verbose; otherwise there are no arguments. |
| NreplOps.GetNsNameOp | src/nrepl/ops.rs:334-359 | The request is an `eval` whose arguments are exactly `code` and `session`, the latter holding the session's id. |
| NreplOps.CloneResult | src/nrepl/ops.rs:51-73 | On `Done`, the answer is the conversion of the `new-session` of the first response holding one, and a successful answer always comes from that response. It is `NoSessionIdInResponse` exactly when none does. Other statuses are `BadStatus`, and exchange errors pass through. |
| NreplOps.LsSessionsResult | src/nrepl/ops.rs:89-112 | On `Done`, the answer is the conversion of the `sessions` list of the first response holding one, and a successful answer always comes from that response. It is `NoSessionsInResponse` exactly when none does. Other statuses are `BadStatus`. |
| NreplOps.ValueLoop | src/nrepl/ops.rs:367-374 | The loop over responses succeeds exactly when every `value` met is a UTF-8 string. |
| NreplOps.ValueLoopLastWins | src/nrepl/ops.rs:369-373 | When the loop succeeds, it ends with the last `value` of the responses. |
| NreplOps.GetNsNameResult | src/nrepl/ops.rs:364-382 | On `Done`, the call succeeds exactly when every `value` is a string. Other statuses are `BadStatus`. |
| NreplOps.GetNsNameLastValue | src/nrepl/ops.rs:366-375 | The answer is the last `value` sent, or `None` when no response holds one. |
| NreplOps.OpNames | src/nrepl/ops.rs:433-438 | The op names are exactly the keys of the `ops` dict, each once, when all of them are UTF-8. Otherwise the result is an error naming a non-UTF-8 key. |
| NreplOps.DescribeResult | src/nrepl/ops.rs:422-451 | `NoInfo` and other statuses are `BadStatus`, and exchange errors pass through. Names returned on `Done` or `State` contain no duplicates. |
| NreplOps.DescribeWithoutOps | src/nrepl/ops.rs:443 | With no `ops` dict in any response, unwrapping the names aborts. |
| NreplOps.DescribeOnlyOps | src/nrepl/ops.rs:424-443 | With exactly one `ops` dict, the answer is its key set. `ops` values that are not dicts are ignored. |
| NreplOps.DescribeSecondOps | src/nrepl/ops.rs:427-437 | A second `ops` dict after one whose names convert is `DuplicatedOpsInResponse`. If the first's names do not convert, that conversion error is returned. |
| NreplInfo.InfoOp | src/nrepl/ops.rs:165-182 | The request is `info` with exactly the arguments `symbol`, `ns` and `session`, holding the given values. |
| NreplInfo.GetInt | src/nrepl/ops.rs:184-190 | An absent field is `None`. A present field is a number exactly when it is an integer, and it is rejected otherwise. |
| NreplInfo.GetStr | src/nrepl/ops.rs:192-198 | An absent field is `None`. A present field is text exactly when it is a UTF-8 byte string. |
| NreplInfo.GetStrList | src/nrepl/ops.rs:200-206 | An absent field is `None`. A present field is a text list exactly when it is a list of UTF-8 strings. |
| NreplInfo.WrapLines | src/nrepl/ops.rs:284-289 | The arglists part of a symbol's doc is never empty. |
| NreplInfo.ReadDocs | src/nrepl/ops.rs:248-256 | The doc fields read succeed exactly when each is absent or well shaped. They are `doc`, `name`, `arglists-str` and `ns`, `macro` is read by presence only, and the `spec` list is joined with spaces. |
| NreplInfo.Classify | src/nrepl/ops.rs:257-305 | The answer is a namespace exactly when `column`, `name` and `arglists-str` are all absent. A missing `line` aborts. Line, column, file and resource are passed on, and the doc is the namespace doc or the symbol doc. |
| NreplInfo.InfoFromResp | src/nrepl/ops.rs:220-305 | The answer is `None` exactly when the positions are well shaped and `file` is a list. A missing `file` or `resource` is `FieldNotFound` naming it. An answer carries the response's file and resource. |
| NreplInfo.InfoSend | src/nrepl/ops.rs:213-218 | Nothing is sent, and the call is `InfoOpUnavailable`, exactly when the session does not offer `info`. Otherwise the `info` request is sent once and the answer is read from its outcome. |
| NreplInfo.InfoFromStatus | src/nrepl/ops.rs:218-314 | `NoInfo` is `None` and other statuses are `BadStatus`. An empty response list aborts. |
| NreplInfo.InfoReadsOnlyLast | src/nrepl/ops.rs:219-220 | On `Done` or `State`, only the last response is read. |
| NreplInfo.InfoKindOfResp | src/nrepl/ops.rs:259-304 | The answer is `Ns` exactly when the response has the namespace shape. Its line, column and doc come from the response. |
| NreplInfo.SymbolNeedsLine | src/nrepl/ops.rs:276-299 | A symbol answer without `line` aborts on unwrapping it. |
| NreplInfo.NsDocLines | src/nrepl/ops.rs:262-266 | A namespace doc is `ns` and `doc` joined by a newline, leaving out whichever is absent. |
| NreplInfo.WrapLinesAbsent | src/nrepl/ops.rs:284-289 | Absent arglists give `()`. |
| NreplInfo.WrapLinesSplit | src/nrepl/ops.rs:284-289 | Splitting the arglists part on newlines gives each arglist line in parentheses. |
| NreplInfo.SymbolDocNeverEmpty | src/nrepl/ops.rs:277-296 | A symbol doc is never empty. |
| NreplInfo.BareSymbolDoc | src/nrepl/ops.rs:277-296 | A symbol with no doc fields at all is documented as `()`. |
| NreplInfo.SymbolDocLines | src/nrepl/ops.rs:277-296 | A full symbol doc is, line by line: `macro`, `ns/name`, the arglists in parentheses, the doc and the spec. |
| Config.SaveSession | src/config.rs:124-137 | Saving replaces the row of the session's address and stores its id. Other addresses keep their rows. A failing statement is an error. |
| Config.LoadSession | src/config.rs:139-162 | Loading gives `None` exactly when no row exists for the address. A found session has that address and the stored id, and at least one op name. |
| Config.SaveThenLoad | src/config.rs:124-162 | Loading after a save gives back the address and id. It gives back the whole session when there is at least one op and no op name contains `,`. |
| Config.EmptyOpsReadBack | src/config.rs:152-155 | A session saved with no ops is read back with one empty op name. |
| Config.SaveKeepsOthers | src/config.rs:128-133 | Saving for one address changes nothing loaded for another. |
| Config.RunMigrations | src/config.rs:88-103 | The plan of a run without failures. With no latest migration, every migration is executed and recorded in list order. With a latest one, only those after its first occurrence are, and none when the name is unknown. |
| Config.MigrationSelection | src/config.rs:88-103 | With no latest migration, all run in order. With a known latest one, exactly those after it run. With an unknown one, none run. |
| Config.RunMigrationsChecked | src/config.rs:88-103 | The run succeeds exactly when none of the planned statements fails, and then every planned action takes effect. Otherwise it stops with `StatementFailed` at the first failing statement. Exactly the planned actions before that one have taken effect. |
| Config.RunCheckedFollowsPlan | src/config.rs:90-100 | From any migration and statement count on, the checked loop issues the planned statements in order and stops at the first failing one. |
| Config.FailedMigrationNotRecorded | src/config.rs:92-95 | On a fresh database, a failing `CREATE TABLE` leaves nothing done. A failing record leaves the table created but `v1` unrecorded. |
| Config.RunAllRecordsEach | src/config.rs:91-95 | Each migration run is executed and then recorded by name, in list order. |
| Config.MigrationsOnFreshAndCurrent | src/config.rs:8-19 | A fresh database runs `v1`, which creates `sessions`. Once `v1` is recorded, nothing runs. |
| SessionManager.SessionIdExists | src/nrepl/session.rs:46-56 | The id exists exactly when the server's session list contains it. A failed listing is passed on. |
| SessionManager.CreateSession | src/nrepl/session.rs:35-44 | `clone` is sent, then `describe` unless the clone failed. A new session holds the address, the cloned id and the described ops. |
| SessionManager.GetExistingSession | src/nrepl/session.rs:59-73 | A failure leaves the store unchanged. A returned session has the server's address. The store only changes by saving the returned session, and a cloned session is always saved. |
| SessionManager.ReuseListedSession | src/nrepl/session.rs:60-65 | A stored session that the server still lists is returned as is. Only `ls-sessions` is sent and nothing is written. |
| SessionManager.StaleSessionReplaced | src/nrepl/session.rs:62-72 | A stored session that the server no longer lists is never returned; a new clone is. |
| SessionManager.NothingStoredCreates | src/nrepl/session.rs:60-68 | With nothing stored, the server is not asked for its sessions. |
| SessionManager.ResolvedSessionIsStored | src/nrepl/session.rs:68-72 | After a successful resolution, the store holds the returned id for the address. |
| BencodeJson.ToJsonVal | src/bencode/json.rs:27-60 | A byte string becomes a JSON string exactly when it is UTF-8. A list becomes an array of the same length. A dict becomes an object with exactly the dict's keys. |
| BencodeJson.ListToJson | src/bencode/json.rs:29-37 | A list converts exactly when every element does, element by element. Otherwise the first failing element's error is returned. |
| BencodeJson.PairsToJson | src/bencode/json.rs:39-50 | A dict converts exactly when every key is UTF-8 and every value converts. Otherwise the error of the first bad pair is returned. |
| BencodeJson.ListConversion | src/bencode/json.rs:29-37 | Converting a list is converting each element, in order, stopping at the first failure. |
| BencodeJson.DictConversion | src/bencode/json.rs:39-50 | A converted dict has exactly its keys, each holding the conversion of its last value. A failure is the first bad pair's error. |
| BencodeJson.FoobarExample | src/bencode/json.rs:14-25 | A list holding `foobar` converts to an array holding the string `foobar`. |
| CmdOp.ParseOpArg | src/cmd/op.rs:68-75 | An argument parses exactly when it holds one `=`. The two sides re-join to the argument, and neither side holds `=`. |
| CmdOp.ParseOpArgJoin | src/cmd/op.rs:68-75 | A key and a value that hold no `=`, joined by one `=`, parse back to that key and value. |
| CmdOp.ParseOpArgEdges | src/cmd/op.rs:68-75 | `a=` and `=b` parse with one empty side. `a=b=c` and `ab` are refused. |
| CmdOp.OutcomeUnique | src/cmd/op.rs:87-103 | The outcome of the argument fold is determined by the arguments. |
| CmdOp.StepOutcome | src/cmd/op.rs:93-101 | One step of the fold keeps the outcome in step with the arguments seen so far. |
| CmdOp.ParseOpArgs | src/cmd/op.rs:87-103 | If every argument parses, the result is all the pairs in order. Otherwise it is `BadOpArg` of the first argument that does not. |
| CmdOp.ParseOpts | src/cmd/op.rs:78-112 | A port that is not a `u32` is `BadUserInput` and is checked before the arguments. A result carries the op, the port and the folded arguments. |
| CmdOp.ElementJson | src/cmd/op.rs:50-56 | A list element prints as its text, or as `BENCODE` when it is not a byte string. Invalid UTF-8 aborts. |
| CmdOp.ElementsJson | src/cmd/op.rs:48-58 | A list prints element by element, and any invalid element aborts. |
| CmdOp.FieldJson | src/cmd/op.rs:46-61 | A byte string prints as text. A list prints as an array whose elements are the printed items, in order, and it fails exactly when an item fails. Anything else prints as `BENCODE VALUE`. |
| CmdOp.ToJsonFields | src/cmd/op.rs:40-66 | The printed map has exactly the response's keys, each field rendered. The call aborts exactly when some field does not render. |
| CmdOp.FieldJsonAgreesWithToJsonVal | src/cmd/op.rs:46-58 | For byte strings and lists of byte strings, the printed rendering agrees with `to_json_val`. |
| UltraOp.FoldOutcome | src/bin/ultra-op.rs:71-87 | Folding the remaining arguments extends the outcome of those already seen. |
| UltraOp.FoldMatchesCmdOp | src/bin/ultra-op.rs:71-87 | The fold of `ultra-op` gives the one outcome the `op` command's loop gives, with the same `parse_op_arg`. |
| UltraOp.ParseOpts | src/bin/ultra-op.rs:52-96 | A port that is not a `u32` is `BadUserInput`, checked first. A result carries the op, the port and the folded arguments. |

## Left out

- Sockets, timeouts and the `BufReader`/`BufWriter` plumbing are not modelled. A send is an input result, and replies are an input sequence.
- The `serde_bencode` deserializer used by `read_resp` is not modelled. Replies arrive already decoded, or as the error it would give.
- Nrepl.EncodeOp: the encoding is that of BEP 3 as `bendy` writes it. Its handling of a repeated key in one op is not modelled.
- `nrepl::Status` and its classification from `status` tokens are not part of the modelled files. The interpreters receive the classified status.
- `Status::name()` is not modelled. `BadStatus` carries the whole status.
- Error message texts are not modelled. This covers `Display` impls, the `BadUserInput` message and the text inside `MalformedInput`.
- BencodeJson.ToJsonVal: numbers are kept exact. The source goes through `f64`, which rounds integers beyond 2^53. Floating point is not modelled.
- JSON serialization to text (`serde_json::to_string`) is not modelled. `CmdOp.ToJsonFields` stops at the map of rendered fields.
- CmdOp.ToJsonFields: any field that does not render is reported as one abort. Which field aborts first depends on `HashMap` iteration order.
- NreplOps.OpNames: the source collects names into a `HashSet`, whose order is unspecified. The model lists them by last occurrence, one admissible order.
- NreplOps.GetNsNameOp: the Clojure form in `code` is taken as an input, since its text is a format string around the source path.
- Command-line parsing by `clap` is not modelled; the `OP`, `PORT` and `OP_ARG` values are inputs. So are the `run` functions, `main`, and the `doc`, `find_def` and `read_jar` commands.
- `ensure_migrations_table`, `ensure_migrations` and the query for the latest migration are not modelled. `Config.RunMigrations` takes the latest migration's name.
- The database file location (`config_path`, `db_path`) is not modelled. The thread-local connection is the explicit store value.
- `Token::BBytes` and `Error::StrReadError` cannot arise, so they are not modelled. `read_exact` either fills its buffer or fails.
