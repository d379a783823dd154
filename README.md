# userdb lookups of Go's os/user package, modelled in Dafny

Without cgo, Go's `os/user` package on Linux resolves users and groups
through systemd-userdbd. It opens the service's Unix socket and sends
one JSON request, `{"method": …, "parameters": {"service":
"io.systemd.NameServiceSwitch"}, "more": true}`, followed by a 0x00
byte. It then reads the reply as a stream of 0x00-delimited JSON frames.
Each frame carries one user or group record and a `continues` flag.

Each frame goes to an unmarshal callback. The callback decodes the frame
and tests the record against the caller's predicate. When the record
matches, the callback overwrites the captured result with it. The
callback then says whether more frames follow. `lookupGroup` and
`lookupUser` compare names exactly. `lookupGroupId` and `lookupUserId`
compare the caller's string with the id rendered by
`strconv.FormatInt(id, 10)`.

The model has five modules:

- `Wrappers` holds `Option` and `Result`.
- `Framing` holds `bytes.IndexByte`, the split function installed on the
  scanner, and the scanner itself (`Scan`, `Frames`). It also holds the
  two ways of writing frames that the scanner undoes: a delimiter after
  every frame (`Terminate`), or a delimiter only between frames (`Join`).
- `Decimal` holds `int64` and `FormatInt`, together with what a canonical
  decimal string is and the value it denotes.
- `Userdb` holds the request, the socket as a value, and the
  specification functions of the scan loop:
  - `Processed`: how many frames reach the callback;
  - `Accepted`: the records those frames decode to;
  - `LastMatch`: the record the callback ends up keeping;
  - `EndReached`: whether the scanner has seen how the stream ended;
  - `QueryOutcome`: what the query returns.

  It also holds the callback as the class `Selector`, whose field
  `captured` is the captured result, and the methods `QueryUserdbd` and
  `ScanReply`, which is the scan loop.
- `Lookup` holds the wire records, their mapping to `Group` and `User`,
  the four predicates, `queryGroupDb` and `queryUserDb` (as
  `QueryGroupDb`/`QueryUserDb`), and the four lookups.

What lies outside the program becomes a parameter:

- The socket is a `Socket` value. It holds the error of dialling, the
  error of writing, the bytes the service sends, and the error the
  stream ended with (`None` for a plain EOF).
- JSON encoding of the request is a parameter `encode`.
- JSON decoding of a reply frame is a partial function
  `decode: Frame -> Option<Envelope<R>>`, where `None` is a decode error.

Where the code and the prose description of this component disagree,
the model follows the code:

- The last matching record wins, not the first. The callback overwrites
  `group`/`u` on every match (`src/os/user/lookup_linux.go:124`, `:173`).
- A frame that fails to decode is not a fatal error. `queryUserdbd`
  returns `nil` (`src/os/user/lookup_linux.go:76-78`), so the lookup
  returns the result captured so far, possibly nil, with no error.

The reply is taken to arrive in full before it is scanned. The scanner
first asks the split function without end of stream, and only asks again
at end of stream when the split function wants more data. So the
scanner sees the read error (`sc.Err()`) only in two cases:

- the frames ran out;
- the frame that stopped the loop was an undelimited tail, which the
  split function yields only at end of stream.

`EndReached` states exactly these two cases. For example, the
one-frame reply of the package's own test ends the loop on its
delimited frame, so the query succeeds however the connection is left
(`StdlibcontribScenario`).

The round trip without a trailing 0x00 (`FramesOfJoin`) needs a
non-empty last frame. `Join(fs + [[]])` is the same byte string as
`Terminate(fs)`, and the split function yields nothing for the empty
data at end of stream. So an empty final undelimited frame is not read
back (`EmptyLastFrameIsLost`), just as with `bufio.ScanLines`.

## Model

| member | source | states |
|---|---|---|
| `Framing.IndexByte` | src/os/user/lookup_linux.go:63 | the result is -1 exactly when the byte is absent; otherwise it is an index holding the byte, with no earlier occurrence |
| `Framing.Split` | src/os/user/lookup_linux.go:59-73 | with a 0x00 in data: token = bytes before the first 0x00, which has no 0x00 in it, and advance = its index + 1 (delimiter consumed, not included); at EOF with no 0x00 and data non-empty: the whole data with advance = len(data); otherwise (EOF with no data, or no 0x00 before EOF): no token, advance 0 |
| `Framing.Scan` | src/os/user/lookup_linux.go:59-74 | one `sc.Scan()` over the buffered rest: no token exactly when nothing is left; the token has no 0x00 and at least one byte is consumed; without EOF the token is followed by 0x00 and both are consumed; at EOF the token is the whole rest, which has no 0x00 |
| `Framing.Frames` | src/os/user/lookup_linux.go:74 | the frames the scanner yields from a reply, in stream order; there are none exactly when the reply is empty |
| `Framing.FramesAreZeroFree` | src/os/user/lookup_linux.go:63-66 | no frame the scanner yields contains a 0x00 byte |
| `Framing.FramesStep` | src/os/user/lookup_linux.go:74-75 | at offset start, the next token is the first frame of what is left, and scanning resumes at start + advance, within the reply |
| `Framing.Delimited` | src/os/user/lookup_linux.go:54 | the bytes written are the payload followed by exactly one 0x00 byte |
| `Framing.FramesOfTerminateThen` | src/os/user/lookup_linux.go:59-74 | frames without 0x00, each written with a 0x00 after it, are read back first and in order, whatever bytes follow them |
| `Framing.FramesOfTerminate` | src/os/user/lookup_linux.go:59-74 | round trip with a trailing 0x00: Frames(Terminate(fs)) == fs for frames without 0x00 |
| `Framing.FramesOfJoin` | src/os/user/lookup_linux.go:59-74 | round trip without a trailing 0x00: Frames(Join(fs)) == fs for frames without 0x00 whose last frame is non-empty (the undelimited tail is taken at EOF) |
| `Framing.TerminateEndsInNul` | src/os/user/lookup_linux.go:63-66 | frames written with a delimiter after each end in 0x00 |
| `Framing.EmptyLastFrameIsLost` | src/os/user/lookup_linux.go:60-62 | an empty undelimited last frame is not read back: Frames(Join(fs)) drops it, because the split function yields nothing for no data at EOF |
| `Framing.FramesReassemble` | src/os/user/lookup_linux.go:59-74 | the converse round trip: the frames of any reply, written back with Terminate (reply empty or ending in 0x00) or Join (otherwise), give the reply |
| `Framing.RequestIsOneFrame` | src/os/user/lookup_linux.go:50-54 | a request payload without 0x00, sent with its one trailing 0x00, is read back as exactly one frame |
| `Decimal.FormatNat` | src/os/user/lookup_linux.go:126 | the rendering of a natural number is a canonical numeral (digits only, no leading zero except "0") whose value is the number |
| `Decimal.FormatInt` | src/os/user/lookup_linux.go:126 | strconv.FormatInt(x, 10) is a canonical decimal string (optional '-', no leading zero, no "-0") whose value is x, including the most negative int64 |
| `Decimal.FormatNatOfNumeral` | src/os/user/lookup_linux.go:102-103 | rendering the value of a canonical numeral gives that numeral back |
| `Decimal.FormatIntExact` | src/os/user/lookup_linux.go:102-103 | FormatInt(x) == s holds exactly when s is canonical and denotes x, in both directions |
| `Decimal.FormatIntInjective` | src/os/user/lookup_linux.go:152 | distinct ids render distinctly; a rendering never starts with '+' and has no leading '0' |
| `Userdb.Processed` | src/os/user/lookup_linux.go:74-82 | the number of frames handed to the callback is at most the number of frames, and at least one when there is a frame |
| `Userdb.ProcessedStopsAtFirst` | src/os/user/lookup_linux.go:74-82 | every frame before the last one handed over decoded and continued; if frames remain, the last one handed over did not decode or said no frame follows, so no later frame reaches the callback |
| `Userdb.Accepted` | src/os/user/lookup_linux.go:117-128 | the records the callback sees are at most one per frame |
| `Userdb.AcceptedOfContinuing` | src/os/user/lookup_linux.go:74-82 | frames that all decode and continue give one record each |
| `Userdb.AcceptedAfterContinuing` | src/os/user/lookup_linux.go:74-82 | after a run of continuing frames, the records are those of the run followed by those of the rest, in stream order |
| `Userdb.ProcessedAfterContinuing` | src/os/user/lookup_linux.go:74-82 | a run of continuing frames is handed over in full before the rest is looked at |
| `Userdb.LastMatch` | src/os/user/lookup_linux.go:121-127 | no selection exactly when no record satisfies the predicate; a selection satisfies it |
| `Userdb.LastMatchIndex` | src/os/user/lookup_linux.go:121-127 | the index is of a matching record and no later record matches, or -1 |
| `Userdb.LastMatchSnoc` | src/os/user/lookup_linux.go:121-127 | a later matching record replaces the selection; a later non-matching one leaves it unchanged |
| `Userdb.NonMatchIgnored` | src/os/user/lookup_linux.go:121-122 | a record that does not satisfy the predicate never changes the selection, wherever it stands in the stream |
| `Userdb.CapturedSnoc` | src/os/user/lookup_linux.go:109-128 | capturing the records one by one, each match overwriting the capture, gives the mapped last match of all of them, or the initial value when none matches |
| `Userdb.StopFrameEndsQuery` | src/os/user/lookup_linux.go:79-87 | a decoded frame with continues == false ends the query: later frames do not matter, and unless it is an undelimited tail of a stream that ended in a read error, the query succeeds with the last match among the records up to and including it |
| `Userdb.SingleFrameReply` | src/os/user/lookup_linux.go:74-87 | a reply of one delimited, decoded, non-continuing frame selects its record when it matches and nothing otherwise, with no error |
| `Userdb.DecodeErrorIsAbsence` | src/os/user/lookup_linux.go:76-78 | a frame that fails to decode ends the query with no error, whatever follows and however the stream ended; the result is the last match among the earlier records, or none |
| `Userdb.Selector.constructor` | src/os/user/lookup_linux.go:109-110 | the callback starts with no captured result and holds the decoder, predicate and mapping |
| `Userdb.Selector.Unmarshal` | src/os/user/lookup_linux.go:110-129 | a decode error is reported, with continues false and the capture unchanged; otherwise a matching record's mapping replaces the capture, a non-matching one leaves it, and the frame's continues flag is returned |
| `Userdb.ExitExhausted` | src/os/user/lookup_linux.go:83-85 | when the scanner runs out of frames, every frame was handed over and the end of the stream was seen |
| `Userdb.StopAt` | src/os/user/lookup_linux.go:79-81 | the loop stops at the first non-continuing frame: it is the last one handed over, and the records are those before it plus its own when it decodes |
| `Userdb.LastFrameAtEOF` | src/os/user/lookup_linux.go:68-70 | a token is the last frame with no 0x00 after it exactly when the split function yielded it at end of stream |
| `Userdb.ContinueStep` | src/os/user/lookup_linux.go:74-82 | one turn of the loop on a continuing frame: it joins the frames handed over, and scanning resumes after it |
| `Userdb.StopFrames` | src/os/user/lookup_linux.go:76-85 | one turn of the loop on a frame that stops it: the frames handed over end with it, the records are fixed, and the end of the stream has been seen exactly when it decoded and was taken at EOF |
| `Userdb.StopCaptured` | src/os/user/lookup_linux.go:117-128 | when the loop stops at a frame, the capture is that of all accepted records |
| `Userdb.ScanReply` | src/os/user/lookup_linux.go:74-87 | the loop hands the callback exactly the frames up to and including the first that does not continue, in stream order; it reports the read error only when the scanner saw the end of the stream; the capture ends as the mapped last match of the accepted records |
| `Userdb.QueryUserdbd` | src/os/user/lookup_linux.go:22-88 | a dial error is returned with nothing sent; otherwise the request for the method, service "io.systemd.NameServiceSwitch" and more = true is sent followed by one 0x00; a write error is returned; otherwise the result is that of the scan loop |
| `Lookup.ToGroup` | src/os/user/lookup_linux.go:124-127 | Name is groupName; Gid is the canonical decimal rendering of gid |
| `Lookup.ToUser` | src/os/user/lookup_linux.go:173-179 | Uid and Gid are the canonical decimal renderings of uid and gid; Username is userName, Name is realName, HomeDir is homeDirectory |
| `Lookup.Answer` | src/os/user/lookup_linux.go:130-133 | an error gives (nil, err); otherwise no error and a result exactly when a record was selected |
| `Lookup.QueryGroupDb` | src/os/user/lookup_linux.go:107-134 | sends GetGroupRecord unless dialling failed, and returns the mapped last match or nil with no error, or the query's error with nil |
| `Lookup.QueryUserDb` | src/os/user/lookup_linux.go:156-186 | sends GetUserRecord unless dialling failed, and returns the mapped last match or nil with no error, or the query's error with nil |
| `Lookup.LookupGroup` | src/os/user/lookup_linux.go:95-99 | the answer of queryGroupDb with the exact-name predicate; a group found has that name and comes with no error |
| `Lookup.LookupGroupId` | src/os/user/lookup_linux.go:101-105 | the answer of queryGroupDb with the id predicate; a group found has Gid equal to the caller's string |
| `Lookup.LookupUser` | src/os/user/lookup_linux.go:144-148 | the answer of queryUserDb with the exact-name predicate; a user found has that username |
| `Lookup.LookupUserId` | src/os/user/lookup_linux.go:150-154 | the answer of queryUserDb with the id predicate; a user found has Uid equal to the caller's string |
| `Lookup.GroupIdExact` | src/os/user/lookup_linux.go:101-105 | the gid predicate holds exactly when the caller's string is the canonical decimal spelling of the gid |
| `Lookup.UserIdExact` | src/os/user/lookup_linux.go:150-154 | the uid predicate holds exactly when the caller's string is the canonical decimal spelling of the uid |
| `Lookup.OtherSpellingsNeverMatch` | src/os/user/lookup_linux.go:101-105 | "7" matches id 7 but "007", "07", "+7" and "70" do not; "0" matches id 0 and "-0" does not |
| `Lookup.StdlibcontribScenario` | src/os/user/lookup_linux_test.go:33-76 | the test's one-frame reply for group "stdlibcontrib", gid 181, without continues: lookup by name and by gid "181" give Group("stdlibcontrib", "181") with no error, and any other name gives nil with no error, however the stream ends |

## Left out

- Socket I/O is left out: `net.Dial`, `conn.Write`, `conn.Close` and the
  `defer`. Their failures are modelled only as the error values of a
  `Socket`, returned unchanged.
- The socket address `userdbdAddress` is configuration and is not
  modelled.
- `json.Marshal` is not modelled; the request is a `Request` value turned
  into bytes by the parameter `encode`. Its error path
  (`src/os/user/lookup_linux.go:50-53`) is left out: marshalling a struct
  of strings and a bool does not fail.
- `json.Unmarshal` is the parameter `decode`. Any `decode` is allowed, so
  the model does not say which bytes decode to which record, nor that a
  missing `continues` field reads as false.
- The scanner's buffering is not modelled: buffer growth, reads in
  chunks, and `bufio.ErrTooLong`. The model reads the whole reply at once
  and splits frames of any length. A frame longer than the scanner's
  maximum token size, which makes the real scan fail with that error, is
  therefore not modelled.
- `Userdb.ScanReply` assumes the whole reply is available before the
  first split. Its contract reports the read error exactly when the
  scanner needed the end of the stream. A connection that delivers a
  frame and its delimiter in separate reads is not distinguished from
  one that delivers them together.
- The tests' Unix-socket listener and goroutines
  (`src/os/user/lookup_linux_test.go`) are not modelled. Only their reply
  is stated, as `StdlibcontribScenario`.
