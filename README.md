# zerochat core, modelled in Dafny

zerochat is a small chat system written in Go: a chat server, a desktop client and a home-made
websocket-like protocol between them. This project models the deterministic core of it:

- **Frame codec and message transport** (`Frames`, `Transport`, after
  `chatProto/websockets/websocket.go`). A frame always travels in one 1024-byte buffer. The header
  follows the base framing layout of section 5.2 of RFC 6455, restricted to the 7-bit and 16-bit
  length forms. The 4-byte key is copied into the header, but the payload is never XORed with it.
  A message is sent as a private "length frame" (opcode 0x0B) and then text frames holding
  consecutive pieces of the payload. Only the last text frame carries FIN.
  - `wsFrame.write` is an in-place method on an `array<bv8>`. It is proved equal to a
    specification function, `WriteResult`.
  - `parseFrame` and `ReadMessage` are functions of the buffers read.
  - `CreateMessage` returns the sequence of buffers it writes.
  - The main theorems are two round trips: parse after write gives the frame back, and
    `ReadMessage` after `CreateMessage` gives the payload back.
- **Server hub** (`Server`, after `server/server.go`). The registered clients, keyed by user
  id, each with the queue of messages sent on its channel. The hub covers registration and
  removal with their broadcasts, the sorted directory of other users, message forwarding, and the
  dispatch by message type in a connection's read loop.
- **Legacy protocol registry** (`ChatProto`, after `chatProto/chatProto.go`).
  - The global `registeredClients` map becomes a class.
  - It covers the connect and disconnect notices, `verifyClient` with its `name,id` user string,
    `GetUsers`, `SendMessage`, `ClientQuit` and `ClientSendMsg`. A Go panic in the last two is an
    explicit outcome.
  - It also covers both sides of the handshake check.
- **Client state** (`DomainClient`, after `chatProto/domain/client.go`). The per-message update
  of the online users, the chat histories and the notifications, plus `InitClientConnection`.
- **Client user registry** (`ClientTypes`, after `client/types/types.go`). `InitRegistry`, the
  event loop body and the two getters.
- **User list** (`UserList`, after `client/ui/userList.go`). `filterMessages`,
  `getLastMessage` and the in-place rebuild of the card slice in `updateUserCards`.
- **Configuration** (`Config`, after `client/config/config.go`). The defaults, the line loop of
  `ReadConfig` and the output of `WriteConfig`. It is proved that reading back what was written
  gives the same configuration.

Shared support modules:

- `Common`: Option and Result.
- `Strings`: Go's `strings.Split`, `Join`, `TrimSpace`, `ToLower` and `<`.
- `Sorting`: a sort specified as sorted plus permutation, which is all `slices.Sort` and
  `slices.SortFunc` promise.
- `Maps`: map iteration in an unspecified order, and a map built from a slice.
- `Domain`: the records of `chatProto/domain`.

External effects are parameters:

- Sockets are sequences of buffers or read outcomes.
- JSON encoding and decoding are the function parameters `marshal` and `unmarshal`.
- SHA-1 followed by base64 is the parameter `digest`.
- A new user's uuid is the parameter `id`.
- The configuration file is its text, or None when it cannot be opened.

## Model

| member | source | states |
|---|---|---|
| Frames.WriteResult | chatProto/websockets/websocket.go:45-89 | write on a buffer of FRAME_SIZE bytes: the buffer keeps its size; a payload of FRAME_SIZE or more fails before the length is written |
| Frames.Write | chatProto/websockets/websocket.go:45-89 | the in-place write leaves exactly the buffer and error of WriteResult on the old buffer contents |
| Frames.WriteHeader | chatProto/websockets/websocket.go:46-71 | the flag and length part of write: fails exactly for payloads of FRAME_SIZE or more, else the 7-bit or 16-bit length follows the flags |
| Frames.WriteFlags | chatProto/websockets/websocket.go:46-58 | FIN and the opcode are ORed into byte 0, the mask bit into byte 1, and nothing else changes |
| Frames.WriteBody | chatProto/websockets/websocket.go:73-88 | once the header is in place, copying the key and then the payload completes WriteResult, partial copies included |
| Frames.Copy | chatProto/websockets/websocket.go:75-83 | Go's copy: min(room, len(src)) bytes are copied, and the rest of the array is untouched |
| Frames.WriteFailures | chatProto/websockets/websocket.go:63-88 | write succeeds iff the payload is shorter than a frame, the key is at most 4 bytes, and header plus payload fit; the too-long and key-too-long errors are reported as such |
| Frames.HeaderLenIsPayloadOffset | chatProto/websockets/websocket.go:91-103 | computeHeaderLen (2/6 for lengths up to 125, 4/8 above) is exactly where a successful write puts the payload, and the bytes behind it are untouched |
| Frames.KeyOffset | chatProto/websockets/websocket.go:73-80 | a 4-byte key lands right behind the length field |
| Frames.HeaderLayout | chatProto/websockets/websocket.go:46-68 | on a zeroed buffer, byte 0 is FIN and opcode, byte 1 is the mask bit and the 7-bit length or 126, and bytes 2-3 hold the big-endian length |
| Frames.ExtendedLength | chatProto/websockets/websocket.go:66-67 | the 16-bit length survives its split into two bytes |
| Frames.ComputeHeaderLen | chatProto/websockets/websocket.go:91-103 | the header length is the end of the length field as write lays it out (2, or 4 past 125 bytes) plus 4 for a masked frame's key |
| Frames.ParseFrame | chatProto/websockets/websocket.go:131-171 | the result is the panic outcome exactly when the key offset plus the declared length (7-bit, or 16-bit big-endian after 126) runs past the buffer, and then names that end; otherwise the payload is the slice of that length behind the header, FIN is bit 7 of byte 0, the opcode is its low 4 bits, the mask flag is bit 7 of byte 1, and a masked frame's key is the 4 bytes right after the length field |
| Frames.ParseKnownLayout | chatProto/websockets/websocket.go:131-171 | a buffer laid out as write lays it out parses to that frame |
| Frames.RoundTrip | chatProto/websockets/websocket.go:45-171 | for every frame write accepts, write on a fresh buffer succeeds and parseFrame gives the frame back (an unmasked frame without a key) |
| Transport.Fragments | chatProto/websockets/websocket.go:105-122 | a payload that fits one piece is that piece alone, and there is always at least one piece |
| Transport.FragmentsCount | chatProto/websockets/websocket.go:111-121 | a non-empty payload gives ⌈len/max⌉ pieces: one piece fewer could not hold it, and that many can |
| Transport.CompletePieces | chatProto/websockets/websocket.go:113-116 | the loop cuts the full-size pieces in order, as Pieces does |
| Transport.FragmentPayload | chatProto/websockets/websocket.go:105-122 | the loop computes Fragments of the payload with pieces of frameSize minus computeHeaderLen bytes |
| Transport.FragmentsFlatten | chatProto/websockets/websocket.go:105-122 | concatenating the fragments gives back the payload exactly |
| Transport.FragmentsShape | chatProto/websockets/websocket.go:105-122 | there is at least one piece; every piece but the last is full size, and none is larger; a non-empty payload has no empty piece |
| Transport.PiecesFitFrame | chatProto/websockets/websocket.go:105-122 | every piece, with its own header, fits in a frame |
| Transport.FlattenAppend | chatProto/websockets/websocket.go:200-203 | the payload concatenation distributes over appending |
| Transport.BigEndianRoundTrip | chatProto/websockets/websocket.go:212-215 | PutUint64's big-endian bytes read back as the length |
| Transport.WriteFresh | chatProto/websockets/websocket.go:211-223 | the buffer from write on a fresh buffer is Encode of the frame, together with write's error |
| Transport.LengthFrame | chatProto/websockets/websocket.go:214-222 | the length frame has FIN, the private opcode 0x0B, the "aaaa" key and, as payload, the message length as 8 big-endian bytes, which decode back to the length for any length below 2^64; write accepts it |
| Transport.TextFrames | chatProto/websockets/websocket.go:231-238 | one text frame per piece, carrying that piece, with FIN on the last one only |
| Transport.WriteTextFrames | chatProto/websockets/websocket.go:231-243 | the text-frame loop writes the encodings of the text frames of the pieces, in order |
| Transport.TextFrameAt | chatProto/websockets/websocket.go:232-238 | text frame k carries piece k, with FIN exactly on the last one |
| Transport.CreateMessage | chatProto/websockets/websocket.go:210-246 | CreateMessage never fails, and writes the length frame then the text frames: the Transmission of the payload |
| Transport.LengthFrameWrites | chatProto/websockets/websocket.go:216-227 | the length frame always fits, so its write cannot fail |
| Transport.Fill | chatProto/websockets/websocket.go:174-178 | the buffer after conn.Read: the bytes read, then the zeros of the fresh buffer; at most a buffer's worth is taken |
| Transport.Read | chatProto/websockets/websocket.go:174-178 | one conn.Read into a fresh buffer: fails on an error or the end of the stream, else fills the buffer |
| Transport.ReadMessage | chatProto/websockets/websocket.go:173-208 | the read loop returns exactly Receive of the read outcomes, and uses as many reads |
| Transport.Receive | chatProto/websockets/websocket.go:173-208 | at least one read is made, and no more than there are outcomes plus the failing one |
| Transport.Collect | chatProto/websockets/websocket.go:186-205 | the continuation loop makes at least one more read and no more than are available, and keeps what was gathered before as the start of the message |
| Transport.ShortFirstRead | chatProto/websockets/websocket.go:179-181 | a first read shorter than a frame is the read error, after one read |
| Transport.ReceiveSingleFrame | chatProto/websockets/websocket.go:184-207 | a single frame that is not a length frame is the whole message |
| Transport.CollectFrames | chatProto/websockets/websocket.go:186-205 | after a length frame, frames are gathered up to the first with FIN, and their payloads are concatenated |
| Transport.MessageFrames | chatProto/websockets/websocket.go:229-243 | a message's text frames are all accepted by write and parseFrame, only the last has FIN, and together they carry the payload |
| Transport.ReceiveFrames | chatProto/websockets/websocket.go:173-208 | a length frame followed by encodable frames ending in FIN is received as their payloads, whatever follows |
| Transport.ReceiveTransmission | chatProto/websockets/websocket.go:173-246 | ReadMessage of what CreateMessage wrote gives the payload back, using exactly those buffers |
| Server.Hub.constructor | server/server.go:29-33 | InitHub: no clients |
| Server.Hub.AddClient | server/server.go:35-47 | the client is registered under its id, replacing an earlier one, and every other client gets one USER_CONNECTED for it |
| Server.Hub.RemoveClient | server/server.go:49-59 | the id is unregistered, and every remaining client gets one USER_DISCONNECTED for the user |
| Server.Hub.Announce | server/server.go:39-58 | the map-order loop sends the note once to each client not skipped and leaves the others as they were |
| Server.Hub.GetClient | server/server.go:61-70 | the client is found iff its id is registered; the name plays no part |
| Server.Hub.OtherUsers | server/server.go:80-97 | the directory: every registered user except the sender exactly once, sorted by name |
| Server.Hub.GetActiveUsers | server/server.go:72-105 | an unregistered sender is an error; otherwise a GET_USERS_RESPONSE from the registered sender holding the directory, and no client changes |
| Server.Forwarded | server/server.go:107-118 | the message is appended to the receiver's queue iff sender and receiver are registered; no other queue changes |
| Server.Hub.ForwardMessage | server/server.go:107-118 | the clients after forwardMessage are Forwarded of the clients before |
| Server.Hub.HandleMessage | server/server.go:164-178 | GET_USERS is answered iff the sender is registered and changes nothing; SEND_MSG_SINGLE is forwarded; any other type is ignored |
| Server.Added | server/server.go:35-47 | after addClient the client is under its id and every other client has one USER_CONNECTED more |
| Server.Removed | server/server.go:49-59 | after removeClient the id is gone and every remaining client has one USER_DISCONNECTED more |
| Server.Handled | server/server.go:168-178 | one message of the read loop changes no registration and no user, only queues |
| Server.HandledAll | server/server.go:162-179 | the read loop over a session's messages changes no registration and no user |
| Server.HandledAllQueue | server/server.go:107-118 | over a session, a client's queue grows by exactly the messages forwarded to it, in order |
| Server.SessionQueues | server/server.go:134-182 | after a session another client's queue holds, in order, the connection note, the messages forwarded to it and the disconnection note |
| Server.Hub.ReadLoop | server/server.go:161-179 | the clients after the read loop are HandledAll of the clients before; one reply per GET_USERS request from a registered sender, in order, each from that sender and holding its directory |
| Server.Hub.Session | server/server.go:134-182 | the clients after a session are Removed of the read loop's effect on Added of the clients before; one reply is written per GET_USERS request from a registered sender, in order, each from that sender and holding its directory |
| ChatProto.VerifyClient | chatProto/chatProto.go:291-305 | a client is found iff the user string splits at ',' into exactly two parts and the second, the id, is registered |
| ChatProto.VerifyEntry | chatProto/chatProto.go:291-305 | the `name,id` string of a registered comma-free entry finds that client |
| ChatProto.VerifyNeedsOneComma | chatProto/chatProto.go:292-296 | a user string without exactly one comma finds nothing |
| ChatProto.ComputeHandshakeKey | chatProto/chatProto.go:127-136 | the accept value is the digest of the key followed by the GUID 258EAFA5-E914-47DA-95CA-C5AB0DC85B11 of section 1.3 of RFC 6455 |
| ChatProto.ServerHandshake | chatProto/chatProto.go:145-160 | 400 iff the Sec-WebSocket-Key header is blank after trimming; otherwise 101 with Upgrade headers and the accept key of the trimmed key |
| ChatProto.ClientCheck | chatProto/chatProto.go:231-245 | the client accepts iff the status is 101, the Upgrade and Connection headers are right, and the accept key matches; a status other than 101 is reported first |
| ChatProto.HandshakeAgrees | chatProto/chatProto.go:231-245 | the client accepts the server's answer to its own (non-blank, trimmed) key |
| ChatProto.Registry.constructor | chatProto/chatProto.go:21 | the registry starts empty |
| ChatProto.Registry.Register | chatProto/chatProto.go:175-184 | a connection registers a fresh open client under its id |
| ChatProto.Registry.NotifyConnect | chatProto/chatProto.go:116-125 | every open client but the new one gets one USER_CONNECTED whose content is `name,id` |
| ChatProto.Registry.Teardown | chatProto/chatProto.go:101-114 | the client is deleted, then every remaining open client gets one USER_DISCONNECTED carrying the id |
| ChatProto.Registry.Announce | chatProto/chatProto.go:108-125 | the map-order loop sends the note once to each open client not skipped |
| ChatProto.Registry.OtherEntries | chatProto/chatProto.go:318-328 | the `name,id` entries of every other client, each once, in string order |
| ChatProto.Registry.GetUsers | chatProto/chatProto.go:307-336 | an unverified sender changes nothing; otherwise the sorted entries, joined by newlines, are queued for the sender unless its channel is closed |
| ChatProto.Registry.SendMessage | chatProto/chatProto.go:338-353 | the message is queued for the recipient iff both are verified and the recipient's channel is open |
| ChatProto.Quit | chatProto/chatProto.go:264-275 | a client-side registry must hold exactly one client, and the id must be registered; otherwise it panics |
| ChatProto.SendOwn | chatProto/chatProto.go:277-289 | panics unless exactly the given peer is registered; otherwise only that peer's queue may change, growing by the message when its channel is open |
| ChatProto.QuitTwice | chatProto/chatProto.go:264-275 | quitting is idempotent |
| ChatProto.SendAfterQuit | chatProto/chatProto.go:277-289 | after quitting, sending changes nothing |
| ChatProto.Registry.ClientQuit | chatProto/chatProto.go:264-275 | the registry after ClientQuit is Quit's, and the method panics exactly when Quit does |
| ChatProto.Registry.ClientSendMsg | chatProto/chatProto.go:277-289 | the registry after ClientSendMsg is SendOwn's, and the method panics exactly when SendOwn does |
| DomainClient.ChatClient.InitClientConnection | chatProto/domain/client.go:100-125 | a new user with nothing online and no history, whose one queued request is GET_USERS |
| DomainClient.ChatClient.HandleMessage | chatProto/domain/client.go:56-93 | per type: a decoded user list replaces the online users (a list that fails to decode changes nothing and skips the callback); a chat line is appended to the sender's history, marks it unread and adds a notification; connect adds the user with an empty history; disconnect removes both; other types change nothing |
| DomainClient.ChatClient.SetActiveUsers | chatProto/domain/client.go:65-68 | the online users are exactly the decoded list keyed by id, the later of two with the same id winning |
| Maps.KeyedBy | chatProto/domain/client.go:65-68 | every listed item is present under its key, and every entry is a listed item under its own key |
| Maps.KeyedByLast | chatProto/domain/client.go:66-68 | of several items with the same key, the last one is kept |
| Maps.RangeOrder | server/server.go:39 | map iteration visits every key exactly once |
| ClientTypes.GetUserId | client/types/types.go:47-61 | the id an event is about; a connection event carries it in its details |
| ClientTypes.Registry.InitRegistry | client/types/types.go:70-80 | every given user, keyed by id with no messages, and the user itself with no messages |
| ClientTypes.Registry.Apply | client/types/types.go:81-99 | connect adds a user with no messages; disconnect deletes; a message for a user is appended to its list (an unknown id starts from the zero user); a message for self is appended to self; nothing else changes |
| ClientTypes.Registry.GetUserDetails | client/types/types.go:104-112 | the details of every registered user, one per user |
| ClientTypes.Registry.GetUserById | client/types/types.go:114-119 | found iff the id is registered, with that user; otherwise the zero user |
| UserList.Filtered | client/ui/userList.go:34-42 | keeps exactly the SEND_MSG_SINGLE messages, and never more messages than given |
| UserList.FilteredAppend | client/ui/userList.go:34-42 | filtering goes message by message, so order is kept |
| UserList.FilterMessages | client/ui/userList.go:34-42 | the loop computes Filtered |
| UserList.LatestShows | client/ui/userList.go:47-58 | the last chat line by time is one no other chat line is later than |
| UserList.GetLastMessage | client/ui/userList.go:44-62 | "Say Hi!" when there is no chat line; otherwise the content of a chat line with the latest timestamp |
| UserList.SortedUsers | client/ui/userList.go:66-74 | every online user exactly once, ordered by lower-cased name |
| UserList.CardList.UpdateUserCards | client/ui/userList.go:64-103 | as many cards as online users; card i shows the i-th user by lower-cased name and that user's last line; a card in an existing slot is reused with only user and line rewritten; an empty slot gets a new card |
| UserList.CardList.RewriteCards | client/ui/userList.go:87-99 | the rewrite loop: each slot up to the user count gets its user and line, reusing the card it holds |
| UserList.CardList.SetCard | client/ui/userList.go:89-97 | one slot is set; every other slot and its card are unchanged |
| Config.DefaultClientConfig | client/config/config.go:24-29 | localhost:8080 |
| Config.DefaultServerConfig | client/config/config.go:31-36 | 0.0.0.0:8080 |
| Config.ScanLines | client/config/config.go:70-72 | the scanner's lines hold no newline, and an empty file has none |
| Config.ScanWritten | client/config/config.go:70-72 | lines written each ending in a newline scan back as themselves |
| Config.Entry | client/config/config.go:74-78 | a line is a setting iff it holds exactly one ':', and then the key is the trimmed text before that ':' and the value the trimmed text after it |
| Config.ApplyLine | client/config/config.go:74-87 | a line changes at most one field, and a line that sets neither Host nor Port changes nothing |
| Config.ApplyLines | client/config/config.go:72-88 | every field keeps its default or takes the value of a line that sets it |
| Config.ApplyLineGet | client/config/config.go:79-87 | a line changes a field exactly when it sets it, and then to its value |
| Config.NoLineSets | client/config/config.go:72-88 | a field no line sets keeps its default |
| Config.LastLineWins | client/config/config.go:72-88 | a field takes the value of the last line that sets it |
| Config.ReadConfig | client/config/config.go:61-96 | a missing file yields the defaults and writes them; otherwise the lines are applied to the defaults in order |
| Config.Rendered | client/config/config.go:38-51 | the file text is `Host: <host>\n` then `Port: <port>\n` |
| Config.WriteConfig | client/config/config.go:38-51 | writes `Host: <host>\n` then `Port: <port>\n` |
| Config.FieldLineEntry | client/config/config.go:74-83 | a written line reads back as the setting of its field |
| Config.ApplyFieldLine | client/config/config.go:74-87 | a written line sets its field to the written value |
| Config.RoundTrip | client/config/config.go:38-96 | reading back what WriteConfig wrote gives the same Config, whatever the defaults, for values without ':', newlines or surrounding white space |
| Strings.Split | chatProto/chatProto.go:292 | one piece more than there are separators, none holding a separator |
| Strings.Join | chatProto/chatProto.go:330 | the first part comes first, and the length is the parts' lengths plus one separator per gap |
| Strings.SplitTwo | client/config/config.go:74 | a string that splits into two pieces is the first, the separator, then the second |
| Strings.JoinSplit | chatProto/chatProto.go:292 | joining the pieces of a split gives the string back |
| Strings.SplitJoin | chatProto/chatProto.go:330 | splitting a join of separator-free parts gives the parts back |
| Strings.TrimSpace | chatProto/chatProto.go:145 | the result is a slice of the input with only white space before and after it, and none at its own ends; an already trimmed string is unchanged |
| Strings.TrimSpaceEmpty | chatProto/chatProto.go:145-149 | the trimmed key is empty iff the header is all white space |
| Strings.ToLower | client/ui/userList.go:67-74 | same length, each character lowered as LowerChar says |
| Strings.LessEqTotalOrder | client/ui/userList.go:67-74 | Go's string order is a total order |
| Sorting.SortBy | client/ui/userList.go:48-55 | the result is sorted by the comparator and is a permutation of the input |

## Left out

- Concurrency is not modelled: goroutines, blocking channels, the mutexes and the races they leave. Each hub or registry operation is one atomic step, and a channel send appends to a queue.
- Socket and HTTP plumbing is not modelled: dialing, HTTP requests, Hijack, the gorilla upgrader and ReadJSON/WriteJSON. Connections are sequences of buffers or read outcomes.
- JSON, SHA-1 with base64, random nonces and uuids are function parameters. A json.Marshal failure in getActiveUsers is not modelled.
- The read loop of runChatProtocol in chatProto/chatProto.go is not modelled: it parses a message and hands it to a callback. The handshake's header checks are modelled as ClientCheck.
- websocket/websocket.go, client/client.go and the GUI files other than userList.go are not part of this model.
- UserList.CardList.UpdateUserCards: a card's button and its click state are represented only by `unread`, which is proved to be left alone.
- Strings.ToLower lowers ASCII letters only, not the full Unicode mapping of strings.ToLower.
- Message contents are `string` rather than `[]byte`.
- Transport.LengthFrame: the announced length travels and is ignored on receipt, as in the source.
- Config.ReadConfig: scanner errors, including lines over 64 KiB, are not modelled. A failure to create the file is not modelled.
- Log and console output is not modelled: the log.Printf calls in server/server.go and chatProto/domain/client.go, and the fmt.Printf traces in chatProto/websockets/websocket.go (SEND, RECV, the header dump) and chatProto/chatProto.go. None of them changes state.
- userList.go reads the history map as a slice of messages; the model takes the messages of the ChatHistory record that chatProto/domain/client.go keeps.
- Timestamps are integers. Sorting by `Before` and `After` is sorting by `<=`; ties are unordered, as with the unstable sort.
