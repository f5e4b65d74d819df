# Proofs about a chat-bot server and its wire protocol

A Dafny model of the parts of the repository whose behaviour is hard to see by reading one function at a time, with
proofs of what they promise. `dafny verify dfyconfig.toml` covers the whole project.

Five groups of modules share the byte-sequence vocabulary of `Bytes`, `Runs`, `Text` and `Strings`.

* **Wire codecs**: `Varint`, `NimProperty`, `NimHeader`, `NimMessage`, `NimLogin`, `RequestMetadata`, `H2Shape`,
  `Base64Url`, `MessageCodec`, `BusinessWire`, `MessageEnvelope`. Every parser is a loop equal to a specification
  function; the main results are round trips, prefix-freeness, and exact descriptions of what is accepted. `Runs`
  proves once, for any reader that looks only at the bytes it consumes, what all lists laid end to end have in common.
* **Interleaved protocols**: `Credentials`, `WebLogin`, `AdminAccount`, `SessionEpoch`, `ModelExecutor`,
  `ReceiveLoop`. Each lock-protected block is a method of a class and, through the same specification function, one
  step of a system. A run is any list of events; an event that is not possible changes nothing, so every statement
  about runs holds for every interleaving, cancellation and failure the events describe.
* **The NIM client**: `NimClient`. The socket is a sequence of frames; time-outs are its end.
* **Caches, limiters and budgets**: `Limits`, `ReplyCache`, `RequestBudget`, `Calibration`, each against its whole
  history.
* **Schedulers and allocators**: `Activities`, `FactCheck`, `CardNames`, `MemberPages`.

Ciphers, hashes, LZ4, Protocol Buffers messages, the Zstandard decompressor, time zones, character classes and the
regular expressions are function values whose laws are stated in a predicate named `Lawful` (or, for texts, not needed
at all). The laws can be met: `LawfulEnvelope.LawfulExists` and `BusinessWire.LawfulExists` build libraries that do,
for any cipher and MAC, and `Activities.FixedOffsetsAreLawful` does it for zones. Clocks, randomness, the network,
the database's success and the point where a request is dropped are parameters.

What an operation does is stated twice: by the specification function its method is equal to, and by lemmas in terms
of the bytes, fields, events or history alone. The names of most of these end in Exactly; those that begin with
Undisturbed are about a whole request that nothing interferes with.

Where the code does less than its description suggests, the model follows the code:

* A credential change whose request is dropped while the password is being hashed commits but never clears the
  sessions (`WebLogin.DroppedChangeLeavesSessions`); `WebLogin.AccountedExactly` says exactly when no change is lost,
  and `WebLogin.QuietMeansCurrent` when all sessions are current.
* A poll whose outer deadline passes while the second credential check waits for its lock loses the packet it has
  read and reports nothing (`NimClient.InterruptedPollLoses`); no other call that does not fail loses a packet
  (`NimClient.FineLosesExactly`, `NimClient.NothingLost`).
* A packet lost on a socket that stays open lets the sync cursor pass a message that was never stored
  (`ReceiveLoop.LossIsNotNoticed`); `ReceiveLoop.SavedCursorIsHonest` says exactly when it does not.
* A login request with both an unknown and a repeated field is refused for whichever comes first
  (`NimLogin.OrderMatters`); otherwise the order of the fields is irrelevant (`NimLogin.OrderIndependent`).

## Model

| member | source | states |
|---|---|---|
| Varint.Put | crates/dh-protocol/src/nim_property.rs:10-16 | appends the base-128 digits of a value, least significant first, all but the last flagged |
| Varint.Read | crates/dh-protocol/src/nim_property.rs:51-65 | the reading loop: a value with its length, or which of cut short and too wide it is, for each of the width and last-digit rules in use |
| Varint.RoundTrip | crates/dh-protocol/src/nim_property.rs:10-16 | a value that fits reads back with exactly its own bytes consumed, whatever follows |
| Varint.OwnBytesOnly | crates/dh-protocol/src/nim_property.rs:51-65 | an accepted varint, canonical or not, is cut short by any proper prefix and indifferent to what lies behind it |
| Varint.NeverLonger | crates/dh-protocol/src/nim_property.rs:51-65 | writing an accepted value again takes at most the bytes it was read from |
| Varint.AcceptedExactly | crates/dh-protocol/src/nim_message.rs:91-105 | the accepted inputs are exactly those with a terminating digit within the width and a last digit within its bound, and the value is the one they denote |
| NimProperty.Encode | crates/dh-protocol/src/nim_property.rs:19-50 | the writing loop returns the wire form or the first limit it runs into |
| NimProperty.Decode | crates/dh-protocol/src/nim_property.rs:66-89 | the reading loop returns the fields and the bytes consumed, or the first error |
| NimProperty.BadNumber | crates/dh-protocol/src/nim_property.rs:66-89 | a number that does not end or is no u32 is told from one cut short, and from the limits |
| NimProperty.EncodesExactly | crates/dh-protocol/src/nim_property.rs:19-50 | encoding succeeds exactly when the list meets both limits |
| NimProperty.RoundTrip | crates/dh-protocol/src/nim_property.rs:66-89 | an encoding followed by anything, within the limits, decodes to its list and exactly its length |
| NimProperty.OwnBytesOnly | crates/dh-protocol/src/nim_property.rs:66-89 | every proper prefix of an accepted list is Truncated, and what lies behind it is never looked at |
| NimProperty.PrefixFree | crates/dh-protocol/src/nim_property.rs:19-50 | no encoding is a prefix of the encoding of another list |
| NimProperty.ReencodingNeverLonger | crates/dh-protocol/src/nim_property.rs:66-89 | whatever is accepted can be encoded again under the same limits in at most the bytes consumed |
| NimProperty.CollectsExactly | crates/dh-protocol/src/nim_message.rs:48-80 | a list becomes a map exactly when no id is repeated, and the map then holds the list |
| NimHeader.Parse | crates/dh-protocol/src/nim_header.rs:25-58 | declared length, fixed fields and optional status, or what is missing |
| NimHeader.LayoutReadsBack | crates/dh-protocol/src/nim_header.rs:25-58 | every laid-out header, with or without a status, reads back field by field, leaving its body untouched |
| NimHeader.ParsedExactly | crates/dh-protocol/src/nim_header.rs:25-58 | what an accepted header says byte by byte; the status is there exactly if the second bit of the tag is set |
| NimHeader.RequestReadsBack | crates/dh-protocol/src/nim_header.rs:21-24 | a request is read as its own route and serial with an accepted status |
| NimHeader.OwnBytesOnly | crates/dh-protocol/src/nim_header.rs:25-58 | cut inside itself an accepted header is Truncated; other bytes behind it change nothing |
| NimHeader.LengthBounded | crates/dh-protocol/src/nim_header.rs:25-44 | the declared length of five varint bytes never leaves 35 bits |
| NimHeader.DecodeMessage | crates/dh-protocol/src/nim_transport.rs:14-21 | a complete message is split at the end of its header, unless too large or ill-formed |
| Text.DecimalRoundTrip | crates/dh-protocol/src/nim_message.rs:48-80 | decimal numbers in fields read back within their integer width |
| Text.ValidExactly | crates/dh-protocol/src/nim_message.rs:48-80 | bytes are a string exactly if they are the bytes of Unicode scalar values end to end |
| Text.ParsedExactly | crates/dh-protocol/src/nim_message.rs:48-80 | a field is a number exactly if it is digits, with at most one plus sign before them, denoting less than the limit |
| Strings.LengthIsSpelled | crates/dh-protocol/src/message_envelope.rs:108-110 | the size that is limited is how many bytes the characters are written in |
| Strings.WhiteExactly | tauri3/src-tauri/src/ai.rs:713-715 | which characters alone make a reply empty |
| NimMessage.Collect | crates/dh-protocol/src/nim_message.rs:48-58 | stops at the first repeated id, as the map insertion does |
| NimMessage.ParseMessage | crates/dh-protocol/src/nim_message.rs:48-80 | one message out of its fields, or why not |
| NimMessage.MessageReadsBack | crates/dh-protocol/src/nim_message.rs:48-80 | a message sent in its own fields is the message received |
| NimMessage.Decode | crates/dh-protocol/src/nim_message.rs:114-193 | the dispatch over routes, the one unwrapping and the two loops |
| NimMessage.DecodeRecall | crates/dh-protocol/src/nim_message.rs:135-158 | the recall notification: target and server id, or malformed |
| NimMessage.CountedExactly | crates/dh-protocol/src/nim_message.rs:114-193 | counted notifications are accepted exactly when the body is a count and that many whole messages, at most 1024, with nothing behind |
| NimMessage.SingleExactly | crates/dh-protocol/src/nim_message.rs:114-193 | an uncounted notification is accepted exactly when it is one whole message |
| NimMessage.RecallExactly | crates/dh-protocol/src/nim_message.rs:114-193 | a recall is accepted exactly from one list without repeats, of a group message, with its target and a positive number |
| NimMessage.CursorExactly | crates/dh-protocol/src/nim_message.rs:114-193 | the end of sync carries its cursor in eight bytes, lowest first, and nothing else |
| NimMessage.RoutesExactly | crates/dh-protocol/src/nim_message.rs:114-193 | what is no list, recall, end of sync or wrapper is handed on unread; nothing is looked at in a packet too large or refused |
| NimMessage.CountedReadsBack | crates/dh-protocol/src/nim_message.rs:114-193 | messages sent behind their count arrive as they are; any byte more is malformed |
| NimMessage.WireIsWhole | crates/dh-protocol/src/nim_message.rs:48-80 | a message in its own fields is one piece of a notification |
| NimMessage.UnwrapsOnce | crates/dh-protocol/src/nim_message.rs:114-193 | a packet behind an 8-byte notification id decodes as the packet itself, for every header the parser accepts |
| NimMessage.NeverNested | crates/dh-protocol/src/nim_message.rs:114-193 | what is decoded inside a wrapper is never a wrapper itself |
| NimMessage.RecallReadsBack | crates/dh-protocol/src/nim_message.rs:262-294 | the body of every accepted recall request, read as route (7,14), is the recall of the same target and server id |
| NimMessage.RecallSentExactly | crates/dh-protocol/src/nim_message.rs:262-294 | a recall is sent exactly with a target, a sender, a client id and a time, for a positive number, if it fits, and its body lists these under their numbers |
| NimMessage.Acknowledge | crates/dh-protocol/src/nim_message.rs:225-241 | the acknowledgement frame, or the first id that is no number |
| NimMessage.AcknowledgementReadsBack | crates/dh-protocol/src/nim_message.rs:225-241 | an acknowledgement is built exactly for 1 to 1024 numbers, and the peer reads from it these, in order, and their scene |
| NimMessage.MutedMemberPresent | crates/dh-protocol/src/nim_message.rs:313-340 | the roster loop answers whether the account is muted, or refuses the body |
| NimMessage.MutedExactly | crates/dh-protocol/src/nim_message.rs:313-340 | a readback is trusted exactly when it is the asked team's whole roster and nothing else |
| NimMessage.EntryExactly | crates/dh-protocol/src/nim_message.rs:313-340 | an entry of the roster is one property list that names an account under 3 and no other |
| NimMessage.ReceiptExactly | crates/dh-protocol/src/nim_message.rs:342-386 | of all packets, a server id is taken exactly from an accepted answer with this route and serial whose whole body is one list without repeats, with a time, that positive id, and no client id but the one sent |
| NimMessage.ConfirmationReadsBack | crates/dh-protocol/src/nim_message.rs:342-386 | the confirmation the peer lays out, with or without the client id, yields its own id or is malformed |
| NimLogin.Encode | crates/dh-protocol/src/nim_login.rs:133-159 | the request frame, or the first thing wrong with the fields |
| NimLogin.OrdersExactly | crates/dh-protocol/src/nim_login.rs:133-150 | fields are ordered exactly when all are known and none repeated; the mistake named is really there |
| NimLogin.FieldsExactly | crates/dh-protocol/src/nim_login.rs:103-130 | a name has a number exactly if it is in the table, and then its own |
| NimLogin.RequestExactly | crates/dh-protocol/src/nim_login.rs:133-159 | a request is refused for a field unknown or repeated, then for an identity not given, and otherwise only for what the list cannot hold |
| NimLogin.OrderIndependent | crates/dh-protocol/src/nim_login.rs:133-159 | the result does not depend on the order of the fields, unless the list holds both an unknown and a repeated one |
| NimLogin.OrderMatters | crates/dh-protocol/src/nim_login.rs:133-150 | every list with both mistakes can be put in two orders that are reported differently |
| NimLogin.RequestReadsBack | crates/dh-protocol/src/nim_login.rs:133-159 | an accepted request is a route-(2,3) frame whose body decodes to the given fields in ascending order |
| NimLogin.DecodeResponse | crates/dh-protocol/src/nim_login.rs:82-94 | the last value of each response field |
| NimLogin.CheckedExactly | crates/dh-protocol/src/nim_login.rs:23-72 | the login list is accepted exactly if it names one connection, once, and not by nothing; the answer is that connection, the last address and port, and the list |
| NimLogin.DecodeAuth | crates/dh-protocol/src/nim_login.rs:23-72 | the login answer in its up to three parts, or malformed |
| NimLogin.AcceptsExactly | crates/dh-protocol/src/nim_login.rs:23-72 | an answer is accepted exactly when it is one login list with a single nonempty connection id, followed by nothing or the counted ports and possibly the push list, and not one byte more |
| RequestMetadata.Encode | crates/dh-protocol/src/request_metadata.rs:23-44 | the writing loop with its range check on the 32-bit fields |
| RequestMetadata.WireFields | tools/verify_bootstrap_config.py:16-54 | the scanner loop: number, kind and value of every field, or what is wrong |
| RequestMetadata.ScansExactly | tools/verify_bootstrap_config.py:16-54 | a message is scanned exactly when it is whole fields end to end |
| RequestMetadata.ItemExactly | tools/verify_bootstrap_config.py:36-53 | a field by its wire type: a varint, eight bytes, a length and as many bytes, or four bytes, behind a tag with a number of 29 bits, and nothing else |
| RequestMetadata.BadTag | tools/verify_bootstrap_config.py:20-33 | which of the two ways a varint can be wrong is what the scan reports |
| RequestMetadata.ScansEncoding | crates/dh-protocol/src/request_metadata.rs:23-44 | scanning an encoding gives exactly the nonzero fields, ascending, the signed ones sign-extended; it never exceeds 154 bytes |
| RequestMetadata.EncodingInjective | crates/dh-protocol/src/request_metadata.rs:23-44 | two accepted arrays never share an encoding |
| RequestMetadata.RefusesOnlyWide | crates/dh-protocol/src/request_metadata.rs:23-33 | only a field too wide for its type is refused, and the first such field is the one named |
| H2Shape.H2ShapeOf | tools/native_http_shape.py:21-52 | the frame-walking loop with its counts |
| H2Shape.Scan | tools/native_http_shape.py:34-49 | the checks on one frame header accept exactly the frames that can be read there |
| H2Shape.FrameParts | tools/native_http_shape.py:36-41 | a well-formed frame laid out is read back part by part |
| H2Shape.CandidateExactly | tools/native_http_shape.py:21-52 | a buffer is a candidate exactly when it has 1 to 8192 bytes and is nothing but well-formed frames end to end, and the counts are theirs |
| H2Shape.AcceptableByKind | tools/native_http_shape.py:23-55 | the rules on stream and length, kind by kind |
| H2Shape.TalliedExactly | tools/native_http_shape.py:31-56 | each kind that occurs is counted under its name as often as it occurs |
| MessageCodec.ApplyKeystream | crates/dh-protocol/src/lib.rs:72-76 | the keystream is combined with a buffer in place |
| MessageCodec.Seal | crates/dh-protocol/src/lib.rs:61-80 | ciphertext from keystream block one on, then the tag |
| MessageCodec.Open | crates/dh-protocol/src/lib.rs:84-106 | too short, not authentic, or the plaintext; nothing is decrypted first |
| MessageCodec.OpensExactlySealed | crates/dh-protocol/src/lib.rs:62-106 | opening gives a plaintext exactly for what sealing that plaintext gives |
| MessageCodec.OpensExactly | crates/dh-protocol/src/lib.rs:40-106 | opening succeeds exactly if the last sixteen bytes are the MAC, under the first 32 keystream bytes, of the associated data, its length, the ciphertext and its length; the plaintext is then the ciphertext flipped bit by bit by the keystream from byte 64 on |
| MessageCodec.OtherAadCollides | crates/dh-protocol/src/lib.rs:40-106 | what was sealed under one associated data opens under another exactly if the two different texts have one MAC |
| MessageCodec.TranscriptInjective | crates/dh-protocol/src/lib.rs:40-57 | the authenticated transcript determines associated data and ciphertext |
| BusinessWire.ZstdFrame | crates/dh-protocol/src/business_wire.rs:50-65 | the frame written block by block |
| BusinessWire.FrameReadsBack | crates/dh-protocol/src/business_wire.rs:50-65 | read by the rules of sections 3.1.1.1 and 3.1.1.2 of RFC 8878, the frame is a single segment of raw blocks of at most 128 KiB, only the last flagged, holding the input and ending where it ends |
| BusinessWire.BlocksLength | crates/dh-protocol/src/business_wire.rs:56-63 | three header bytes a block, one block a started 128 KiB |
| BusinessWire.Seal | crates/dh-protocol/src/business_wire.rs:67-99 | tag, key material and ciphertext in wire order, or why not |
| BusinessWire.Open | crates/dh-protocol/src/business_wire.rs:101-131 | the size checks, the opening and the one whole frame |
| BusinessWire.SealedOpens | crates/dh-protocol/src/business_wire.rs:67-131 | sealing succeeds exactly for up to a megabyte under its own binding, and then always opens to the same plaintext |
| BusinessWire.OpensExactly | crates/dh-protocol/src/business_wire.rs:101-131 | a body opens exactly if its size is right, the codec opens it under the nonce it carries and the hash of request number, plaintext hash, device tag and salt, and it decompresses to at most a mebibyte with nothing behind |
| BusinessWire.SealedIsLaidOut | crates/dh-protocol/src/business_wire.rs:67-99 | what is sealed is the tag, the hash of request number and frame, and the ciphertext under the first half of that hash |
| BusinessWire.LawfulExists | crates/dh-protocol/src/business_wire.rs:108-131 | some decompressor meets what is assumed of it, with any cipher, MAC and hashes |
| Base64Url.EncodedReadsBack | crates/dh-protocol/src/message_envelope.rs:123-125 | section 5 of RFC 4648: what is encoded decodes to itself |
| Base64Url.DecodesOnlyEncodings | crates/dh-protocol/src/message_envelope.rs:123-125 | the decoder accepts a text exactly when it is the one encoding of its bytes |
| MessageEnvelope.PackedReadsBack | crates/dh-protocol/src/message_envelope.rs:156-165 | the 64-bit header gives back sender, target, session class and device, so it determines all four |
| MessageEnvelope.Seal | crates/dh-protocol/src/message_envelope.rs:174-216 | a new text message in its envelope, or why it may not be sent |
| MessageEnvelope.OpenAuthenticated | crates/dh-protocol/src/message_envelope.rs:107-170 | every check from the outer size to the inner routing, in order |
| MessageEnvelope.Open | crates/dh-protocol/src/message_envelope.rs:88-103 | the authenticated message, if it is for these parties |
| MessageEnvelope.SealedOpens | crates/dh-protocol/src/message_envelope.rs:88-216 | sealing succeeds exactly for the sendable messages whose encoding fits, and a sealed envelope opens to the same message under its own routing and is refused for its binding under any other |
| MessageEnvelope.OpenedIsRouted | crates/dh-protocol/src/message_envelope.rs:88-168 | whatever text opens, its envelope carries sender, target, device and session class of the message in its header, and what opens for a sender, target and session is addressed so by that header |
| MessageEnvelope.EnvelopeExactly | crates/dh-protocol/src/message_envelope.rs:107-170 | the envelope is taken from a text of at most two mebibytes, Base64url of at most one, bare or in its JSON object |
| MessageEnvelope.UnpacksExactly | crates/dh-protocol/src/message_envelope.rs:107-170 | an envelope holds a message exactly if it is authenticated, of the right size, decodes, and its parties, device and session are in range and those of the header |
| LawfulEnvelope.LawfulExists | crates/dh-protocol/src/message_envelope.rs:170-216 | what is assumed of Protocol Buffers, LZ4 and JSON can be had together, with any cipher and MAC, and some message is sealed under it |
| Credentials.CredentialCoordinator.constructor | crates/dh-protocol/src/credentials.rs:40-52 | logged out, generation and revision zero |
| Credentials.CredentialCoordinator.Login | crates/dh-protocol/src/credentials.rs:55-60 | both counters advance and the pair is replaced |
| Credentials.CredentialCoordinator.Logout | crates/dh-protocol/src/credentials.rs:61-66 | both counters advance and the pair is gone |
| Credentials.CredentialCoordinator.TakeSnapshot | crates/dh-protocol/src/credentials.rs:67-75 | the present pair with its counters |
| Credentials.CredentialCoordinator.IsCurrent | crates/dh-protocol/src/credentials.rs:77-82 | logged in, and both counters as in the snapshot |
| Credentials.CredentialCoordinator.BeginRefresh | crates/dh-protocol/src/credentials.rs:117-130 | the block that reads the base: refused, already changed, or ask the provider |
| Credentials.CredentialCoordinator.FinishRefresh | crates/dh-protocol/src/credentials.rs:134-153 | the block that stores the answer, or refuses it |
| Credentials.RevisionIdentifiesPair | crates/dh-protocol/src/credentials.rs:54-154 | in every run two snapshots ever handed out with one revision are equal |
| Credentials.CurrentMeansUnchanged | crates/dh-protocol/src/credentials.rs:77-82 | a snapshot handed out is current exactly when it is what the account holds |
| Credentials.StaleForEver | crates/dh-protocol/src/credentials.rs:77-82 | a snapshot no longer current never becomes current again |
| Credentials.CommitsIffUnchanged | crates/dh-protocol/src/credentials.rs:134-153 | a refresh commits exactly when the account is in the very state its base was read from |
| Credentials.OneCommitPerRevision | crates/dh-protocol/src/credentials.rs:107-154 | every commit replaces one field of its base and nothing else, and no two share a base revision |
| Credentials.CommitsOwnField | crates/dh-protocol/src/credentials.rs:107-154 | in every run, a commit of a business refresh changed the business secret to what the provider answered to that call and left the NIM secret alone, and the other way round |
| Credentials.AsksExactly | crates/dh-protocol/src/credentials.rs:107-154 | under its lock a refresh asks the provider exactly if someone is logged in as observed and the secret to replace is the one observed |
| Credentials.AccountMoves | crates/dh-protocol/src/credentials.rs:55-154 | in every run a login makes the account hold that pair, a logout none, a stored answer replaces the one secret, and nothing else moves it |
| Credentials.UndisturbedRefresh | crates/dh-protocol/src/credentials.rs:107-154 | from any moment its lock is free, a refresh nobody disturbs replaces its secret and leaves everything else as it was |
| Credentials.NeverResurrects | crates/dh-protocol/src/credentials.rs:134-139 | without a login a logged-out account stays logged out and nothing commits, whatever refreshes are under way |
| Credentials.OneInFlight | crates/dh-protocol/src/credentials.rs:83-106 | at most one call of a kind is past its single-flight lock |
| Credentials.AskedOnce | crates/dh-protocol/src/credentials.rs:117-130 | if the provider never reissues a secret, no call with the same observation asks it again after a refresh has succeeded |
| WebLogin.Server.Authorize | crates/dh-server/src/main.rs:61-76 | expired sessions go, and the token is accepted while it is known, unexpired and not idle for half an hour |
| WebLogin.Server.Enter | crates/dh-server/src/main.rs:139-158 | the locked block of a login: expired and own old sessions go, then the cap and the generation decide |
| WebLogin.Server.Remove | crates/dh-server/src/main.rs:172-173 | one session goes |
| WebLogin.Server.Revoke | crates/dh-server/src/main.rs:174-174 | the generation advances, outside the sessions lock |
| WebLogin.Server.Clear | crates/dh-server/src/admin.rs:314-317 | all sessions and activity go and the generation advances in one block |
| WebLogin.Server.Touch | crates/dh-server/src/main.rs:185-196 | the activity of a token is renewed |
| WebLogin.SessionsAreRecent | crates/dh-server/src/main.rs:116-154 | in every interleaving, once a change has cleared, every session comes from a check made after that change was committed |
| WebLogin.AtMost32Sessions | crates/dh-server/src/main.rs:140-147 | there are never more than 32 sessions |
| WebLogin.AuthorizedExactly | crates/dh-server/src/main.rs:61-75 | in every run a request is let in exactly with the token of a login less than eight hours ago, not logged out, replaced or cleared since, and active in the last half hour |
| WebLogin.EntersExactly | crates/dh-server/src/main.rs:113-158 | in every run a verified login opens its session exactly if nothing was logged out or changed since it began and there is room |
| WebLogin.UndisturbedLogin | crates/dh-server/src/main.rs:102-167 | from any moment with a permit and room, a login nobody disturbs opens a session checked against the credentials in force |
| WebLogin.UndisturbedChange | crates/dh-server/src/admin.rs:298-319 | from any such moment, an accepted change nobody disturbs commits and leaves no session |
| WebLogin.DroppedLoginEnds | crates/dh-server/src/main.rs:102-167 | a login whose client hangs up while hashing leaves nothing and returns its permit |
| WebLogin.RequestPrunes | crates/dh-server/src/main.rs:61-76 | a request leaves the sessions whose time is not up, and with a token the activity of just these |
| WebLogin.AtMostTwoHashing | crates/dh-server/src/main.rs:113-121 | never more than two passwords are hashed at once, and every permit comes back |
| WebLogin.AccountedExactly | crates/dh-server/src/admin.rs:298-319 | in every run, every committed credential change has cleared the sessions or is about to, exactly if no commit came behind a dropped request and no request was dropped between commit and clearing |
| WebLogin.QuietMeansCurrent | crates/dh-server/src/admin.rs:306-318 | if no change was lost that way and none is waiting to clear, every session was checked against the credentials in force |
| WebLogin.DroppedChangeLeavesSessions | crates/dh-server/src/admin.rs:306-318 | from any moment of any run, a change whose request is dropped while hashing or before clearing commits, never clears, and leaves all sessions as they are |
| AdminAccount.Admin.constructor | crates/dh-server/src/admin.rs:88-104 | no administrator and no code |
| AdminAccount.Admin.Issue | crates/dh-server/src/admin.rs:121-139 | a code for the right purpose replaces any earlier one |
| AdminAccount.Admin.Check | crates/dh-server/src/admin.rs:146-189 | blocked, wrong or right, with the counter and the block it leaves |
| AdminAccount.Admin.Change | crates/dh-server/src/admin.rs:215-261 | the transaction: refused without effect, or new credentials and no code |
| AdminAccount.GuessesAreSlow | crates/dh-server/src/admin.rs:175-187 | without a success or change the k-th counted failure, k at least 10, comes at least 930 + 900 (k - 10) seconds after the fifth |
| AdminAccount.RefusedWhileDelayed | crates/dh-server/src/admin.rs:167-169 | a check is refused for being early exactly while the delay of the last counted failure runs, at most a quarter of an hour |
| AdminAccount.DelayTable | crates/dh-server/src/admin.rs:176-181 | no delay for four failures, then half a minute doubling up to a quarter of an hour |
| AdminAccount.ChecksExactly | crates/dh-server/src/admin.rs:146-189 | in every run a check is refused exactly while a delay runs, else answers yes exactly for the name and password of the latest accepted change; a wrong password for that name counts once, any other name not at all |
| AdminAccount.ChangesExactly | crates/dh-server/src/admin.rs:190-266 | in every run, exactly when each kind of change is let through, and that it then is the latest, with no failure counted |
| AdminAccount.CodeAcceptedIff | crates/dh-server/src/admin.rs:229-247 | a code is accepted exactly when it is the latest issued, for that purpose, within half an hour, with no change since |
| AdminAccount.CodeServesOnce | crates/dh-server/src/admin.rs:239-254 | after an accepted change no code is valid until one is issued |
| Limits.Limiter.constructor | crates/dh-server/src/admin.rs:353-356 | no buckets |
| Limits.Limiter.Allow | crates/dh-server/src/admin.rs:358-382 | buckets pruned, then both limits and the table size decide, and an allowed call is entered in both buckets |
| Limits.RunRefines | crates/dh-server/src/admin.rs:358-382 | after every run the buckets are exactly what the calls let through in the last sixty seconds make them |
| Limits.AllowedIff | crates/dh-server/src/admin.rs:358-382 | a call is let through exactly when its sixty seconds hold fewer than 30 of its route and 5 of its client, and the table is not too full |
| Limits.AllowedExactly | crates/dh-server/src/admin.rs:358-382 | in every run a call is let through exactly when fewer than thirty calls for its route and five from its client were let through in the last sixty seconds, and at most 4096 buckets are in use |
| Limits.NoWindowOverflows | crates/dh-server/src/admin.rs:358-382 | no window shorter than sixty seconds ever holds more than 30 calls of a route or 5 of a route and client |
| Limits.TableIsBounded | crates/dh-server/src/admin.rs:368-370 | there are never more than 4098 buckets |
| ReceiveLoop.Receiver.constructor | crates/dh-server/src/conversations.rs:16-30 | nothing received yet |
| ReceiveLoop.Receiver.Poll | crates/dh-server/src/conversations.rs:17-70 | the lock-protected block is the polling step of the system |
| ReceiveLoop.Receiver.Process | crates/dh-server/src/conversations.rs:71-272 | one packet start to finish is the steps of the worker, whichever of them fails, up to closing the socket after an error |
| ReceiveLoop.ProcessedOrClosed | crates/dh-server/src/conversations.rs:71-272 | without an error the whole packet is stored and the session untouched; after one the session it came from has no socket |
| ReceiveLoop.ProcessedExactly | crates/dh-server/src/conversations.rs:71-258 | a packet processed without an error is in the journal once, its messages and no others are new in the store and, if the session it came by still has a socket, acknowledged; a cursor is saved exactly when announced |
| ReceiveLoop.FinishesExactly | crates/dh-server/src/conversations.rs:71-258 | processing has no error exactly if the packet was decoded and database and socket obliged wherever they were asked |
| ReceiveLoop.PollsNext | crates/dh-server/src/conversations.rs:17-70 | in every run a poll starts sync once, from the saved cursor, and takes the next packet of the socket |
| ReceiveLoop.AcknowledgesExactly | crates/dh-server/src/conversations.rs:212-240 | in every run a message is acknowledged when its turn comes exactly if the account was not switched since its packet was polled, there is a socket and it obliges |
| ReceiveLoop.GivesUpExactly | crates/dh-server/src/conversations.rs:259-272 | in every run, after an error the socket is given up exactly if the account was not switched since the packet was polled |
| ReceiveLoop.MarkedIsAcknowledged | crates/dh-server/src/conversations.rs:222-240 | in every run a message is marked as acknowledged only behind its acknowledgement |
| ReceiveLoop.SessionsMove | crates/dh-server/src/protocol_login.rs:320-926 | closing leaves no socket, opening a fresh one, and another account a new epoch |
| ReceiveLoop.AcksFollowStorage | crates/dh-server/src/conversations.rs:208-239 | in every run nothing is acknowledged before it was stored |
| ReceiveLoop.CursorFollowsHandling | crates/dh-server/src/conversations.rs:241-272 | a cursor is saved only for a packet before which everything polled from the same socket was handled |
| ReceiveLoop.SavedExactly | crates/dh-server/src/conversations.rs:241-248 | a cursor about to be saved covers only stored messages exactly if what was lost on the way to it is stored all the same |
| ReceiveLoop.SavedCursorIsHonest | crates/dh-server/src/conversations.rs:16-272 | in every run behind a server that announces cursors only behind the messages they cover, every message at or below a saved cursor is stored at all times, exactly if each save meets that condition |
| ReceiveLoop.NothingLostNothingMissed | crates/dh-server/src/conversations.rs:16-272 | if no packet is lost, every message at or below a saved cursor is stored |
| ReceiveLoop.LossIsNotNoticed | crates/dh-server/src/conversations.rs:241-248 | an instance: a packet lost behind the start of sync, on a socket that stays open, lets the cursor pass a message never stored |
| NimClient.ReadPacket | crates/dh-protocol/src/nim_client.rs:502-524 | the next packet off the socket past pings and pongs, or how the socket ended |
| NimClient.Client.constructor | crates/dh-protocol/src/nim_client.rs:212-220 | an empty queue and the first serial |
| NimClient.Client.TakeSerial | crates/dh-protocol/src/nim_client.rs:249-253 | serials count up from 10 and wrap behind 32767 |
| NimClient.Client.Retain | crates/dh-protocol/src/nim_client.rs:255-262 | a packet is queued unless the queue is full by count or by bytes |
| NimClient.Client.Receive | crates/dh-protocol/src/nim_client.rs:225-240 | the oldest waiting packet, else the next off the socket |
| NimClient.Client.Poll | crates/dh-protocol/src/nim_client.rs:443-449 | a receive under a second deadline, which may pass inside the credential check |
| NimClient.Client.Await | crates/dh-protocol/src/nim_client.rs:279-304 | the waiting loop: the first packet with the route is the reply, all before it are queued |
| NimClient.Client.SendCustom | crates/dh-protocol/src/nim_client.rs:266-312 | sent, rejected or unknown, by the receipt |
| NimClient.Client.RecallGroup | crates/dh-protocol/src/nim_client.rs:315-363 | sent, rejected or unknown, by the status |
| NimClient.Client.ExchangeManagement | crates/dh-protocol/src/nim_client.rs:365-420 | a serial is taken first, then the reply packet or the failure |
| NimClient.Client.Post | crates/dh-protocol/src/nim_client.rs:424-463 | acknowledgements and sync starts are flushed and nothing is awaited |
| NimClient.Client.Heartbeat | crates/dh-protocol/src/nim_client.rs:467-499 | the heartbeat reply must carry the serial, an empty body and an accepted status |
| NimClient.ExchangeKeeps | crates/dh-protocol/src/nim_client.rs:255-312 | a wait keeps everything it read but its last packet, in order |
| NimClient.RunBalances | crates/dh-protocol/src/nim_client.rs:225-499 | in every run what was handed out followed by what waits is what was read, in order, without matched replies and losses; the queue is as large as its packets, at most 1 MiB and 1024 |
| NimClient.FineLosesExactly | crates/dh-protocol/src/nim_client.rs:225-499 | in any state, a call that does not fail, except for a receive timeout, and is not Unknown loses a packet exactly if it is a poll whose deadline passes inside its credential check |
| NimClient.NothingLost | crates/dh-protocol/src/nim_client.rs:225-499 | over all runs of such calls, nothing is lost exactly if no poll is cut short that way; then what was handed out and what waits are what was read without the replies, in order |
| NimClient.InterruptedPollLoses | crates/dh-protocol/src/nim_client.rs:443-449 | in any state, a poll cut short in its credential check reports nothing, leaves the queue as it is and has lost the packet it read |
| NimClient.FirstAnswerIsTaken | crates/dh-protocol/src/nim_client.rs:384-524 | a call takes as its reply the first packet whose header has its service, command and the serial just handed out, passes over none such, and ends as that packet's status, receipt and body tell |
| NimClient.WaitsExactly | crates/dh-protocol/src/nim_client.rs:384-420 | a wait queues the arrivals in order while they are pushes there is room for; the first that is not, or the failing socket, ends it |
| NimClient.RetainsExactly | crates/dh-protocol/src/nim_client.rs:255-262 | a push is kept exactly while there are fewer than 1024 and their bodies stay within a mebibyte |
| NimClient.NextPacketExactly | crates/dh-protocol/src/nim_client.rs:240-312 | pongs and answered pings are passed over, and the first frame that is neither decides |
| NimClient.ReceivesExactly | crates/dh-protocol/src/nim_client.rs:225-312 | waiting packets come first; a packet behind which the credentials turn out stale is not handed out |
| NimClient.UnsentExactly | crates/dh-protocol/src/nim_client.rs:225-524 | a call on stale credentials or with invalid input sends nothing, one whose send fails waits for nothing, and which serials are used up |
| NimClient.SerialsAreDistinct | crates/dh-protocol/src/nim_client.rs:249-253 | any 32,758 consecutive serials are distinct, and none is 1, 2 or 3 |
| SessionEpoch.Session.constructor | crates/dh-server/src/protocol_login.rs:270-286 | nothing pending, nobody logged in, epoch one |
| SessionEpoch.Session.Try | crates/dh-server/src/protocol_login.rs:583-589 | attempts older than a minute are forgotten and the limit decides |
| SessionEpoch.Session.Connect | crates/dh-server/src/protocol_login.rs:360-418 | the old socket goes first; a new one needs an identity and an endpoint |
| SessionEpoch.Session.Finish | crates/dh-server/src/protocol_login.rs:320-359 | the session becomes the accepted account's, unless its groups cannot be read or it cannot be saved |
| SessionEpoch.Session.Clear | crates/dh-server/src/protocol_login.rs:614-621 | a new epoch begins and the account's client, socket and identity go together |
| SessionEpoch.Session.Login | crates/dh-server/src/protocol_login.rs:552-696 | a password login with every way it may end |
| SessionEpoch.Session.StartSms | crates/dh-server/src/protocol_login.rs:723-783 | an SMS challenge, only while nobody is logged in |
| SessionEpoch.Session.ResendSms | crates/dh-server/src/protocol_login.rs:809-861 | a challenge is sent again at most once a minute |
| SessionEpoch.Session.VerifySms | crates/dh-server/src/protocol_login.rs:809-890 | a challenge answered finishes the login |
| SessionEpoch.Session.Renew | crates/dh-server/src/protocol_login.rs:480-511 | a renewed connection, or the end of an expired session |
| SessionEpoch.Session.Logout | crates/dh-server/src/protocol_login.rs:906-928 | nothing, if the vault cannot be cleared, else a new epoch with nobody in it |
| SessionEpoch.LoginExactly | crates/dh-server/src/protocol_login.rs:552-696 | five attempts a minute; then a new epoch in which exactly an accepted, readable and saved login logs in, and exactly a demand for device verification leaves a challenge |
| SessionEpoch.SmsExactly | crates/dh-server/src/protocol_login.rs:723-783 | exactly when an SMS challenge is asked for and what is left of it |
| SessionEpoch.ResendExactly | crates/dh-server/src/protocol_login.rs:809-861 | exactly when a challenge is sent again |
| SessionEpoch.VerifyExactly | crates/dh-server/src/protocol_login.rs:809-890 | exactly when an answered challenge logs in, and when it stays |
| SessionEpoch.EndsExactly | crates/dh-server/src/protocol_login.rs:480-926 | renewing replaces the socket or ends an expired session; logging out ends the epoch with everything in it |
| SessionEpoch.UndisturbedRead | crates/dh-server/src/rust_gateway.rs:80-320 | a read nobody disturbs is answered with what the account's client read, which the next read gets without asking |
| SessionEpoch.ForgetsExactly | crates/dh-server/src/rust_gateway.rs:80-320 | what is to be forgotten is not in the cache any more, and all else is |
| SessionEpoch.SessionIsCoherent | crates/dh-server/src/protocol_login.rs:320-926 | in every run a pending challenge means no client, and no client means no socket and no identity |
| SessionEpoch.OneClientPerEpoch | crates/dh-server/src/protocol_login.rs:320-926 | within an epoch a client may appear but never gives way to another |
| SessionEpoch.OneAccountPerEpoch | crates/dh-server/src/protocol_login.rs:609-621 | any two moments of one epoch at which someone is logged in show the same account |
| SessionEpoch.AnswersAreOwn | crates/dh-server/src/rust_gateway.rs:80-320 | no cached or fresh answer to a read begun in the current epoch is of another account |
| SessionEpoch.AnswersAgree | crates/dh-server/src/rust_gateway.rs:80-320 | all answers to reads begun in one epoch are of one account |
| SessionEpoch.RosterCacheIsBounded | crates/dh-server/src/rust_gateway.rs:314-318 | never more than a hundred rosters are cached |
| MemberPages.ListMembers | crates/dh-server/src/rust_gateway.rs:278-309 | the page loop with its three limits |
| MemberPages.Merge | crates/dh-server/src/rust_gateway.rs:288-290 | later entries replace earlier ones of the same user |
| MemberPages.ListedExactly | crates/dh-server/src/rust_gateway.rs:278-309 | a roster is returned exactly when the pages, followed by cursor, end within a hundred, name no cursor twice and stay within 100,000 members |
| MemberPages.AllHas | crates/dh-server/src/rust_gateway.rs:288-300 | the roster holds exactly the users on some page |
| ModelExecutor.LockTable.constructor | tauri3/src-tauri/src/ai_pipeline.rs:7-13 | no locks |
| ModelExecutor.LockTable.Enter | tauri3/src-tauri/src/ai_pipeline.rs:16-23 | dead weak references go, then the lock of the key is shared or made |
| ModelExecutor.LockTable.Leave | tauri3/src-tauri/src/ai_pipeline.rs:16-33 | a reference to a lock ends |
| ModelExecutor.OneLockPerKey | tauri3/src-tauri/src/ai_pipeline.rs:16-23 | live calls share a lock exactly when they are of one conversation |
| ModelExecutor.OneRunsPerKey | tauri3/src-tauri/src/ai_pipeline.rs:28-31 | at most one call of a conversation is past its lock |
| ModelExecutor.AtMostFourRun | tauri3/src-tauri/src/ai_pipeline.rs:28-31 | at most four calls run the provider |
| ModelExecutor.TableHoldsOnlyLiveKeys | tauri3/src-tauri/src/ai_pipeline.rs:18-19 | after a call the table holds no entry nobody uses |
| ModelExecutor.NeverStuck | tauri3/src-tauri/src/ai_pipeline.rs:25-33 | as long as a call is live some call can take its next step |
| ModelExecutor.EveryStepCounts | tauri3/src-tauri/src/ai_pipeline.rs:25-33 | each such step brings all of them one step nearer to the end |
| ReplyCache.AiReplyCache.constructor | tauri3/src-tauri/src/ai.rs:690-696 | at least one entry fits |
| ReplyCache.AiReplyCache.Get | tauri3/src-tauri/src/ai.rs:698-710 | too old is removed, found is moved to the end |
| ReplyCache.AiReplyCache.Insert | tauri3/src-tauri/src/ai.rs:712-735 | only plain replies are kept, and the oldest go |
| ReplyCache.AiReplyCache.Remove | tauri3/src-tauri/src/ai.rs:737-744 | a key goes from both lists |
| ReplyCache.NamespacesAreIndependent | tauri3/src-tauri/src/ai.rs:698-744 | a namespace is what its own calls alone would make it |
| ReplyCache.RunIsSound | tauri3/src-tauri/src/ai.rs:698-744 | the order list repeats nothing, holds exactly the keys of the entries and stays within the capacity |
| ReplyCache.JustInsertedSurvives | tauri3/src-tauri/src/ai.rs:712-735 | a reply that says something and neither acts nor sets tasks is kept and just inserted is found; any other leaves the cache as it is |
| ReplyCache.OrderIsRecent | tauri3/src-tauri/src/ai.rs:698-735 | without removal or expiry the order list is the most recent keys of the access log |
| ReplyCache.LeastRecentlyUsed | tauri3/src-tauri/src/ai.rs:698-735 | then a key is present exactly when fewer than the capacity of other keys were touched since it was |
| ReplyCache.HoldsTheLatest | tauri3/src-tauri/src/ai.rs:712-735 | whatever is present is what was last inserted under its key |
| ReplyCache.FoundExactly | tauri3/src-tauri/src/ai.rs:689-745 | in every run what is found was last inserted under its key, not removed since and not too old, and all that is in the cache and not too old is found |
| RequestBudget.BoundedRequest | tauri3/src-tauri/src/ai.rs:404-447 | both lists cut in place, the recent one from its end |
| RequestBudget.BudgetIsUsedUp | tauri3/src-tauri/src/ai.rs:404-447 | a budget is never exceeded and never wasted |
| RequestBudget.NewestAreKept | tauri3/src-tauri/src/ai.rs:405-419 | the newest messages are kept whole, at most one is cut, and nothing older is kept |
| Activities.SortedWithoutRepeats | tauri3/src-tauri/src/activities.rs:70-76 | the times ascending, each once |
| Activities.NextOccurrence | tauri3/src-tauri/src/activities.rs:57-101 | the least scheduled instant strictly later, none exactly when there is none, and an error exactly when the search runs off the calendar |
| Activities.WeekdaysFollow | tauri3/src-tauri/src/activities.rs:57-101 | days follow each other through the week, and the epoch was a Thursday |
| Activities.AsksAllOnce | tauri3/src-tauri/src/activities.rs:57-101 | asking again after each answer ends and lists every occurrence once, in order |
| Activities.FixedOffsetsAreLawful | tauri3/src-tauri/src/activities.rs:86-90 | zones at a fixed offset meet what is assumed of zones |
| FactCheck.FindFrom | tauri3/src-tauri/src/activities.rs:165-167 | the leftmost place of a token from the cursor on |
| FactCheck.ValidateGeneratedText | tauri3/src-tauri/src/activities.rs:135-189 | the checks in order, each with its error |
| FactCheck.ScanIsComplete | tauri3/src-tauri/src/activities.rs:161-175 | the greedy scan succeeds exactly when some ordered, non-overlapping placement of all tokens exists |
| FactCheck.AcceptedExactly | tauri3/src-tauri/src/activities.rs:135-189 | a rewrite is accepted exactly when its length is right, it is new, keeps every fact in order and invents none |
| FactCheck.RefusedExactly | tauri3/src-tauri/src/activities.rs:135-189 | a rewrite is refused for the first thing wrong with it, and for the first fact that cannot be placed behind those before it |
| CardNames.SuffixIsShaped | tauri3/src-tauri/src/cardnames.rs:111-147 | every index from 1 to 261081 has a number of one of four shapes that leads back to it |
| CardNames.ShapedIsSuffix | tauri3/src-tauri/src/cardnames.rs:111-147 | every four characters of such a shape are the number of an index in range |
| CardNames.SuffixIsInjective | tauri3/src-tauri/src/cardnames.rs:111-147 | different indices have different numbers |
| CardNames.Candidates | tauri3/src-tauri/src/cardnames.rs:73-109 | the names the pairs make in the order they are tried, each where it first occurs |
| CardNames.CandidatesExactly | tauri3/src-tauri/src/cardnames.rs:73-109 | these are exactly the ordered pairs of characters, the preferred one first, none twice |
| CardNames.TriedInOrder | tauri3/src-tauri/src/cardnames.rs:73-109 | the preferred pair; for a long Chinese name those of one character of each half, row by row; then all, row by row |
| CardNames.NormalizedExactly | tauri3/src-tauri/src/cardnames.rs:21-27 | a name is reduced to the alphanumeric characters of the trimmed name, in order |
| CardNames.ResolvedExactly | tauri3/src-tauri/src/cardnames.rs:309-329 | a member goes by the first of original card, card and nickname that says something, else by the first that is not blank |
| CardNames.NextNumber | tauri3/src-tauri/src/cardnames.rs:266-275 | going on from the last number tried finds the least free number of all, or that none is left, or that the prefix has no room |
| CardNames.PlanOne | tauri3/src-tauri/src/cardnames.rs:194-302 | the plan of one member: its branch, and the first free abbreviation or the least free number |
| CardNames.PreviewGroup | tauri3/src-tauri/src/cardnames.rs:163-304 | the plan in which every member is planned with what was taken before its turn, every member in one counter; or its failure |
| CardNames.GroupPlansExactly | tauri3/src-tauri/src/cardnames.rs:163-304 | a plan fails exactly if the prefix has more than 14 characters and some member at its turn has no free abbreviation; otherwise new names differ from each other and from those of members left alone by role, and new numbers from each other and from all existing ones |
| CardNames.PlannedInTurn | tauri3/src-tauri/src/cardnames.rs:194-302 | every member is planned with exactly the names and numbers taken before it |
| CardNames.PlannedByKind | tauri3/src-tauri/src/cardnames.rs:194-302 | members of rank, the account itself and accounts out of use are left alone, a managed name is put back where it drifted, and only the others get a new name |
| CardNames.ExhaustedExactly | tauri3/src-tauri/src/cardnames.rs:276-286 | a member goes without a name exactly if at its turn neither an abbreviation nor any of the 261,081 numbers is free |
| CardNames.ByUserIdSorts | tauri3/src-tauri/src/cardnames.rs:169-169 | the members are planned in order of user id, each once |
| CardNames.EachInOneCounter | tauri3/src-tauri/src/cardnames.rs:194-302 | the five counters add up to the members |
| CardNames.CountersExactly | tauri3/src-tauri/src/cardnames.rs:194-302 | what falls under each of the five counters |
| CardNames.UsedExactly | tauri3/src-tauri/src/cardnames.rs:194-302 | taken are the names and numbers taken before, the names given or put back, and the numbers given |
| Calibration.DeveloperCalibrationRecorder.constructor | tauri3/src-tauri/src/calibration.rs:87-100 | nothing recorded |
| Calibration.DeveloperCalibrationRecorder.Start | tauri3/src-tauri/src/calibration.rs:112-135 | a recording begins from nothing, if none is running |
| Calibration.DeveloperCalibrationRecorder.Cancel | tauri3/src-tauri/src/calibration.rs:137-146 | everything goes, unless it is being finalized |
| Calibration.DeveloperCalibrationRecorder.Reset | tauri3/src-tauri/src/calibration.rs:481-483 | back to nothing recorded |
| Calibration.DeveloperCalibrationRecorder.Record | tauri3/src-tauri/src/calibration.rs:186-311 | an operation is recorded under its own name with what was captured of it, while a recording runs |
| Calibration.DeveloperCalibrationRecorder.CompleteOperation | tauri3/src-tauri/src/calibration.rs:313-330 | the last operation of the route gets its receipt and state |
| Calibration.CompletedExactly | tauri3/src-tauri/src/calibration.rs:313-330 | completing changes the last operation of the route and no other |
| Calibration.OperationsAreNamed | tauri3/src-tauri/src/calibration.rs:591-602 | in every run, the operations of a recording have different names |
| Calibration.NamedExactly | tauri3/src-tauri/src/calibration.rs:591-602 | an operation is named by its route between its outer separators, with underscores for those inside, and by its place |
| Calibration.DeveloperCalibrationRecorder.RecordBaseline | tauri3/src-tauri/src/calibration.rs:332-345 | the first state of a key is kept and its restoration required |
| Calibration.DeveloperCalibrationRecorder.RequireBaseline | tauri3/src-tauri/src/calibration.rs:347-358 | a restoration is required |
| Calibration.DeveloperCalibrationRecorder.BeginFinalization | tauri3/src-tauri/src/calibration.rs:360-376 | earlier readings are forgotten |
| Calibration.DeveloperCalibrationRecorder.AbortFinalization | tauri3/src-tauri/src/calibration.rs:392-394 | finalization ends without an export |
| Calibration.DeveloperCalibrationRecorder.RecordRestoredState | tauri3/src-tauri/src/calibration.rs:396-402 | the latest reading of a key replaces earlier ones |
| Calibration.DeveloperCalibrationRecorder.RecordCallbacks | tauri3/src-tauri/src/calibration.rs:404-413 | callbacks are kept in order while a recording runs |
| Calibration.DeveloperCalibrationRecorder.Report | tauri3/src-tauri/src/calibration.rs:502-540 | whether nothing is missing and nothing differs |
| Calibration.DeveloperCalibrationRecorder.Finish | tauri3/src-tauri/src/calibration.rs:415-479 | the refusals in order, or the export |
| Calibration.RunMirrors | tauri3/src-tauri/src/calibration.rs:86-540 | after every run, the recorder holds the first baselines and latest readings of its history, its callbacks, and exactly the recorded operations in order, each with what completed it |
| Calibration.ExportedExactly | tauri3/src-tauri/src/calibration.rs:415-479 | a recording is exported exactly when it is being finalized, recorded an operation and a callback, and wrote nothing or had everything read back as first found since finalization last began |
| Calibration.RunAllows | tauri3/src-tauri/src/calibration.rs:112-146 | in every run, finalization is under way exactly if an accepted beginning was neither aborted nor exported since, and a recording is open exactly if one begun was neither cancelled nor exported since |
| Calibration.AcceptsExactly | tauri3/src-tauri/src/calibration.rs:112-146 | in every run, a recording begins exactly if none is open and some capability is wanted, is given up exactly if none is being finalized, and is finalized exactly if one is open and not yet being finalized |
| Calibration.FamiliesExactly | tauri3/src-tauri/src/calibration.rs:604-640 | which routes change the same thing |
| Calibration.KeysExactly | tauri3/src-tauri/src/calibration.rs:623-640 | two states are kept apart exactly if they are of different families of routes or of different identities |
| Calibration.AllowedExactly | tauri3/src-tauri/src/calibration.rs:182-184 | in every run, a capability is allowed exactly while the recording begun with it is open and no finalization is under way |

## Left out

* The transports themselves (HTTP, WebSocket, TLS, CDP), SQLite, the file system and the vault: their results are
  parameters, and a failed database write is a step that changes nothing.
* `database.rs`, `gateway.rs` and the runtime are not part of this model.
* Overflow checks on sums of slice lengths, which cannot fail for slices that fit in memory, and the wrap-around of
  the 64-bit generation, revision, epoch and revocation counters.
* Cipher, hash, LZ4, Argon2 and regular-expression internals, and the protobuf fields of `ApplicationMessage` nothing
  looks at; `field9_mac`.
* `ConnectionMachine`, `Correlator` and `SessionMachine` in the protocol crate, `ReconnectSchedule`, the provider
  pool with its cool-downs, and the knowledge cache: a few guarded assignments each, without a property that spans
  calls worth more than their bodies.
* `custom_request`, `sync_request`, `member_mute_request` and the field checks of `business_client.rs`: single
  constructions over codecs proved here.
* `set_member_mute_verified` as a whole: it is two of the exchanges of `NimClient` and one readback of `NimMessage`.
* Validation of names, passwords, origins and request sizes ahead of the modelled blocks; prompts, default texts,
  label translation and the React front end.
* Reading the clock several times inside one lock-protected block: such a block has one time here, except the
  password check, which has two.
- WebLogin.Server.Enter: sessions are kept by the digests of their tokens, and tokens are not assumed fresh, because
  nothing proved needs it.
- SessionEpoch.Session.Login: the saved password, the account name, error texts and the heartbeat clock are not
  fields of the model, because no property depends on them; the attempts list is.
- SessionEpoch.AnswersAreOwn: a roster read does not include its own look at the group list, which is a read of its
  own in the model.
- ReceiveLoop.Receiver.Process: the content of a message is its id and number only, because storing and
  acknowledging do not depend on the text; the method runs the worker's steps without interference, and the runs
  of the system interleave them with everything else.
- ReceiveLoop.SavedCursorIsHonest: assumes the server announces a cursor only behind the messages it covers, which
  the repository cannot enforce.
- NimClient.NothingLost: nothing is claimed past a QueueFull or Unknown outcome, or past any other failure.
- MessageEnvelope.SealedOpens: Protocol Buffers, LZ4 and JSON are assumed to undo themselves within the lengths the
  envelope uses.
- CardNames.PreviewGroup: new names are not claimed to differ from all managed names, because names of members
  already in order are not reserved in advance; the wording of the reasons is not kept.
- Calibration.DeveloperCalibrationRecorder.Record: how request, transport, business part and first receipt are read
  out of an answer is JSON reading and not part of the model; capability names arrive normalised.
- Calibration.DeveloperCalibrationRecorder.Finish: the exported document is not laid out, only whether there is one.
- Activities.NextOccurrence: assumes of a zone that later local times name later instants and that dates agree with
  instants; proved for fixed offsets, an assumption for zones with transitions.
- MessageCodec.OpensExactlySealed: says nothing of an adversary; the MAC is any function of key and transcript.
- MessageEnvelope.PackedReadsBack: the four parts are added, which is what combining disjoint bits does.

Nothing was executed.
