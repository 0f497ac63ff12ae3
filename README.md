# chatroom-ws, modelled in Dafny

chatroom-ws is a chat application. A socket.io server keeps a registry of
live rooms, keyed by four-digit codes, and the state of every authenticated
connection. Clients create, join and leave public or private rooms. They
send text and image messages, and they can mention an AI participant
(`@gemini`) whose answer the server broadcasts. The React chat page offers
`@` mention autocomplete and checks image files before reading them. An
Express middleware validates the bodies of the user routes.

This project models three parts of that system:

- **The socket server** (`chat_server.dfy`, `rooms.dfy`, `mention.dfy`,
  `image_payload.dfy`, `handle.dfy`). The server is a class `Server`
  holding the room map, the per-connection sessions and a log of every
  emission, with one method per event handler. `GenUniqueCode` is the
  allocation loop. The listing, the roster, handle normalisation, the AI
  mention detector and the image-size check are functions with lemmas.
  Every handler keeps the invariant `Consistent`:
  - every live room has a room code, at least one member and no member
    twice;
  - every member is a named connection that holds that room and its
    visibility;
  - every connection that holds a room is a member of it.
- **The chat page's pure logic** (`chat_client.dfy`):
  - where a mention is being typed;
  - which members to suggest;
  - how a chosen handle is spliced into the text;
  - the checks made on a picked image file.
- **The user-route validators** (`user_middleware.dfy`).

`text.dfy` models the JavaScript string primitives on ASCII text.
`wrappers.dfy` holds `Option` and `Result`.

## Model

| member | source | states |
|---|---|---|
| Text.Trim | backend/src/socket.ts:229 | `trim` leaves a string that neither starts nor ends with whitespace |
| Text.TrimIsSlice | backend/src/socket.ts:229 | `trim` keeps one contiguous slice and removes only whitespace on either side of it; if nothing is kept, the text was all whitespace |
| Text.TrimEmptyIffBlank | backend/src/socket.ts:229-230 | the trimmed text is empty exactly when every character is whitespace |
| Text.IndexFrom | backend/src/socket.ts:208 | `indexOf`/`includes`: the result is the first occurrence of the pattern at or after the start index; "none" means there is no occurrence there |
| Text.ContainsIffOccurs | backend/src/socket.ts:208 | `includes` holds exactly when the pattern occurs somewhere |
| Text.ContainsChar | frontend/src/pages/Chat.tsx:382 | `includes` of a one-character string is membership of that character |
| Text.LastIndexOf | frontend/src/pages/Chat.tsx:371 | `lastIndexOf` gives an index holding the character with none after it; "none" means the character does not occur |
| Text.DecimalString | backend/src/socket.ts:22 | `String(n)` is a non-empty string of digits, with no leading zero from 10 on |
| Text.ParseDecimalString | backend/src/socket.ts:22 | reading the digits back gives `n`, so `String(n)` loses nothing |
| Text.DecimalStringInjective | backend/src/socket.ts:22 | different numbers print differently |
| Text.DecimalStringFourDigits | backend/src/socket.ts:22 | a number in [1000, 9999] prints as exactly four characters |
| Handle.CollapseSpaces | backend/src/socket.ts:56 | `.replace(/\s+/g, '_')` leaves no whitespace and does not lengthen the text |
| Handle.KeepHandleChars | backend/src/socket.ts:57 | `.replace(/[^a-z0-9_]/g, '')` leaves only [a-z0-9_] and does not lengthen the text |
| Handle.KeepHandleCharsConcat | backend/src/socket.ts:57 | the character filter distributes over concatenation, so it keeps the order of the characters it keeps |
| Handle.KeepHandleCharsOne | backend/src/socket.ts:57 | a single character is kept exactly when it is in [a-z0-9_] |
| Handle.CollapseSpacesWord | backend/src/socket.ts:56 | a word without whitespace is copied unchanged, and what follows it is collapsed on its own |
| Handle.CollapseSpacesRun | backend/src/socket.ts:56 | a non-empty run of whitespace becomes one underscore, or nothing when it continues a run |
| Handle.CollapseSpacesAfterRun | backend/src/socket.ts:56 | a run ends at the first non-whitespace character or at the end of the text |
| Handle.CollapseSpacesWordThenRun | backend/src/socket.ts:56 | a word, then a maximal run of whitespace, then the rest becomes the word, one underscore, and the rest collapsed |
| Handle.Normalize | backend/src/socket.ts:52-57 | `normalizeHandle`, and `normalizedName` at frontend/src/pages/Chat.tsx:340-345: lower-case, trim, collapse whitespace runs, drop the rest; contract in NormalizeIsHandle, NormalizeOfHandle, NormalizeIdempotent and NormalizeExample |
| Handle.NormalizeExample | backend/src/socket.ts:52-57 | " Jo  Do! " normalises to "jo_do": padding trimmed, the inner run one underscore, letters lowered, punctuation dropped |
| Handle.NormalizeIsHandle | backend/src/socket.ts:52-57 | `normalizeHandle` returns only [a-z0-9_] characters, so no whitespace |
| Handle.NormalizeOfHandle | backend/src/socket.ts:52-57 | a string already made of [a-z0-9_] is its own normal form |
| Handle.NormalizeIdempotent | backend/src/socket.ts:52-57 | normalising twice gives the same as normalising once |
| Handle.NormalizeOfLowerHandle | frontend/src/pages/Chat.tsx:340-345 | a name whose lower case is a handle normalises to that lower case |
| Handle.AiNameNormalizesToAiHandle | frontend/src/pages/Chat.tsx:38-39 | the AI's display name "Gemini" normalises to its handle "gemini" |
| Mention.MentionAt | backend/src/socket.ts:61 | one match of the mention pattern at index i of the lower-cased text: `@gemini` at the start or after whitespace, not followed by a word character; used by the contracts of ScanMention, MentionsAI and MentionDetected |
| Mention.ScanMention | backend/src/socket.ts:61 | the left-to-right regular-expression search from index `k` succeeds exactly when some index from `k` on matches the regular expression of `mentionsAI` |
| Mention.MentionsAI | backend/src/socket.ts:59-62 | `mentionsAI` holds exactly when the lower-cased text has `@gemini` at the start or after whitespace, followed by the end or a non-word character |
| Mention.MentionDetected | backend/src/socket.ts:59-62 | a token written in any letter case at the start of the text or after whitespace, and not followed by a word character, is detected |
| Mention.MentionsAIExample | backend/src/socket.ts:59-62 | "hello @gemini how are you" triggers the AI |
| Mention.MentionInSlice | backend/src/socket.ts:229-241 | a mention lying inside a slice of the text is still a mention of that slice |
| Mention.MentionSurvivesTrim | backend/src/socket.ts:229-241 | trimming never removes a mention, so a mention the sender typed is seen in the trimmed text the server tests |
| Mention.AiPrompt | backend/src/socket.ts:243 | the prompt quotes the sender's name and then the message text at their fixed places |
| Mention.SenderHandle | backend/src/socket.ts:242 | the reply is addressed to a handle (only [a-z0-9_]); an empty name is replaced by "user" |
| Mention.AiFollowUp | backend/src/socket.ts:244-255 | what follows the Gemini reply: a broadcast of `@handle reply` or the 'AI unavailable' error; contract in AiFollowUpSpec |
| Mention.AiFollowUpSpec | backend/src/socket.ts:244-255 | the AI's answer is broadcast exactly when the model returned some non-whitespace text; the broadcast is `@<handle> ` followed by the trimmed answer; otherwise the error is 'AI unavailable. Check API key or model.' |
| ImagePayload.Base64Part | backend/src/socket.ts:211 | `data.split('base64,')[1] || ''`; contract in Base64PartSpec and Base64PartOfDataUri |
| ImagePayload.UpToMarker | backend/src/socket.ts:211 | the split's second field, cut at the next marker; contract in UpToMarkerSpec |
| ImagePayload.Padding | backend/src/socket.ts:212 | two for a trailing `==`, one for a trailing `=`, else none; used by ApproxBytesOfEncoding |
| ImagePayload.ApproxBytes | backend/src/socket.ts:213 | `Math.max(0, floor(len * 3 / 4) - padding)`; contract in ApproxBytesOfEncoding |
| ImagePayload.CheckImage | backend/src/socket.ts:206-216 | the image check: 'Invalid image payload.', then 'Image too large. Max 5MB.', else the payload to relay; contract in CheckImageSpec, CheckImageOfEncodedFile and CheckImageBoundary |
| ImagePayload.UpToMarkerSpec | backend/src/socket.ts:211 | the second field of `split('base64,')` is a marker-free prefix that ends at the next marker or at the end |
| ImagePayload.Base64PartSpec | backend/src/socket.ts:211 | the base64 part is the text after the first `base64,` up to the next one or the end, and holds no marker; it is empty when there is no marker |
| ImagePayload.CheckImageSpec | backend/src/socket.ts:206-216 | a payload that does not start with `data:image/` or lacks `base64,` is 'Invalid image payload.'; otherwise it is 'Image too large. Max 5MB.' exactly when the estimate exceeds 5 MiB; otherwise it is relayed verbatim |
| ImagePayload.ApproxBytesOfEncoding | backend/src/socket.ts:211-213 | on a well-formed RFC 4648 encoding of `n` bytes, the padding-corrected estimate `floor(3·len/4) − padding` is exactly `n` |
| ImagePayload.NoMarkerBeforeBase64 | backend/src/socket.ts:211 | in a browser data URI no `base64,` starts before the real one |
| ImagePayload.Base64PartOfDataUri | backend/src/socket.ts:211 | on a browser data URI the base64 part is exactly the encoded text |
| ImagePayload.CheckImageOfEncodedFile | backend/src/socket.ts:206-216 | a browser-encoded image of `n` bytes is relayed when `n ≤ 5 MiB` and refused as too large otherwise |
| ImagePayload.CheckImageBoundary | backend/src/socket.ts:213-215 | exactly 5 MiB passes; 5 MiB + 1 byte is refused |
| Rooms.CodeOf | backend/src/socket.ts:22 | `genCode`: the decimal text of a draw in [1000, 9999]; contract in RoomCodeShape |
| Rooms.RoomCodeShape | backend/src/socket.ts:22 | every generated code is four decimal digits, and two draws give the same code only when they are equal |
| Rooms.GenUniqueCode | backend/src/socket.ts:24-30 | the loop returns the first drawn code that is not a key of `rooms`; every earlier draw collided; the result is a room code |
| Rooms.CodesFrom | backend/src/socket.ts:39 | `Object.entries` lists exactly the keys of `rooms`, once each |
| Rooms.PublicEntries | backend/src/socket.ts:40-45 | the filter/map keeps exactly the public rooms, with their member count and creation time; distinct keys give distinct codes |
| Rooms.InsertByCount | backend/src/socket.ts:46 | inserting into a list sorted by count (largest first) keeps it sorted and adds exactly that entry |
| Rooms.InsertByCountKeepsCodesDistinct | backend/src/socket.ts:46 | inserting an entry with a new code keeps the codes distinct |
| Rooms.SortByCount | backend/src/socket.ts:46 | the sort yields a permutation ordered by `usersCount`, non-increasing |
| Rooms.SortByCountKeepsCodesDistinct | backend/src/socket.ts:46 | sorting keeps the codes distinct |
| Rooms.ListPublicRooms | backend/src/socket.ts:38-46 | `listPublicRooms`: the public entries sorted by member count; contract in ListPublicRoomsSpec |
| Rooms.ListPublicRoomsSpec | backend/src/socket.ts:38-46 | the listing holds exactly the public rooms, once each, each with its member count and creation time, sorted largest first |
| Rooms.RoomUsers | backend/src/socket.ts:82-96 | the roster lists only members that are known, named connections, with their name and picture, and is no longer than the member set |
| Rooms.RoomUsersComplete | backend/src/socket.ts:82-101 | when every member is a named connection, the roster lists every member in order, so `room_user_count` is the member count |
| Rooms.Without | backend/src/socket.ts:266 | `users.delete(id)` keeps exactly the other members, keeps the list free of repeats, removes one element when `id` was a member and changes nothing otherwise |
| Rooms.WithoutConcat | backend/src/socket.ts:266 | removing from a concatenation removes from each part, so the remaining members keep their order |
| Rooms.WithoutSlot | backend/src/socket.ts:266 | removing a value found only at one slot drops that slot and keeps the members before and after it |
| Rooms.WithoutRemovesOne | backend/src/socket.ts:266 | in a member list without repeats, removing a member gives the list with its one slot cut out |
| ChatServer.ImageDataOf | backend/src/socket.ts:207 | `raw?.data || raw?.image || ''`: the first non-empty of the two fields; used by Server.SendMessage and Server.RelayImage |
| ChatServer.TextOf | backend/src/socket.ts:229 | `raw?.text ?? raw?.message ?? ''`: the first present of the two fields, or the plain string; used by Server.SendMessage and Server.RelayText |
| ChatServer.RosterEmissions | backend/src/socket.ts:98-102 | `emitRoomUsers`: the roster, then its length, to the room; contract in RosterListsMembers |
| ChatServer.Departure | backend/src/socket.ts:266-305 | the emissions after a connection leaves a room, for both `leave_room` and `disconnect`: only the listing when the room is gone, otherwise `user_left` to the others, the roster, then the listing; stated by the ensures of Server.LeaveRoom and Server.Disconnect |
| ChatServer.RosterListsMembers | backend/src/socket.ts:98-102 | in a consistent state `room_users` lists every member of the room in order, and `room_user_count` is the member count, which is positive |
| ChatServer.MemberOfOneRoom | backend/src/socket.ts:169-170 | a connection is a member of at most one room |
| ChatServer.CreateKeepsConsistent | backend/src/socket.ts:148-153 | a connection that holds no room can become the sole member of a new room without breaking consistency |
| ChatServer.JoinKeepsConsistent | backend/src/socket.ts:178-180 | a connection that holds no room is not already a member, and adding it to an existing room keeps consistency |
| ChatServer.RemoveMember | backend/src/socket.ts:266-271 | removing a member changes only that room; the room is deleted exactly when no member is left |
| ChatServer.LeaveKeepsConsistent | backend/src/socket.ts:259-271 | leaving keeps consistency, so no room is left without members |
| ChatServer.DisconnectKeepsConsistent | backend/src/socket.ts:288-294 | a disconnect from a held room keeps consistency |
| ChatServer.IdleDisconnectKeepsConsistent | backend/src/socket.ts:288-290 | dropping a connection that holds no room keeps consistency |
| ChatServer.Server.constructor | backend/src/socket.ts:16 | the server starts with no rooms, no connections and nothing emitted |
| ChatServer.Server.Connect | backend/src/socket.ts:104-138 | without an identity the connection gets 'Unauthorized.' and no session; with one it gets a session holding no room; rooms are unchanged |
| ChatServer.Server.CreateRoom | backend/src/socket.ts:140-163 | guards in order: 'Unauthorized.' then 'User is already in a room.', both leaving rooms and sessions unchanged; otherwise a fresh room code, visibility private only on request, the creator as sole member and holder, then the emissions in the handler's order |
| ChatServer.Server.JoinRoom | backend/src/socket.ts:165-190 | guards in order: 'Unauthorized.', 'User is already in a room.', then 'Room does not exist.' for an unknown trimmed code, each changing nothing; otherwise only that room gains the member at the end, and the session takes its code and visibility |
| ChatServer.Server.SendMessage | backend/src/socket.ts:192-204 | 'Unauthorized.' for a nameless connection; 'Join a room.' for one with no live room, broadcasting nothing; otherwise the image or the text branch; rooms and sessions never change |
| ChatServer.Server.RelayImage | backend/src/socket.ts:206-226 | an image the size check refuses sends its error to the sender alone; an accepted one is broadcast to the room verbatim |
| ChatServer.Server.RelayText | backend/src/socket.ts:229-243 | trimmed text that is empty sends nothing; otherwise it is broadcast to the room, and a model request with the quoting prompt is made exactly when the text mentions the AI |
| ChatServer.Server.DeliverAiReply | backend/src/socket.ts:244-255 | a usable answer is broadcast by the AI to the room; otherwise the sender alone gets the unavailability error |
| ChatServer.Server.LeaveRoom | backend/src/socket.ts:259-286 | with no live room held: ack false and nothing changes; otherwise the member is removed, the room is deleted when empty, the session's room and visibility are cleared, and the emissions follow in order before ack true |
| ChatServer.Server.Disconnect | backend/src/socket.ts:288-305 | the session is gone; a held live room loses the member (deleted when empty) and the others are told, as on leaving; otherwise nothing else changes |
| ChatServer.Server.ListRooms | backend/src/socket.ts:307-309 | the asking connection alone receives the public listing; the state is unchanged |
| ChatClient.Cursor | frontend/src/pages/Chat.tsx:369-370 | `selectionStart ?? value.length`, clamped as `slice` clamps it; used by OnTextChangeSpec and InsertMention |
| ChatClient.OnTextChange | frontend/src/pages/Chat.tsx:365-387 | `onTextChange`: the mention state after an edit; contract in OnTextChangeSpec, OnTextChangeAt and LastAtOpens |
| ChatClient.OnTextChangeSpec | frontend/src/pages/Chat.tsx:365-387 | a mention is open at index `i` exactly when `i` holds the last `@` before the cursor, that `@` starts the text or follows whitespace, and no space or line break lies between it and the cursor; the query is that slice; otherwise the state is closed |
| ChatClient.OnTextChangeAt | frontend/src/pages/Chat.tsx:369-386 | the same characterisation, for one index |
| ChatClient.LastAtOpens | frontend/src/pages/Chat.tsx:376-385 | the last `@` opens a mention exactly when it follows whitespace or starts the text, and the query holds no space and no line break |
| ChatClient.IsAIUser | frontend/src/pages/Chat.tsx:347 | `isAIUser`: the name normalises to the AI handle; contract in IsAIUserOfAnyCase and AiUserIsAI |
| ChatClient.IsAIUserOfAnyCase | frontend/src/pages/Chat.tsx:347 | any letter case of "gemini" is the AI user |
| ChatClient.Candidates | frontend/src/pages/Chat.tsx:352-353 | the AI followed by the room's users, those with an empty name dropped; stated through Named, NamedConcat and MentionSuggestionsOrder |
| ChatClient.Named | frontend/src/pages/Chat.tsx:353 | the candidates are exactly the members with a non-empty name, no more of them than there were members, and the AI stays first |
| ChatClient.NamedConcat | frontend/src/pages/Chat.tsx:353 | the name filter distributes over concatenation, so it keeps the members' order |
| ChatClient.WithPrefix | frontend/src/pages/Chat.tsx:354-356 | the filter keeps exactly the candidates whose handle starts with the query, no more of them than there were, keeping the first when it matches |
| ChatClient.WithPrefixConcat | frontend/src/pages/Chat.tsx:354-356 | the prefix filter distributes over concatenation, so it keeps the candidates' order |
| ChatClient.WithPrefixPosition | frontend/src/pages/Chat.tsx:354-361 | for a handle the prefix filter lets through, the filtered list has a first member with it exactly when the unfiltered list does, and it is the same member |
| ChatClient.WithPrefixOrder | frontend/src/pages/Chat.tsx:354-361 | the prefix filter keeps the order of the first occurrences of the handles it lets through |
| ChatClient.FindIndex | frontend/src/pages/Chat.tsx:359 | `findIndex` gives the first index whose handle equals the name, or "none" when there is no such index |
| ChatClient.KeepFirst | frontend/src/pages/Chat.tsx:357-361 | each element kept is the first in the list with its handle |
| ChatClient.Dedupe | frontend/src/pages/Chat.tsx:357-361 | the reference deduplication keeps elements of the list with pairwise distinct handles and represents every handle |
| ChatClient.FindIndexOfOwnKey | frontend/src/pages/Chat.tsx:359-360 | `findIndex` stops at an element exactly when no earlier element has its handle |
| ChatClient.KeepFirstKeepsFirsts | frontend/src/pages/Chat.tsx:357-361 | every element the `findIndex` filter keeps is the first of its handle in the list |
| ChatClient.KeepFirstInOrder | frontend/src/pages/Chat.tsx:357-361 | the kept elements come in the order of their first occurrences |
| ChatClient.KeepFirstKeepsAllFirsts | frontend/src/pages/Chat.tsx:357-361 | the first occurrence of every handle is kept |
| ChatClient.PositionCons | frontend/src/pages/Chat.tsx:358-359 | `findIndex` on a list is 0 when the head has the handle, and one more than on the tail otherwise |
| ChatClient.PositionAtMost | frontend/src/pages/Chat.tsx:358-359 | `findIndex` finds the handle at or before any index where it occurs |
| ChatClient.KeepFirstIsDedupe | frontend/src/pages/Chat.tsx:357-361 | the `findIndex` filter equals the reference left-to-right deduplication |
| ChatClient.FirstThree | frontend/src/pages/Chat.tsx:357-362 | the `findIndex` deduplication, then `slice(0, 3)`; contract in FirstThreeSpec, FirstThreeOrder and FirstThreeHead |
| ChatClient.FirstThreeSpec | frontend/src/pages/Chat.tsx:357-362 | at most three elements of the list, with distinct handles; fewer than three means every handle of the list is represented |
| ChatClient.FirstThreeOrder | frontend/src/pages/Chat.tsx:357-362 | which three `slice(0, 3)` keeps: each is the first of its handle in the list, they come in list order, and with three kept every handle met before the third one is among them |
| ChatClient.FirstThreeBeforeThird | frontend/src/pages/Chat.tsx:357-362 | with three kept, every handle met before the third one is among the first two |
| ChatClient.FirstThreeWithPrefix | frontend/src/pages/Chat.tsx:354-362 | the three kept after the prefix filter are, in the unfiltered list, each the first of its handle, in order, and cover every matching handle met before the third |
| ChatClient.FirstThreeHead | frontend/src/pages/Chat.tsx:357-362 | the head of the list comes first, and nothing else with its handle is kept |
| ChatClient.MentionSuggestions | frontend/src/pages/Chat.tsx:349-363 | `mentionSuggestions`; contract in MentionSuggestionsSpec and MentionSuggestionsOrder |
| ChatClient.MentionSuggestionsSpec | frontend/src/pages/Chat.tsx:349-363 | no suggestions without an open mention; otherwise at most three named members, each the AI or a room member, each matching the query, with distinct handles; the AI comes first when its handle matches and shadows any member with its handle; fewer than three means every matching handle is offered |
| ChatClient.MentionSuggestionsOrder | frontend/src/pages/Chat.tsx:349-363 | each suggestion is the first candidate with its handle (so a later member with the same handle never replaces an earlier one), the suggestions come in candidate order, and with three offered every matching handle met before the third one is offered |
| ChatClient.Splice | frontend/src/pages/Chat.tsx:393-401 | the new text `before + "@" + handle + " " + after` and its caret; contract in SpliceSpec and SpliceCloses |
| ChatClient.InsertMention | frontend/src/pages/Chat.tsx:389-401 | `insertMention`: nothing without an open mention, otherwise the splice of the normalised name; contract in InsertMentionCloses and ChoosingAiMentionsIt |
| ChatClient.SpliceSpec | frontend/src/pages/Chat.tsx:393-401 | the new text is the text before `at`, then `@`, the handle and a space, then the text from the cursor; the caret lands at `at + len(handle) + 2` |
| ChatClient.SpliceCloses | frontend/src/pages/Chat.tsx:395-401 | at the new caret no mention is open, in agreement with the reset of the mention state |
| ChatClient.InsertMentionCloses | frontend/src/pages/Chat.tsx:389-397 | choosing any suggestion from an open mention produces an edit after which no mention is open |
| ChatClient.LastIndexOfIsLast | frontend/src/pages/Chat.tsx:371 | `lastIndexOf` finds an occurrence that has no occurrence after it |
| ChatClient.ChoosingAiMentionsIt | frontend/src/pages/Chat.tsx:389-395 | choosing a member whose name normalises to the AI handle gives text that, trimmed by the page and again by the server, mentions the AI |
| ChatClient.SpliceAiHandle | frontend/src/pages/Chat.tsx:395 | the AI handle spliced in at the start or after whitespace is a mention |
| ChatClient.AiUserIsAI | frontend/src/pages/Chat.tsx:347-352 | the AI suggestion is recognised as the AI user |
| ChatClient.OnImageSelected | frontend/src/pages/Chat.tsx:300-316 | `onImageSelected` up to the file read: the four refusals in order, else read the file; contract in OnImageSelectedSpec and ClientAndServerAgreeOnSize |
| ChatClient.OnImageSelectedSpec | frontend/src/pages/Chat.tsx:300-316 | no file does nothing; a non-image is refused as such whatever its size; an oversized image is refused whatever the connection; an unconnected page refuses; otherwise the file is read |
| ChatClient.ClientAndServerAgreeOnSize | frontend/src/pages/Chat.tsx:308-311 | for a browser-encoded image the page reads the file exactly when the server relays it, and refuses it as too large exactly when the server would |
| UserMiddleware.ValidateUserRegister | backend/src/middlewares/userMiddleware.ts:3-16 | `validateUserRegister`; contract in ValidateUserRegisterSpec |
| UserMiddleware.ValidateUserLogin | backend/src/middlewares/userMiddleware.ts:18-31 | `validateUserLogin`; contract in ValidateUserLoginSpec and LoginIgnoresName |
| UserMiddleware.ValidateUserUpdate | backend/src/middlewares/userMiddleware.ts:33-52 | `validateUserUpdate`; contract in ValidateUserUpdateSpec and UpdateAcceptsEmptyValues |
| UserMiddleware.ValidateUserRegisterSpec | backend/src/middlewares/userMiddleware.ts:3-16 | a missing body gives 400 'User data is required.'; a body with a falsy name, email or password gives 400 'All fields are required.'; anything else goes on |
| UserMiddleware.ValidateUserLoginSpec | backend/src/middlewares/userMiddleware.ts:18-31 | a missing body gives 400 'User data is required.'; a falsy email or password gives 400 'All fields are required.'; anything else goes on |
| UserMiddleware.LoginIgnoresName | backend/src/middlewares/userMiddleware.ts:24-26 | name, picture and file play no part in a login |
| UserMiddleware.ValidateUserUpdateSpec | backend/src/middlewares/userMiddleware.ts:33-52 | a missing body gives 400 'User data is required.'; 'At least one field must be provided.' comes exactly when all four fields are undefined and no file is attached; anything else goes on |
| UserMiddleware.UpdateAcceptsEmptyValues | backend/src/middlewares/userMiddleware.ts:41-45 | an empty string or `null` in any one field is enough for an update, though registration refuses it |
| UserMiddleware.RegisterAcceptedImpliesLoginAndUpdateAccepted | backend/src/middlewares/userMiddleware.ts:3-52 | a body accepted for registration is accepted for login and for update |
| UserMiddleware.ValidatorsAgreeOnMissingBody | backend/src/middlewares/userMiddleware.ts:3-52 | every answer is a 400; the three validators agree exactly on a missing body |

## Left out

- The Gemini call (`fetchGeminiReply`) uses a foreign SDK, environment variables and asynchronous I/O. Its outcome is the `reply` parameter of `DeliverAiReply`: some text, or nothing for a missing key or an error. The interleaving around the `await` is modelled as two steps, `SendMessage` and then `DeliverAiReply`.
- Authentication at connection time (token parsing, JWT validation, the user lookup) is reduced to the identity or its absence given to `Connect`. The socket being closed after 'Unauthorized.' is not modelled.
- The socket.io transport is a log of (target, event) pairs. This leaves out `socket.join`/`leave`, delivery, CORS and `maxHttpBufferSize`. `io.sockets` is the `sessions` map of the server.
- `crypto.randomInt` is a stream of draws in [1000, 9999], a parameter of `CreateRoom`. The caller must supply a stream that contains a free code; the source loops until it finds one.
- ListPublicRoomsSpec: does not state the order among rooms with equal member counts. `SortByCount` is a stable insertion sort over the codes in ascending numeric order, as `Array.sort` over `Object.entries` is, but that tie order is not proved. The source promises no tie order.
- CreateRoom: requires `HasFreeDraw`, a draw stream holding a code that no live room uses. When all 9000 codes are live, `genUniqueCode` (backend/src/socket.ts:26-28) never finds one: it loops forever and blocks the event loop. The model does not capture that non-terminating case.
- Each `Date.now()` in one handler is the single `now` parameter, so message ids and timestamps are not distinguished.
- Room keys are integer-like strings. JavaScript lists those in ascending numeric order, and that is how `Object.entries` is modelled. Prototype keys such as `rooms['constructor']` are not modelled, and `join_room` treats every string that is not a live room's key as unknown.
- `String(code || '')` in `join_room` and `String(...)` of the `send_message` fields are modelled for string payloads only. `JoinRoom` receives the resulting string, and the payload fields are strings or absent.
- String handling is ASCII: `toLowerCase`, `\s`, `\w` and `trim` are modelled for ASCII characters only. Unicode case mapping and Unicode whitespace are not modelled. Lengths and indices (`selectionStart`, `lastIndexOf`, `slice`, `base64.length`) are counted in characters, not UTF-16 code units, so text with a character outside the Basic Multilingual Plane is indexed differently from the page.
- The browser's file reading (`FileReader`, the 'Failed to read image.' path) and the emission that follows it are not modelled. `OnImageSelected` stops at the decision to read the file.
- React rendering, hooks, the chat cache, the shared socket, timers, the clipboard and the leave-room latch of the chat page are not modelled. `InsertMention` returns only the edit (the new text and caret) rather than calling `setText`. The caret placed after `requestAnimationFrame` is the edit's `caret`. The reset of the mention state to closed is not returned. `SpliceCloses` and `InsertMentionCloses` show instead that re-reading the new text at the new caret gives the closed state. `OnTextChange` returns the new mention state rather than calling `setMentionState`.
- `JsValue` models JSON numbers as integers, so `NaN` and fractional values are not modelled. A body that is not an object is not modelled either. The update body's `profile_pic` field is `profilePic`.
- Error logging with `console.log`/`console.error` is not modelled.
- The other files of the repository (pages other than the chat page, routes, controllers, the repository layer, configuration) are not part of this model.
