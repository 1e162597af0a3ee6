# A Dafny model of the web3 core

This project models the parts of the repository that carry state, protocols or exact arithmetic, and proves
what they promise. It stands alone: `dafny verify dfyconfig.toml` checks every file.

- **Stream de-chunker** (`Dechunker*.dfy`). The four rewrite rules, the split and the carried remainder, as a
  class with the two fields of the source. The rules together cut a text at its *seams*, in one pass; from that
  follows chunk invariance: however a stream is cut into data events, the values returned are the messages in
  order. This holds exactly when each boundary between two messages is `Kept` by the cutting, whatever JSON white
  space stands between the messages.
  `JSON.parse` is any function that accepts whole messages and rejects unfinished ones and glued ones (`Reads`).
- **Socket protocol** (`JsonRpc.dfy`, `Socket*.dfy`). Two request queues, the reconnect flag, the attempt
  counter, timers and settle-once promises as a state machine over its events, and the provider as a class whose
  methods are proved against the steps. Timers, socket status, failing opens and failing sends are choices of the
  environment. A promise is named by its ticket. Which promises a step drops or fulfills is stated exactly, without
  any condition on ids; `SocketBehaviour.dfy` and `SocketReplies.dfy` say what each event does in terms of the members
  of a reply, the close codes and the attempts left.
- **EIP-712 and ABI signatures** (`Eip712*.dfy`, `AbiSignature.dfy`). The closure of struct types, the type
  encoding and its unique reading, which values hash, the mutually recursive hashing, and the signature printer. Keccak
  is a free constructor, so hashes are equal exactly when their inputs are; UTF-8 and the ABI words of atomic values are
  parameters.
- **IBAN** (`Mod97.dfy`, `Iban.dfy`). The blockwise MOD 97-10 loop on any text, check digits, error detection and direct IBANs.
- **Numbers in texts** (`Numerals.dfy`, `HexText.dfy`, `Units.dfy`, `TwosComplement.dfy`, `Parsing.dfy`,
  `TypeNames.dfy`, `TypeNameSpaces.dfy`). Hex codecs, decimal units, two's complement and the ABI type-name parser.
- **Batch and wallet** (`Batch*.dfy`, `Wallet.dfy`). Batch settlement over heap-allocated deferred promises, and
  the wallet's address map against its array.

`Wrappers.dfy` holds `Option` and `Result`, `Strings.dfy` searching in texts. Lemmas carry `{:induction false}`:
what a proof uses is in its body.

## Where the code falls short of its intent

Each of these is proved, together with the exact condition under which the code does what is wanted.

- A data event whose responses include a subscription notification or an unknown id loses every response behind
  it: a response fulfills its promise exactly if it is `Read` (`MessageExactly`; at an input, `ResponseLost`).
- A request that has to wait takes the place of a pending one with its id, whose promise is never settled; the same
  happens when pending requests are sent (`OlderPromiseIsDropped`, `FlushDropsExactly`; at an input,
  `SameIdWhileConnectingDrops`). Over whole runs, `RunDropsExactly` says which promises are lost.
- The de-chunker gets stuck at a boundary exactly if no cut lies in it and it is either more than a line break, as
  CR-LF is, or has a cut through the brackets around it (`Delivery`, `LongGapDelivery`; at inputs, `CutBatchIsLost`,
  `CrLfIsLost`). A `|--|` inside a message is cut out of it (`SeparatorsAreCutOut`).
- `string` values that read as strict hex are decoded before they are hashed, so struct hashes fix the bytes of
  strings, not the strings (`StructInjective`). They fix plain strings (`PlainStructInjective`), but every string has
  another one with its hash (`TextTwin`, `StructTwin`; which ones, `TextsCollideExactly`).
- Marks in field names spoil the type encoding of EIP-712 (`MarkInNameCollides`); without them it fixes the definitions
  (`EncodeTypeInjective`).
- A fragment name lets the signature show the inputs exactly if it holds no `(` (`NameShowsInputs`).
- `fromAddress` works only for addresses of 16, 30 or 31 digits in base 36, and leads back only from 36^29 on
  (`AddressRoundTrip`). Check digits are accepted modulo 97, so 02 and 99 are interchangeable
  (`ValidCheckDigits`). The MOD 97-10 loop does not end on every text: `LoopEndsExactly` decides it, and for a BBAN
  without space or sign in front the first character does (`BuildingEnds`); `-5` is one that never ends
  (`SignedBuildingEnds`, `MinusFiveNeverEnds`).
- `fromWei` gives `0.` for zero in every unit but wei (`FromWeiText`).
- `toWei` gives the empty text for `0.0` and a number too large for fractions longer than the unit
  (`ToWeiIsProduct`, `EmptyWei`).
- At 64 nibbles, the default width, `fromTwosComplement` refuses the text of every negative number but -2^255, which
  it reads as 2^255 (`RoundTrip`, `WideNegative`).
- `numberToHex` turns hex texts of zero into a bare `0x`, which is no number (`HexNormalForm`).
- The comment of `parseBaseType` promises that all spaces are removed; only the first one is, the size of a `uint` is
  cut from the text that still has it, and a space inside brackets hides them. `SpacedNameReadsRight` says for any
  number of spaces when the name reads right, `OneSpace` what comes out for one.
- Batch ids are converted to numbers before they are compared, but not when promises are looked up: a response that
  passes answers every request exactly if all its ids are numbers (`PassingAnswersIffNumbers`; at an input,
  `TextIdIsLost`). Request ids that are no numbers, such as UUIDs, pass with any ids that are none
  (`UuidIdsAreNotCompared`), null counts as 0 (`NullIdIsLost`), and with ids of both kinds a correct response may be turned down (`MixedIdsMayFail`).
- A batch that is answered after its timeout keeps its rejections, but the state fields follow the late replies
  (`LateAnswer`).
- Removing any wallet account but the last one by address, or any account by position, breaks the address map
  (`RemoveAddressExactly`, `RemoveIndexBreaks`).

## Model

| member | source | states |
|---|---|---|
| Dechunker.ChunkResponseParser.ParseResponse | packages/web3-utils/src/chunk_response_parser.ts:43-96 | one data event: the values returned, the chunk carried on and whether the timer runs are those of `Feed`, whose meaning over a whole stream is `Delivery` |
| Dechunker.ChunkResponseParser.ChunkTimeout | packages/web3-utils/src/chunk_response_parser.ts:73-84 | the timer asks for empty queues just when the provider does not reconnect by itself, and leaves the carried chunk |
| DechunkerSeams.RuleHits | packages/web3-utils/src/chunk_response_parser.ts:47-51 | a rule applied to a text with its own kind of seam puts the separator there and goes on behind it |
| DechunkerSeams.RuleMisses | packages/web3-utils/src/chunk_response_parser.ts:47-51 | at a seam of another kind a rule changes nothing |
| DechunkerSeams.DechunkIsPieces | packages/web3-utils/src/chunk_response_parser.ts:47-52 | four replacements and a split are one scan: a text without separator is cut at its seams, left to right, dropping the line break there |
| DechunkerTheorems.Delivery | packages/web3-utils/src/chunk_response_parser.ts:43-96 | for any white space between messages and any cutting of the stream into events the values returned are a prefix of the messages in order; all of them if and only if every boundary is kept, and then the carried text is exactly the unfinished tail, but for white space in front |
| DechunkerTheorems.ObjectStreamsAlwaysKept | packages/web3-utils/src/chunk_response_parser.ts:48 | streams of single objects with at most a line break between them may be cut anywhere |
| DechunkerTheorems.ObjectStreamDelivery | packages/web3-utils/src/chunk_response_parser.ts:43-96 | single-object streams: all messages in order, and lastChunk is the tail, for every cutting |
| DechunkerTheorems.WholeBracketsAreKept | packages/web3-utils/src/chunk_response_parser.ts:48-51 | streams with batches are safe if no cut parts `[` from `{` or `}` from `]` |
| DechunkerTheorems.LongGapDelivery | packages/web3-utils/src/chunk_response_parser.ts:43-96 | with more than a line break between messages, CR-LF for one, all values come back if and only if a cut lies in every such place |
| DechunkerTheorems.CutBatchIsLost | packages/web3-utils/src/chunk_response_parser.ts:47-66 | for every reading of the messages, a cut through the end of a batch makes the parser return nothing |
| DechunkerTheorems.CrLfIsLost | packages/web3-utils/src/chunk_response_parser.ts:48-66 | two messages with CR-LF between them in one event: nothing is returned |
| DechunkerSeparator.SeparatorsAreCutOut | packages/web3-utils/src/chunk_response_parser.ts:47-66 | a message that holds the separator itself is parsed without it: the text parsed is the message if and only if it holds none, and is 4 characters shorter for each |
| SocketProvider.SocketProvider.RejectQueue | packages/web3-utils/src/socket_provider.ts:370-375 | the promises of a queue are rejected in the order of the queue |
| SocketProvider.SocketProvider.ClearQueues | packages/web3-utils/src/socket_provider.ts:504-524 | both queues are rejected and emptied, pending first |
| SocketProvider.SocketProvider.Reconnect | packages/web3-utils/src/socket_provider.ts:363-394 | new state of a reconnect, which `ReconnectExactly` spells out: nothing while one is under way, else the sent requests are rejected and, as long as an attempt is left, a timer starts; with none left the queues are cleared |
| SocketProvider.SocketProvider.Connect | packages/web3-utils/src/socket_provider.ts:149-172 | status, exception and deferred reconnect for each outcome of opening the socket |
| SocketProvider.SocketProvider.Request | packages/web3-utils/src/socket_provider.ts:399-449 | every branch of a request: refused, queued as pending, sent, or sent in vain; which promise the caller gets; like every method of the class, from a safe state it leads to a safe one |
| SocketProvider.SocketProvider.SendPendingRequests | packages/web3-utils/src/socket_provider.ts:458-464 | the pending requests move to the sent queue in order, up to the send that throws |
| SocketProvider.SocketProvider.OnConnectEvent | packages/web3-utils/src/socket_provider.ts:451-456 | an open connection: attempts are zero again, the provider's own two requests run, then the pending ones are sent |
| SocketProvider.SocketProvider.OnMessageEvent | packages/web3-utils/src/socket_provider.ts:466-502 | the loop over the responses of one event, with both early returns; which replies settle a promise is `ReplyFulfills` and `BatchFulfills` |
| SocketProvider.SocketProvider.OnWsCloseEvent | packages/web3-providers-ws/src/index.ts:155-168 | a close reconnects for abnormal codes or unclean closes, else drains the queues and disconnects |
| SocketProvider.SocketProvider.OnIpcEndEvent | packages/web3-providers-ipc/src/index.ts:141-153 | the same decision for IPC |
| SocketProvider.SocketProvider.OnIpcCloseEvent | packages/web3-providers-ipc/src/index.ts:155-158 | the close event of IPC drains the queues, whatever the reconnect options |
| SocketProvider.SocketProvider.Disconnect | packages/web3-utils/src/socket_provider.ts:315-332 | a disconnect settles and drops nothing |
| SocketProvider.SocketProvider.OnErrorEvent | packages/web3-utils/src/socket_provider.ts:342-349 | an error while reconnecting changes nothing |
| SocketProvider.SocketProvider.TimerCallback | packages/web3-utils/src/socket_provider.ts:380-384 | the timer connects and ends the reconnect, unless connecting throws |
| SocketProvider.SocketProvider.ImmediateCallback | packages/web3-utils/src/socket_provider.ts:167-169 | the deferred reconnect |
| SocketProvider.SocketProvider.Reset | packages/web3-utils/src/socket_provider.ts:354-361 | the queues are emptied without settling anything |
| SocketInvariant.RejectAllSpec | packages/web3-utils/src/socket_provider.ts:504-521 | rejecting a queue of unsettled promises settles each of them once and no other |
| SocketInvariant.ReconnectStep | packages/web3-utils/src/socket_provider.ts:363-394 | a reconnect keeps the queue invariant, leaves settled promises alone and drops none |
| SocketInvariant.RequestStep | packages/web3-utils/src/socket_provider.ts:399-449 | a request keeps the invariant; a promise is dropped only by its own throwing send or by a second request with its id while connecting |
| SocketSafety.FlushStep | packages/web3-utils/src/socket_provider.ts:458-464 | sending the pending requests keeps the invariant and drops nothing if ids are distinct |
| SocketSafety.TakeResponseStep | packages/web3-utils/src/socket_provider.ts:485-500 | a response that is read takes one entry out and fulfills exactly its promise, if recognised |
| SocketSafety.MessageStep | packages/web3-utils/src/socket_provider.ts:466-502 | a data event keeps the invariant and drops only promises of unrecognised responses |
| SocketTheorems.StepKeepsInvariant | packages/web3-utils/src/socket_provider.ts:149-524 | every event keeps the invariant: queued promises are unsettled, each promise is settled at most once and fulfilled only by a response with its own key, attempts stay bounded, one timer runs exactly while reconnecting; promises outside the queues, settled ones among them, never change and never return to a queue |
| SocketTheorems.RunIsSafe | packages/web3-utils/src/socket_provider.ts:149-524 | the same over every run |
| SocketTheorems.DroppedForever | packages/web3-utils/src/socket_provider.ts:149-524 | a promise that is unsettled and in no queue stays so over every run |
| SocketTheorems.InitialIsSafe | packages/web3-utils/src/socket_provider.ts:103-147 | a new provider satisfies the invariant |
| SocketTheorems.StepConserves | packages/web3-utils/src/socket_provider.ts:354-521 | with distinct live ids a step drops a promise only by reset, by its own throwing send or by an unrecognised response, and ids stay distinct |
| SocketTheorems.OnlyTheseDrop | packages/web3-utils/src/socket_provider.ts:354-521 | over every run, a dropped promise was dropped by one such event of the run |
| SocketTheorems.ExactlyOnePlace | packages/web3-utils/src/socket_provider.ts:432-446 | every accepted request is in exactly one of pending, sent, fulfilled, rejected, dropped |
| SocketTheorems.BoundedReconnection | packages/web3-utils/src/socket_provider.ts:378-384 | without an open or a reset, the reconnects started are exactly the attempts used up, at most maxAttempts |
| SocketTheorems.ExhaustionSettlesAll | packages/web3-utils/src/socket_provider.ts:385-393 | the reconnect that finds no attempt left empties both queues and rejects every waiting promise |
| SocketDrops.RequestDropsExactly | packages/web3-utils/src/socket_provider.ts:399-449 | which promises a request drops: its own if the send throws, and the pending one with its id if it has to wait, and no other |
| SocketDrops.OlderPromiseIsDropped | packages/web3-utils/src/socket_provider.ts:432-436 | an older promise is lost in a request if and only if the request is accepted, has to wait and its id is pending |
| SocketDrops.FlushDropsExactly | packages/web3-utils/src/socket_provider.ts:458-464 | sending pending requests drops exactly the promises sent under the ids of those that move |
| SocketDrops.MessageExactly | packages/web3-utils/src/socket_provider.ts:466-502 | for any responses, repeated ids included: which promises one data event fulfills with which response and which it drops, as an if and only if |
| SocketDrops.StepDropsExactly | packages/web3-utils/src/socket_provider.ts:149-524 | for every event, exactly which promises it drops, whatever the ids |
| SocketDrops.RunDropsExactly | packages/web3-utils/src/socket_provider.ts:149-524 | over every run, a promise is dropped at the end if and only if some event dropped it |
| SocketDrops.SameIdWhileConnectingDrops | packages/web3-utils/src/socket_provider.ts:419-436 | one id used twice while connecting: the first promise stays unsettled in every continuation |
| SocketDrops.ResponseLost | packages/web3-utils/src/socket_provider.ts:485-489 | a run whose last data event holds the answer behind an unknown id and leaves the promise unsettled, though the answer alone fulfills it |
| JsonRpc.CountsIsValid | packages/web3-utils/src/json_rpc.ts:40-84 | a reply is valid exactly if it is of version 2.0, its id is a number or a text, and, of result and error, one is there and the other is not, or both are and one is null |
| JsonRpc.NotifiesIsNotification | packages/web3-utils/src/socket_provider.ts:473-476 | a subscription notification is a message of version 2.0 with parameters whose method ends with `_subscription` |
| SocketReplies.ReplyFulfills | packages/web3-utils/src/socket_provider.ts:466-502 | a reply fulfills the request sent under its id if and only if it counts, by its members, and is no notification; one that does not count leaves the promise unsettled and in no queue |
| SocketReplies.AnswerFulfills | packages/web3-utils/src/json_rpc.ts:40-61 | a result, null or not, and likewise an error fulfills the request with its number or text for an id |
| SocketReplies.BatchFulfills | packages/web3-utils/src/json_rpc.ts:86-94 | a batch fulfills the request sent under its first id if and only if every reply in it counts |
| SocketReplies.BadBatchIsIgnored | packages/web3-utils/src/socket_provider.ts:481-489 | an empty batch, or one with a reply that does not count, changes nothing, and nothing behind it is read |
| SocketReplies.RequestExactly | packages/web3-utils/src/socket_provider.ts:399-449 | which requests are taken, by socket, status and id, and in which queue the new promise waits; otherwise queues and promises stay |
| SocketReplies.OpenExactly | packages/web3-utils/src/socket_provider.ts:451-464 | an open connection counts no attempts, asks for the chain before the accounts, and leaves nothing pending if no send throws |
| SocketBehaviour.ReconnectExactly | packages/web3-utils/src/socket_provider.ts:363-394 | a reconnect starts as long as an attempt is left: one timer, one attempt more, the sent promises rejected, the pending ones untouched; at the limit both queues are rejected and emptied |
| SocketBehaviour.EveryAttemptIsMade | packages/web3-utils/src/socket_provider.ts:363-394 | over every run of closes, each followed by its timer: as many reconnects start as there are closes or attempts left, whichever is less |
| SocketBehaviour.WsCloseExactly | packages/web3-providers-ws/src/index.ts:155-168 | a close that is clean with code 1000 or 1001, or without automatic reconnects, rejects and empties both queues; any other one reconnects |
| SocketBehaviour.IpcEndExactly | packages/web3-providers-ipc/src/index.ts:141-153 | the end of an IPC socket reconnects if and only if there is no event object and reconnects are automatic, else it drains; either way it is disconnected |
| SocketBehaviour.DrainsExactly | packages/web3-providers-ipc/src/index.ts:155-158 | the close event of IPC rejects every waiting promise and no other |
| SocketBehaviour.QuietSteps | packages/web3-utils/src/socket_provider.ts:315-361 | a reset forgets queues and attempts and settles nothing; a disconnect changes the status alone; an error changes nothing |
| SocketBehaviour.ConnectExactly | packages/web3-utils/src/socket_provider.ts:149-172 | status and deferred reconnects for each way opening the socket can go |
| SocketBehaviour.TimerExactly | packages/web3-utils/src/socket_provider.ts:380-384 | the timer ends the reconnect, connects, and defers another reconnect exactly if opening fails |
| SocketBehaviour.ImmediateExactly | packages/web3-utils/src/socket_provider.ts:167-169 | a deferred reconnect does what a reconnect does |
| Eip712Types.DependenciesSpec | packages/web3-eth-abi/src/eip_712.ts:33-60 | on every acyclic table the result has the primary type first, no duplicates, and exactly the structs reachable from it |
| Eip712Types.CollectSpec | packages/web3-eth-abi/src/eip_712.ts:50-58 | the reduce over the fields adds exactly what the fields read so far reach |
| Eip712Types.EncodeTypeIsCanonical | packages/web3-eth-abi/src/eip_712.ts:70-84 | the encoding is the text of the primary type, then the texts of the other structs it reaches in alphabetical order; the text of a struct is its name, `(`, each field as type, blank and name, joined by commas, and `)` |
| Eip712Types.BeforeIsEarlier | packages/web3-eth-abi/src/eip_712.ts:72-73 | the order of the sort is the alphabetical one: a proper prefix comes first, otherwise the first difference decides |
| Eip712Layout.ExampleEncoding | packages/web3-eth-abi/src/eip_712.ts:70-84 | the example of EIP-712, section "Definition of encodeType": Transaction, then Asset, then Person |
| Eip712Types.EncodeTypeIgnoresTheRest | packages/web3-eth-abi/src/eip_712.ts:70-84 | two tables that agree on the closure give the same encoding |
| Eip712Types.EncodeTypeFixesName | packages/web3-eth-abi/src/eip_712.ts:70-84 | equal encodings, in one table or two, are of one struct name |
| Eip712Tables.ReadRendered | packages/web3-eth-abi/src/eip_712.ts:76-83 | for names and types free of the marks a printed list of definitions can be read in one way only |
| Eip712Tables.EncodeTypeInjective | packages/web3-eth-abi/src/eip_712.ts:70-84 | two structs of two tables have one encoding if and only if they have one name and one definition, of everything they reach |
| Eip712Tables.MarkInNameCollides | packages/web3-eth-abi/src/eip_712.ts:76-83 | a field name that holds marks makes two definitions encode alike |
| Eip712Acyclic.RankIffNoCycle | packages/web3-eth-abi/src/eip_712.ts:33-60 | a type table has the rank that the recursion needs if and only if no struct contains itself |
| Eip712Hash.ParametersEqual | packages/web3-eth-abi/src/eip_712.ts:150-154 | two lists that encode do so alike exactly when they agree word by word |
| Eip712Hash.ValueInjective | packages/web3-eth-abi/src/eip_712.ts:128-171 | the word of a value fixes the value at every nesting level, and conversely |
| Eip712Hash.ArrayInjective | packages/web3-eth-abi/src/eip_712.ts:136-155 | the same for arrays, of structs and of arrays, length included |
| Eip712Hash.StructInjective | packages/web3-eth-abi/src/eip_712.ts:96-101 | two values of two struct types of one table have one hash if and only if the types are one and the values agree on every declared field at every level, strings taken as the bytes that are hashed; no condition on strings |
| Eip712Hash.FieldsInjective | packages/web3-eth-abi/src/eip_712.ts:182-197 | the same for a list of fields |
| Eip712Hash.OneTypeInjective | packages/web3-eth-abi/src/eip_712.ts:96-101 | the same for the values of one struct type |
| Eip712Hash.TypeHashFixesType | packages/web3-eth-abi/src/eip_712.ts:89-90 | equal type hashes are of one struct name, in one table or two |
| Eip712Hash.StructLayout | packages/web3-eth-abi/src/eip_712.ts:177-200 | what is hashed is the type hash and then one word per field in declared order |
| Eip712Hash.MessageInjective | packages/web3-eth-abi/src/eip_712.ts:107-122 | with or without the final hash the message fixes the primary type, the domain and the message: equal if and only if all three are |
| Eip712Hash.MessageLayout | packages/web3-eth-abi/src/eip_712.ts:107-122 | the message is 0x1901, the hash of the domain, then the hash of the message, or the hash of all that; it exists exactly if both hashes do |
| Eip712Fits.ValueFits | packages/web3-eth-abi/src/eip_712.ts:128-171 | a value has a word if and only if it fits its type at every level: lists of the right length, structs with every field, texts that are no broken hex, and what the ABI coder takes |
| Eip712Fits.StructFits | packages/web3-eth-abi/src/eip_712.ts:177-200 | a struct has a hash if and only if its type is known and every field has a fitting value |
| Eip712Fits.MessageFits | packages/web3-eth-abi/src/eip_712.ts:107-122 | typed data has a message if and only if domain and message fit their types |
| Eip712Layout.WordSpec | packages/web3-eth-abi/src/eip_712.ts:26-39 | the struct a type names is its longest beginning of letters, digits and underscores |
| Eip712Layout.ArrayOfSpec | packages/web3-eth-abi/src/eip_712.ts:133-138 | what the array pattern reads from an element type and its brackets; length 0 counts as none |
| Eip712Layout.ArrayEncoding | packages/web3-eth-abi/src/eip_712.ts:136-155 | an array is refused if it is no list or has the wrong length, else it is the hash of the words of its items in order |
| Eip712Layout.TextEncoding | packages/web3-eth-abi/src/eip_712.ts:161-168 | strings and bytes: the hash of the bytes that strict hex spells, of the UTF-8 bytes of any other text |
| Eip712Layout.StructEncoding | packages/web3-eth-abi/src/eip_712.ts:157-159 | a struct within a value is the word of its own hash |
| Eip712Layout.AtomEncoding | packages/web3-eth-abi/src/eip_712.ts:170 | any other type is left to the ABI coder as it is |
| Eip712Layout.MissingFieldIsRefused | packages/web3-eth-abi/src/eip_712.ts:184-186 | a declared field that is missing or nullish is refused |
| Eip712Tables.StructHashFixesAll | packages/web3-eth-abi/src/eip_712.ts:96-101 | two values of two struct types of two tables have one hash if and only if names, definitions and declared values are the same |
| Eip712Tables.MessageFixesAll | packages/web3-eth-abi/src/eip_712.ts:107-122 | the message to sign fixes the whole typed data, table included: primary type, every definition reached, and all declared values |
| Eip712Strings.PlainStructInjective | packages/web3-eth-abi/src/eip_712.ts:96-101 | if no string reads as strict hex, equal struct hashes if and only if equal struct types, strings and other values |
| Eip712Strings.TextsCollideExactly | packages/web3-eth-abi/src/eip_712.ts:162-164 | which two texts have one hash: hex texts up to case, equal plain texts, or a hex text of the bytes of a plain one |
| Eip712Strings.TextTwin | packages/web3-eth-abi/src/eip_712.ts:162-164 | every text that hashes has a different one with the same hash |
| Eip712Strings.StructTwin | packages/web3-eth-abi/src/eip_712.ts:96-101 | every struct value with a string field has one with another string and the same struct hash |
| AbiSignature.FlattenTypes | packages/web3-eth-abi/src/utils.ts:219-249 | the loop gives the texts of the parameters in order, or the first tuple error; `ParameterText` says what each text is |
| AbiSignature.TextsExactly | packages/web3-eth-abi/src/utils.ts:219-249 | one text for each parameter, in order, or the error of the first one that has none |
| AbiSignature.ParameterText | packages/web3-eth-abi/src/utils.ts:226-245 | a leaf prints as its type; a tuple with the array suffix x prints as the joined texts of its components in parentheses in front of x, behind `tuple` where that is wanted; it is an error exactly if its type does not start with `tuple` |
| AbiSignature.SuffixIsUnique | packages/web3-eth-abi/src/utils.ts:231-233 | the array suffix of a type is its part from the first bracket on |
| AbiSignature.SignatureText | packages/web3-eth-abi/src/utils.ts:255-266 | a method signature is the name and the joined texts in parentheses, or the name alone if it holds a parenthesis |
| AbiSignature.ArrayOfTuples | packages/web3-eth-abi/src/utils.ts:231-239 | a function f with one input `tuple[2]` of a uint256 is `f((uint256)[2])` |
| AbiSignature.ReadOne | packages/web3-eth-abi/src/utils.ts:225-246 | a printed parameter can be read from the front of a text in one way only |
| AbiSignature.ReadAll | packages/web3-eth-abi/src/utils.ts:219-249 | the same for parameter lists |
| AbiSignature.SignatureIsUnambiguous | packages/web3-eth-abi/src/utils.ts:219-249 | two parameter lists print alike if and only if they have the same type trees |
| AbiSignature.MethodSignatureIsUnambiguous | packages/web3-eth-abi/src/utils.ts:255-266 | two fragments whose names hold no `(` have one signature if and only if names and type trees agree |
| AbiSignature.NameShowsInputs | packages/web3-eth-abi/src/utils.ts:255-266 | the signature of a name determines the type trees of all inputs if and only if the name holds no `(` |
| Mod97.BlockStep | packages/web3-eth-iban/src/iban.ts:71-72 | replacing a leading block by its remainder keeps the number modulo 97 |
| Mod97.RemainderOfNumeral | packages/web3-eth-iban/src/iban.ts:66-76 | on digits, of any number, the loop ends and leaves the number modulo 97 |
| Mod97.LoopEndsExactly | packages/web3-eth-iban/src/iban.ts:66-76 | on every text, the loop ends if and only if the block-wise test `LoopEnds` holds, and then within as many rounds as the text is long |
| Mod97.FirstCharacterDecides | packages/web3-eth-iban/src/iban.ts:66-76 | without space or sign in front, the loop ends if and only if the text starts with a digit |
| Mod97.FigureDecides | packages/web3-eth-iban/src/iban.ts:66-76 | with space or a plus in front, the character behind decides; a symbol never ends |
| Mod97.MinusDecides | packages/web3-eth-iban/src/iban.ts:66-76 | digits behind a minus end the loop if their number is at most 9 modulo 97; for up to 8 digits, if and only if |
| Mod97.Mod9710 | packages/web3-eth-iban/src/iban.ts:66-76 | the loop, on all texts on which it ends: its remainder, NaN included, and for digits the whole number modulo 97 |
| Iban.CheckValid | packages/web3-eth-iban/src/iban.ts:164-169 | valid means the shape of the pattern and remainder 1 |
| Iban.ShapeSpelled | packages/web3-eth-iban/src/iban.ts:164-169 | the pattern, character by character |
| Iban.DocumentedIbans | packages/web3-eth-iban/src/iban.ts:157-161 | the documented IBAN with the check digits 81 is valid, and with no other of 80 to 89 |
| Iban.SubstitutionIsDetected | packages/web3-eth-iban/src/iban.ts:164-169 | one wrong digit or one wrong letter in a valid IBAN is rejected |
| Iban.TranspositionIsDetected | packages/web3-eth-iban/src/iban.ts:164-169 | swapping two different neighbours of one kind is rejected |
| Iban.FromBbanIsValid | packages/web3-eth-iban/src/iban.ts:226-233 | for every BBAN on which the loop ends: an IBAN if and only if there are 16, 30 or 31 characters, valid if and only if the BBAN has the right shape; letters and digits always end, with check digits 02 to 98 |
| Iban.BuildingEnds | packages/web3-eth-iban/src/iban.ts:226-233 | for BBANs without space or sign in front: building ends if and only if the first character is a letter or digit |
| Iban.SignedBuildingEnds | packages/web3-eth-iban/src/iban.ts:226-233 | the same with a sign in front: never before a symbol, always for a plus before a letter or digit, and by the number modulo 97 for a minus |
| Iban.MinusFiveNeverEnds | packages/web3-eth-iban/src/iban.ts:226-233 | the BBAN `-5` never gets check digits |
| Iban.ValidCheckDigits | packages/web3-eth-iban/src/iban.ts:164-169 | which two digits make a BBAN valid: those that agree with the built ones modulo 97 |
| Iban.AddressBound | packages/web3-eth-iban/src/iban.ts:271-273 | 40 hex digits are below 36^31 |
| Iban.AddressRoundTrip | packages/web3-eth-iban/src/iban.ts:266-321 | which addresses have a direct IBAN, that it is valid, and that toAddress gives back the 40 digits in checksum case if and only if the value is at least 36^29 |
| Iban.ToAddressExactly | packages/web3-eth-iban/src/iban.ts:204-321 | which texts lead to an address: 34 or 35 characters that are, from the fifth on, a number in base 36 below 16^40; the address is that number in 40 digits |
| Numerals.ValueOfText | packages/web3-eth-iban/src/iban.ts:57-61 | Horner's rule inverts printing in any base |
| Numerals.TextOfValue | packages/web3-validator/src/utils.ts:411-413 | printing inverts reading for numerals without leading zeros |
| Numerals.PaddedTextOfValue | packages/web3-eth-iban/src/iban.ts:316-317 | printing at the numeral's own width gives back the numeral |
| HexText.NumberRoundTrip | packages/web3-validator/src/utils.ts:384-413 | hexToNumber of numberToHex is the number, for every integer |
| HexText.NumberText | packages/web3-validator/src/utils.ts:406-413 | the hex text of a number: sign, `0x`, and lower-case digits of its amount without a leading zero |
| HexText.StrictExactly | packages/web3-validator/src/validation/string.ts:22-26 | strict hex is `0x` in either case and hex digits, with a minus in front only if there is a digit |
| HexText.HexNormalForm | packages/web3-validator/src/utils.ts:415-419 | numberToHex gives all hex texts of one number the form of that number, if and only if it is not zero |
| HexText.PaddingKeepsTheNumber | packages/web3-validator/src/utils.ts:431-441 | padLeft keeps the value at any width, if and only if there is a digit or nothing is padded |
| HexText.Uint8ArrayToHexString | packages/web3-validator/src/utils.ts:443-450 | the loop writes two digits per byte |
| HexText.HexToUint8Array | packages/web3-validator/src/utils.ts:452-468 | an error exactly for odd length, else one byte per pair of characters |
| HexText.BytesRoundTrip | packages/web3-validator/src/utils.ts:443-468 | bytes to hex and back are the same bytes |
| HexText.HexRoundTrip | packages/web3-validator/src/utils.ts:443-468 | an even text to bytes and back is the text in lower case if and only if it is all hex digits |
| Units.FromWeiIsExact | packages/web3-utils/src/converters.ts:471-513 | an error exactly for a unit that is none or `noether`, else the text stands for n / 10^k exactly, without trailing zeros |
| Units.Denominations | packages/web3-utils/src/converters.ts:44-72 | every unit with its denomination in figures, and that there is no other |
| Units.FromWeiText | packages/web3-utils/src/converters.ts:471-513 | the text itself: `0.` and the fraction below one unit, the whole units without a point if nothing is left, else both parts |
| Units.WeiRoundTrip | packages/web3-utils/src/converters.ts:471-567 | fromWei then toWei is the text of n for every n and unit, zero included |
| Units.ToWeiIsProduct | packages/web3-utils/src/converters.ts:529-567 | the same errors; for which decimal texts toWei is the exact product, as an if and only if |
| Units.EmptyWei | packages/web3-utils/src/converters.ts:557-566 | the empty text comes out exactly for the zeros with a fraction, in any unit but wei |
| Units.LongFraction | packages/web3-utils/src/converters.ts:557-566 | with a fraction longer than the unit the point is dropped and the result too large |
| TwosComplement.BigintPower | packages/web3-validator/src/validation/numbers.ts:30-36 | the loop computes the power, except that exponent 0 gives the base |
| TwosComplement.LogSpec | packages/web3-utils/src/string_manipulation.ts:151 | the ceiling of the logarithm is the least exponent whose power reaches the number |
| TwosComplement.TextSpec | packages/web3-utils/src/string_manipulation.ts:111-127 | which numbers are refused; the text stands for v modulo 2^(4w), with exactly nibbleWidth digits unless v is 2^(4w) or more, which is printed too wide without an error |
| TwosComplement.ReadBack | packages/web3-utils/src/string_manipulation.ts:144-162 | the way back of a non-negative number, with both errors |
| TwosComplement.SignedTextBack | packages/web3-utils/src/string_manipulation.ts:144-150 | a hex text with a minus is read as the number it spells, at any width |
| TwosComplement.RoundTrip | packages/web3-utils/src/string_manipulation.ts:111-162 | for every number: it comes back if and only if it is an int of at most half the range and, if negative, above minus half the range at 63 nibbles or less |
| TwosComplement.WideNegative | packages/web3-utils/src/string_manipulation.ts:111-162 | from 64 nibbles on every negative number is refused on the way back, but -2^255 at 64 nibbles, which comes back as 2^255 |
| TypeNames.TypeNameRoundTrip | packages/web3-validator/src/utils.ts:33-76 | a printed base type with size and dimensions parses back to all three, -1 for open dimensions |
| TypeNames.KnownNames | packages/web3-validator/src/utils.ts:58-76 | which names are known: the seven base types and what starts with int, uint or bytes; an unknown one is no array, but its dimensions are read |
| TypeNameSpaces.SpacedDimensions | packages/web3-validator/src/utils.ts:46-56 | with any spaces, the dimensions come out right if and only if none is inside brackets |
| TypeNameSpaces.SpacedNameReadsRight | packages/web3-validator/src/utils.ts:33-76 | for a type name with any number of spaces anywhere, all three parts come back if and only if the front reads right and no space is inside brackets |
| TypeNameSpaces.OneSpace | packages/web3-validator/src/utils.ts:42-68 | for one space at any position of any type name, exactly which size comes out, and when the dimensions are right |
| Batch.Deferred.Resolve | packages/web3-utils/src/web3_deferred_promise.ts:113-117 | the first settlement stays, the state field follows the last |
| Batch.Deferred.Reject | packages/web3-utils/src/web3_deferred_promise.ts:123-127 | the same for rejection |
| Batch.Deferred.CheckTimeout | packages/web3-utils/src/web3_deferred_promise.ts:138-142 | the timer rejects a pending promise whose timer was started, and no other |
| Batch.BatchRequest.Add | packages/web3-core/src/web3_batch_request.ts:41-48 | a fresh pending promise under the id; a used id keeps its place and loses its old promise |
| Batch.BatchRequest.AbortAllRequests | packages/web3-core/src/web3_batch_request.ts:123-127 | every promise of the batch is rejected unless it is settled |
| Batch.BatchRequest.ProcessBatchRequest | packages/web3-core/src/web3_batch_request.ts:77-121 | on a size or id mismatch all are aborted and it throws, else each reply settles its promise |
| BatchTheorems.MatchesIsSameBag | packages/web3-core/src/web3_batch_request.ts:93-103 | equal sorted id lists mean the same ids with the same multiplicities |
| BatchTheorems.MatchesIffAllAnswered | packages/web3-core/src/web3_batch_request.ts:84-103 | with distinct numeric request ids and any reply ids, a response passes with numbers only if and only if it has the right size and answers every request |
| BatchTheorems.PassingAnswersIffNumbers | packages/web3-core/src/web3_batch_request.ts:93-118 | a response that passes answers every request if and only if all its ids are numbers |
| BatchTheorems.SettledIffAnswered | packages/web3-core/src/web3_batch_request.ts:112-118 | for any ids, a pending promise is settled if and only if a valid reply carries its very id |
| BatchTheorems.TextIdIsLost | packages/web3-core/src/web3_batch_request.ts:93-118 | a reply with id "1" to request 1 passes and leaves the promise pending |
| BatchTheorems.OneReplyEach | packages/web3-core/src/web3_batch_request.ts:93-103 | a matching response has exactly one reply for each request |
| BatchTheorems.EachPromiseByItsOwnReply | packages/web3-core/src/web3_batch_request.ts:112-118 | in any order of replies, each promise is settled by the one reply with its id, and stays pending exactly if that reply is neither result nor error |
| BatchTheorems.UuidIdsAreNotCompared | packages/web3-core/src/web3_batch_request.ts:93-103 | request ids that are no numbers pass if and only if there are as many replies and none has a numeric id |
| BatchMixedIds.MixedIdsMayFail | packages/web3-core/src/web3_batch_request.ts:93-103 | correct responses are sure to pass if and only if the request ids are all numbers or all none; for mixed ids a sort that is correct on numbers turns one down |
| BatchTheorems.LateAnswer | packages/web3-core/src/web3_batch_request.ts:64-118 | a batch that timed out and is answered after all: promises stay rejected, state fields follow the replies |
| BatchTheorems.ReplySettles | packages/web3-core/src/web3_batch_request.ts:112-118 | by the members of a reply: a result resolves the promise under its id with that result, an error rejects it with that error, any other reply leaves it, and no other promise changes |
| BatchTheorems.NullResultsFulfill | packages/web3-core/src/web3_batch_request.ts:112-118 | null results fulfill the promises of a matching response |
| BatchTheorems.NullIdIsLost | packages/web3-core/src/web3_batch_request.ts:93-118 | a reply with the id null to request 0 passes and leaves the promise pending |
| BatchTheorems.MismatchRejects | packages/web3-core/src/web3_batch_request.ts:84-103 | after a mismatch every promise that was pending is rejected as an invalid batch response |
| Wallet.Wallet.Add | packages/web3-eth-accounts/src/wallet.ts:156-170 | new array and map: replaced in place or appended |
| Wallet.Wallet.Get | packages/web3-eth-accounts/src/wallet.ts:178-190 | lookup through the map |
| Wallet.Wallet.AddProvided | packages/web3-eth-accounts/src/wallet.ts:122-128 | adding the accounts of the provider one by one |
| Wallet.Wallet.Remove | packages/web3-eth-accounts/src/wallet.ts:214-224 | removal by address |
| Wallet.Wallet.RemoveAt | packages/web3-eth-accounts/src/wallet.ts:226-232 | removal by position leaves the map alone |
| Wallet.Wallet.Clear | packages/web3-eth-accounts/src/wallet.ts:253-260 | both empty |
| Wallet.AddRefines | packages/web3-eth-accounts/src/wallet.ts:156-170 | adding keeps map and array in agreement and is the insertion-ordered dictionary's put |
| Wallet.GetRefines | packages/web3-eth-accounts/src/wallet.ts:178-190 | get is the dictionary's lookup |
| Wallet.RemoveAddressExactly | packages/web3-eth-accounts/src/wallet.ts:214-224 | removal takes out the right account, and keeps the agreement if and only if it is the last one or not there |
| Wallet.RemoveIndexBreaks | packages/web3-eth-accounts/src/wallet.ts:226-232 | removal by position always breaks the agreement |
| Wallet.RunRefines | packages/web3-eth-accounts/src/wallet.ts:122-260 | over every run whose removals are of the last account the wallet is the dictionary and the map is a bijection onto the positions |
| Wallet.KeyIsCaseless | packages/web3-eth-accounts/src/wallet.ts:156-190 | two addresses have one key if and only if they differ in the case of letters only |

## Left out

- JSON parsing itself: `Reads` states what is used of it. That no message has `}`, a line break and `{` in a row
  follows from the JSON grammar and is part of `Framed`.
- The heap identity of socket promises: they are tickets into a table, and the queues are sequences of entries in
  insertion order; batch promises are heap objects.
- Event emission and listeners, which listeners are attached at a time, `disconnect` codes and reasons, and re-entrant calls from listeners.
- Durations: the 15 seconds of the chunk timer, the reconnect delay and the batch timeout; timers may fire at any
  time.
- `execute` of a batch: only the processing of the response and the abort are modelled.
- Keccak, secp256k1, key stores and the encryption of wallets.
- Cyclic EIP-712 type tables, and EIP-712 data that are no records where a struct is declared.
- Eip712Hash.StructInjective: `string` and `bytes` values are texts, so byte arrays are not captured; the
  ABI coding of atomic values is taken as given, equal words counting as equal values.
- Iban.FromBbanIsValid: upper-casing is that of ASCII; characters outside it that change are not captured.
- Iban.AddressRoundTrip: the checksum of mixed-case addresses is a parameter, and byte arrays are not captured.
- Wallet.KeyIsCaseless: lower-casing is that of ASCII.
- Units.WeiRoundTrip: the number is an integer; negative numbers and the check of the argument are not captured.
- Units.ToWeiIsProduct: only for texts of decimal digits with at most one point; what the number validator refuses
  beyond that is not captured.
- TwosComplement.LogSpec: the quotient of floating-point logarithms is read as the exact logarithm.
- Batch.NumberOf: how a text is read as a number is a parameter; infinities are left out.
- TwosComplement.RoundTrip: a width of 0 nibbles is left out.
- The difference between `number` and `bigint` results.
- Subscription management, RPC wrappers, ENS, formatters, schema conversion and HTTP: single calls or
  field-by-field mappings.
