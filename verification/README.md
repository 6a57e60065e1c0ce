# chan_capi: a verified model of its stateful core

chan_capi is an Asterisk channel driver for CAPI 2.0. This project models the parts of it that
carry invariants, arithmetic or wire formats, in Dafny 4.11, and proves what they promise. Loops
over lists and buffers are methods over arrays, fields and linked objects, each proved against a
function or a relation; the properties are lemmas about those functions, and, where callers or
messages interleave, invariants of state machines over every run.
`dafny verify dfyconfig.toml` checks everything.

| file | what it covers |
|---|---|
| Common.dfy | options, kinds of interfaces, small things on sequences |
| Bytes.dfy | octets and the little-endian words of CAPI messages |
| CapiMessage.dfy | `capi_sendf`: the format interpreter that keeps its stack in the length bytes |
| DList.dfy | the intrusive doubly linked queue of `dlist.c` |
| VoiceCommand.dfy, DigitMachine.dfy, VoiceMenu.dfy | the voice-command menu: its history, its digit machine, its object |
| QsigCore.dfy, QsigEcma.dfy, QsigMessage.dfy | QSIG facilities, BER integers and OIDs, names and path-replacement proposals; messages of several facilities |
| ChatRows.dfy, Mixer.dfy, MixerMeaning.dfy | one member's line-interconnect requests, and what their bytes say |
| RoomRegistry.dfy, ChatList.dfy | rooms under joins, leaves and mutes; the list operations in place |
| GroupNames.dfy, BridgeRows.dfy, BridgeProtocol.dfy | groups of large conferences: names, list loops, the protocol of all callers |
| BChannels.dfy, CallRuns.dfy | call handlers against a CAPI automaton; the counters of free B channels; single calls over whole runs |
| ChannelChoice.dfy | the interface an outgoing call gets |
| SendCredit.dfy | the byte credit of the voice path |

## Premises

- One configuration: no Diva streaming, memory allocation succeeds, `char` is signed, pointers
  play no role in message bytes.
- I/O, clocks, CAPI and Asterisk are parameters, nondeterministic steps or recorded outputs: the
  requests a mixer update sends are its result, "more than two seconds later" is a flag, the result
  of handing a block to CAPI is an input.
- What is done under one lock is one step. The room registry recomputes a room's counters in a
  step of its own after a join or leave, as the code takes the list lock twice.
- Large conferences: room names of at most 8 characters without ".G" and group numbers up to 9999
  for the loops that compare names; the protocol itself takes any names and numbers.
- Received blocks have at most the 160 bytes agreed with CAPI, for the limits of the send credit; its
  balance is proved for any length.
- PLCIs are double words, where the records of a request are read back.
- CAPI opens at most one NCCI per PLCI, closes it before the PLCI, answers only requests it was
  sent, and does not reuse a PLCI that an interface still stores; message numbers in use differ.

## Where the code is not what a reader expects

- The lookup for a command to replace is made with the new command's name, so a binding is never
  replaced by one of the same key; the newest wins only because it is inserted in front, and an
  add named like the key of a surviving binding evicts that binding. `VoiceCommand.NewestWinsExactly`
  gives the exact condition; after the requests "ab|12" and "12|5" the digits "12" select nothing
  (`VoiceMenu.RequestsThatEvict`).
- "name|" binds the empty key, which no digits can spell.
- `capi_sendf` writes parenthesised structures with a one-byte length whatever their size;
  `CapiMessage.EncodesIffShortGroups` says exactly when that is right, and
  `CapiMessage.LongGroupIsSent` gives structures that pass the size check and are sent with a wrong
  length. With over-long structures the code may go back from a wrong length byte by more than its
  position (`chan_capi_utils.c:741`), to a place in front of the message; the model takes none there.
  The same can put a length over a byte of the message header (`CapiMessage.HeaderMayBeLost`);
  `CapiMessage.FrontIsKeptExactly` says when it does not.
- The facility header alone carries lengths one too large; the first invoke corrects them.
- `cc_qsig_check_invoke` returns the byte behind the length byte as the length of an invoke, which
  is harmless for what the printer prints.
- The parse loop of a facility may go on for ever. An empty component that is no invoke holds it
  where it is, and an empty invoke throws it back to the end of the component last read
  (`QsigCore.GoesBackExactly`). It ends exactly if all its rounds are defined and none of them leads
  back, except once to the end of each component whose id is no integer
  (`QsigCore.LoopEndsExactly`). There is a message it never leaves (`QsigCore.MessageNeverLeft`) and
  one it leaves although it goes back (`QsigCore.MessageLeftGoingBack`).
- A facility of the other dialect is skipped together with as many bytes behind it as stand in front
  of its protocol byte (`QsigMessage.ForeignFacility`), because its end is added to the index. In
  front of facilities that are not much longer it loses only itself if and only if they hold nothing
  for the receiver (`QsigMessage.ForeignLosesOnlyItselfExactly`,
  `QsigMessage.NameBehindForeignNameIsLost`).
- An invoke whose operation has an unknown type is handed over with the operation and data of the one
  before (`QsigCore.HandedIsOwnExactly`).
- Integers come back sign-extended: 128..255 and 32768..65535 arrive negative
  (`QsigCore.IntegerRoundTrip`).
- A segment that starts behind its member's own row is built without that member's role and room
  mode (`MixerMeaning.BitsRightExactlyWhen`). A join puts its row in front, so all but the first
  request of a joining member are built that way, and a listener who is the tenth to join is heard
  (`MixerMeaning.JoinedMemberIsHeard`, `MixerMeaning.TenthListenerIsHeard`).
- An incoming call that ends before its dialplan has started leaves a PLCI stored that CAPI no longer
  has, and nothing else does (`CallRuns.PlciIsForgottenExactly`).
- The stored names of a room's groups differ exactly for room names of at most eight characters
  (`GroupNames.StoredNamesDifferExactly`); from nine on groups 2 and 3 share one, from twelve on all
  groups do (`GroupNames.LongNamesCollide`).
- The repository's README promises round-robin distribution below the soft limits; the code takes
  the controller with the largest margin (`ChannelChoice.SoftLimitsDecide`). `ChannelChoice.NextCallStays`
  says exactly when the next call goes to the same controller, and in
  `ChannelChoice.TwoCallsOnOneController` two calls do.
- The limit of seven unconfirmed blocks is tested once per frame. `SendCredit.FrameKeepsLimitExactly`
  says when a frame keeps it, and a run reaches thirteen (`SendCredit.LimitIsPassed`); a short
  received block buys a full sent one (`SendCredit.ShortBlockBuysFullOne`).

## Model

| member | source | states |
|---|---|---|
| CapiMessage.BalancedIffTree | chan_capi_utils.c:735-758 | a format has matching parentheses exactly if it is the flattening of a tree, and then of the one read from it |
| CapiMessage.CloseRestores | chan_capi_utils.c:735-748 | closing a structure of at most 254 bytes leaves its real length in its length byte and makes the enclosing structure innermost again |
| CapiMessage.RunForest | chan_capi_utils.c:685-753 | inside any short enclosing structure, a balanced stretch of format appends exactly its recursive encoding and leaves the enclosing structure open as it was |
| CapiMessage.RunLength | chan_capi_utils.c:691-753 | the loop emits the fields' bytes and one length byte for every structure, however long it is |
| CapiMessage.EncodeLength | chan_capi_utils.c:735-748 | the standard's encoding is as long as what the loop emits exactly when no structure needs the escape |
| CapiMessage.EncodesIffShortGroups | chan_capi_utils.c:685-758 | for every balanced format the loop yields the standard encoding if and only if every structure body has at most 254 bytes; it then ends with no open structure and complains only of unknown characters |
| CapiMessage.LongGroupIsSent | chan_capi_utils.c:685-748 | a prepared structure of 254 to 2000 bytes between parentheses passes the size check, and no receiver reads it back from what is sent |
| CapiMessage.DecodeEncode | chan_capi_utils.c:691-743 | a receiver that knows the fields' kinds decodes the encoding of any tree to the arguments, truncated to their widths, and finds what follows untouched |
| CapiMessage.SentFieldsAreReadBack | chan_capi_utils.c:685-758 | behind any header, what the loop writes for a balanced short format is decoded to the arguments |
| CapiMessage.PutLittleEndian | chan_capi_utils.c:696-707 | a word or double word is written low byte first, nothing in front of it changes |
| CapiMessage.PutText | chan_capi_utils.c:717-722 | an ASCII string becomes its length byte and its characters |
| CapiMessage.PutPrefixed | chan_capi_utils.c:723-734 | a prepared structure gets a one-byte length below 255 and the escape with a word length from there |
| CapiMessage.PutLeaf | chan_capi_utils.c:692-734 | every field character appends exactly the bytes of its argument |
| CapiMessage.PutParenthesis | chan_capi_utils.c:735-748 | the two parentheses, in the buffer itself, act as a step of the abstract machine |
| CapiMessage.PutField | chan_capi_utils.c:691-753 | one format character, in the buffer itself, acts as a step of the abstract machine and stays within its width |
| CapiMessage.WriteFields | chan_capi_utils.c:685-753 | the loop over the buffer is a run of the machine, and gives up exactly where the size check fires |
| CapiMessage.OverflowsExactly | chan_capi_utils.c:687-690 | the size check fires exactly if in front of some format character the position has come within twelve bytes of 2048 |
| CapiMessage.FrontIsKeptExactly | chan_capi_utils.c:735-748 | the bytes in front of any position stay as they are throughout the loop if and only if no closing parenthesis writes another length byte there than the one it finds |
| CapiMessage.HeaderMayBeLost | chan_capi_utils.c:735-748 | four nested structures around a prepared one of 300 bytes, with 255 at the right place of it, pass the size check, and byte 2 of the header, of the application id, is overwritten by 61 |
| CapiMessage.Sendf | chan_capi_utils.c:661-775 | the message handed over is header, fields and total length, or error 0x1004 exactly if the size check fires; the header holds length, application id, command, message number and controller id, low byte first but for the command, whenever no closing parenthesis reaches into it, and for every balanced format with short structures |
| DList.Queue.Remove | dlist.c:38-55 | exactly the given element leaves the sequence, its own pointers are cleared, and head, tail, prev and next stay consistent |
| DList.Queue.AddTail | dlist.c:60-72 | the element becomes the last of the sequence |
| DList.Queue.InsertAfter | dlist.c:77-89 | the element is spliced in behind the given one, or at the end without one |
| DList.Queue.InsertBefore | dlist.c:94-113 | the element is spliced in in front of the given one, or at the end without one |
| DList.Queue.Find | dlist.c:115-128 | the first element that matches, or null exactly if none does |
| DList.Queue.Count | dlist.c:154-166 | the length of the sequence |
| VoiceCommand.InsertSorted | chan_capi_command.c:376-388 | insertion keeps the menu in descending key length and adds exactly the new command |
| VoiceCommand.InsertWithKey | chan_capi_command.c:376-388 | among the commands of one key the new one comes first |
| VoiceCommand.DropNameWithKey | chan_capi_command.c:112-123 | removing by name keeps the order of what is left of each key |
| VoiceCommand.MenuAgreesWithLog | chan_capi_command.c:102-203 | over any history, the commands of one key stand in the sorted menu in the order of an unsorted newest-first log |
| VoiceCommand.LogIsSurvivors | chan_capi_command.c:102-203 | if since the last clearing no add met a surviving binding under its own name, the log is the surviving additions, newest first |
| VoiceCommand.LookupFindsNewestSurvivor | chan_capi_command.c:102-203 | if since the last clearing no add met a surviving binding under its own name, the digits select the most recently added binding that was neither removed nor cleared, and nothing exactly if there is none |
| VoiceCommand.PrefixOfSomeSurvivor | chan_capi_command.c:347-369 | under the same premise more digits are awaited exactly if some surviving key has the digits as a prefix |
| VoiceCommand.MenuHoldsSurvivors | chan_capi_command.c:102-203 | under the same premise the menu holds exactly the surviving bindings |
| VoiceCommand.StepKeepsSurvivors | chan_capi_command.c:102-203 | from a menu that holds the surviving bindings newest first, one more action keeps it so if and only if it is no add whose name is the key of a surviving binding |
| VoiceCommand.NewestWinsExactly | chan_capi_command.c:102-203 | throughout a history the menu holds for every key exactly the surviving bindings, newest first, if and only if no add of it meets a surviving binding whose key is its name |
| VoiceCommand.AddWithKey | chan_capi_command.c:186-199 | adding a command puts it in front of its own key and takes the newest command of the key spelled like its name |
| VoiceCommand.NamedLikeKeyEvicts | chan_capi_command.c:186-195 | after binding "ab" to "12" and then "12" to "5", the digits "12" select nothing, though their binding was neither removed nor cleared |
| DigitMachine.MenuStaysValid | chan_capi_command.c:146-199 | whatever is done with admitted keys, the menu's keys stay admitted and sorted |
| DigitMachine.PendingStep | chan_capi_command.c:317-342 | from a pending buffer a digit either completes a token or leaves a pending buffer |
| DigitMachine.MachineIsTokenizer | chan_capi_command.c:293-345 | digit by digit from any pending buffer, the same commands fire and the same digits are dropped as by a tokenizer that sees the whole stream |
| DigitMachine.BufferIsProperPrefix | chan_capi_command.c:293-345 | after any timely digits the buffer is empty or a proper prefix of some key |
| DigitMachine.EveryTypedKeyFires | chan_capi_command.c:293-345 | with a prefix-free menu any sequence of keys typed from empty fires each once, in order, and leaves nothing |
| DigitMachine.TokenOfKeyFires | chan_capi_command.c:347-369 | what a typed key fires is the newest command bound to it |
| DigitMachine.OutcomeMeans | chan_capi_command.c:293-345 | a digit is used exactly if it calls a command or waits for more, and the command returned is the one that fires |
| DigitMachine.ReturnedAreFired | chan_capi_command.c:293-345 | over any stream of digits, late ones among them, the commands returned are those of the firing tokens, in order |
| DigitMachine.LateStartsOver | chan_capi_command.c:309-313 | a late digit drops what was collected and acts as from an empty buffer |
| DigitMachine.BurstsAreTokenized | chan_capi_command.c:293-345 | of digits typed in several goes with pauses in between, each go is tokenized by itself and what is left of it is dropped when the next begins |
| VoiceMenu.Parse | chan_capi_command.c:102-173 | an accepted binding has an admitted key, a name of 2 to 63 and parameters of up to 127 characters; only the empty argument clears; any other without a bar removes |
| VoiceMenu.WrittenIsParsed | chan_capi_command.c:109-173 | every usable binding, written as name, key and parameters, is parsed back |
| VoiceMenu.DropNameExactly | chan_capi_command.c:112-123 | removing by name leaves exactly the commands of other names, each as often as before |
| VoiceMenu.RequestsThatEvict | chan_capi_command.c:102-199 | two well-formed requests, binding "ab" to "12" and "12" to "5", lead to the history in which the digits "12" select nothing |
| VoiceMenu.VoiceMenu.InsertCommand | chan_capi_command.c:376-388 | the linked queue is changed as the sorted sequence is |
| VoiceMenu.VoiceMenu.FindByKey | chan_capi_command.c:274-285 | the first command of that key, or none exactly if there is none |
| VoiceMenu.VoiceMenu.FindByName | chan_capi_command.c:261-272 | the first command of that name, or none exactly if there is none |
| VoiceMenu.VoiceMenu.AddCommand | chan_capi_command.c:158-199 | the queue after adding is the menu after that action |
| VoiceMenu.VoiceMenu.RemoveCommands | chan_capi_command.c:112-123 | no command of that name is left and all others keep their order |
| VoiceMenu.VoiceMenu.Cleanup | chan_capi_command.c:245-259 | queue, digits and pass-through flag are reset |
| VoiceMenu.VoiceMenu.Request | chan_capi_command.c:102-203 | a request does to the menu what its argument says; one without a bar succeeds and leaves exactly the commands of other names; a malformed one fails and changes nothing; digits, their count and the pass-through flag are reset by clearing and kept by everything else |
| VoiceMenu.VoiceMenu.FindDigitCommand | chan_capi_command.c:347-369 | the search that stops at the first shorter key finds the first command of exactly these digits, and reports whether any key of the whole menu has them as a prefix |
| VoiceMenu.VoiceMenu.Collect | chan_capi_command.c:309-318 | a stale or full buffer starts over; the digit is appended within the 81 bytes |
| VoiceMenu.VoiceMenu.OnDigit | chan_capi_command.c:293-345 | the handler is a step of the digit machine, and its result says whether Asterisk sees the digit |
| QsigCore.UpdateFacilityLength | chan_capi_qsig_core.c:245-249 | the two length bytes and no others are set |
| QsigCore.BuildFacility | chan_capi_qsig_core.c:254-279 | the fifteen header bytes of the dialect, with lengths that count the header itself one too long |
| QsigCore.AddInteger | chan_capi_qsig_core.c:137-159 | 0..65535 is written in one or two bytes behind tag and length; anything else fails and changes nothing |
| QsigCore.AddOperation | chan_capi_qsig_core.c:302-344 | an operation is written as integer or object identifier exactly if the format has room for it |
| QsigCore.AddInvoke | chan_capi_qsig_core.c:285-355 | an invoke that fits is appended with its own length and both facility lengths become what is really there; one that does not fit leaves everything in front of it |
| QsigCore.PrintedGrows | chan_capi_qsig_core.c:285-355 | every further invoke turns a correct facility into a correct facility |
| QsigCore.PrintFacility | chan_capi_qsig_core.c:254-355 | in any buffer with room, header and any number of invokes give the facility of these invokes, or fail exactly if one does not fit; without an invoke the bare header stands there |
| QsigCore.IntegerRoundTrip | chan_capi_qsig_core.c:137-184 | where an encoded integer is read back and the index ends; the value is the same exactly for 0..127 and 256..32767 |
| QsigCore.HeaderIsAccepted | chan_capi_qsig_core.c:363-392 | the printed header passes the check of its own dialect and yields the APDU interpretation |
| QsigCore.LoopStallsExactlyOnEmptyForeignComponent | chan_capi_qsig_core.c:402-413 | a component that is no invoke leaves the index where it is exactly if its second byte is zero, and then the loop never ends |
| QsigCore.EmptyInvokeRepeats | chan_capi_qsig_core.c:429-451 | an empty invoke has the invoke last read handed over again and the loop go on at the end of the component last read; if from there the loop comes to the same empty invoke again, with nothing else read, it never ends |
| QsigCore.GoesBackExactly | chan_capi_qsig_core.c:402-534 | a round does not move the index forward if and only if it meets an empty component that is no invoke, or an empty invoke, followed by another byte than zero, at or behind the end of the component last read |
| QsigCore.StuckForEver | chan_capi_qsig_core.c:784-799 | once the loop has been at the end of the component last read, a round that does not move the index forward is met for ever |
| QsigCore.LoopEndsExactly | chan_capi_qsig_core.c:784-799 | the loop ends if and only if all its rounds are defined and each moves forward, or goes back to the announced end of a component whose id is no integer and at which the loop has not been yet |
| QsigCore.FacilityEndsExactly | chan_capi_qsig_core.c:774-805 | the same for a whole facility, before which nothing has been read |
| QsigCore.MessageNeverLeft | chan_capi_qsig_core.c:784-799 | a message of 20 bytes with an accepted facility whose loop never ends, its second byte not being zero in the foreign component and its empty invoke standing apart from the invoke before |
| QsigCore.MessageLeftGoingBack | chan_capi_qsig_core.c:810-854 | a message whose loop goes back once, hands its only invoke over twice and ends |
| QsigCore.HandedIsOwnExactly | chan_capi_qsig_core.c:421-534 | a handed invoke is independent of what was read before if and only if its operation is an integer or an object identifier; otherwise all but the id is what was handed over before |
| QsigCore.ComponentOfInvoke | chan_capi_qsig_core.c:402-534 | one round of the parser on a printed invoke yields its id, operation and data and ends at its end, whatever the round before left in the invoke structure |
| QsigCore.ComponentsOfInvokes | chan_capi_qsig_core.c:784-799 | the loop over printed invokes makes progress in every round, yields the same sequence and ends exactly at their end |
| QsigCore.HandleComponents | chan_capi_qsig_core.c:784-799 | the loop, wherever it is defined and ends, hands over the components found from the index on, with the invoke structure that its rounds share |
| QsigCore.HandleFacility | chan_capi_qsig_core.c:774-805 | a facility of the other dialect is skipped, one of this dialect is handed over component by component |
| QsigCore.HandleIndication | chan_capi_qsig_core.c:810-854 | the loop over an indication hands over the invokes of all its facilities in order |
| QsigCore.IndicationOfFacility | chan_capi_qsig_core.c:810-854 | whatever invokes were printed into up to 256 bytes are handed over again in order, and the parse ends at the end of the message |
| QsigMessage.OwnFacility | chan_capi_qsig_core.c:774-805 | wherever it stands in a message, a printed facility of the receiver's dialect is handed over and left at its end |
| QsigMessage.MessageArrives | chan_capi_qsig_core.c:810-854 | of a message of any number of printed facilities of the receiver's dialect, up to 255 bytes in all, every invoke is handed over, facility by facility in order |
| QsigMessage.ForeignFacility | chan_capi_qsig_core.c:800-804 | wherever it stands, a facility of the other dialect hands over nothing and leaves the index behind its end by as many bytes as stand in front of its protocol byte |
| QsigMessage.ForeignGoesOn | chan_capi_qsig_core.c:824-848 | whatever stands behind it, the loop over the message goes on from there |
| QsigMessage.ForeignInFront | chan_capi_qsig_core.c:810-854 | behind a foreign facility in front of any others, what is handed over is what the loop finds from twice its length and six bytes on |
| QsigMessage.ForeignLosesTheRest | chan_capi_qsig_core.c:810-854 | behind own facilities, a foreign one costs everything behind it, up to four bytes more than those facilities have; what stands in front arrives |
| QsigMessage.ForeignLosesOnlyItselfExactly | chan_capi_qsig_core.c:810-854 | a foreign facility in front of facilities at most six bytes longer has nothing handed over, so that it loses only itself if and only if they hold no invoke in the receiver's dialect |
| QsigMessage.NameBehindForeignNameIsLost | chan_capi_qsig_core.c:810-854 | a message of two names, one in either dialect, from which the receiver of the second gets nothing |
| QsigCore.ReceivedUnchanged | chan_capi_qsig_core.c:451-534 | data and object identifiers always survive, id and integer operation exactly when they avoid the sign bit |
| QsigEcma.EncodeName | chan_capi_qsig_ecma.c:134-180 | the invoke carries the first 50 bytes of the name, without one the interface's, without that the mark for no name |
| QsigEcma.GetNameOfSimpleName | chan_capi_qsig_asn197no.c:38-99 | a simple name of up to 50 bytes is decoded to itself |
| QsigEcma.GetNameOfEveryForm | chan_capi_qsig_asn197no.c:38-99 | simple names, tagged ones, sets of name and character set, and sequences are all decoded to the name; any other tag to an empty one |
| QsigEcma.StringIsRead | chan_capi_qsig_core.c:119-132 | a string behind its length byte is read whole, or cut to one byte less than its buffer if it is longer than that |
| QsigEcma.ProposalRoundTrip | chan_capi_qsig_ecma.c:718-833 | a proposal is recovered exactly if its call id has at most 4 bytes and its number 1 to 20 |
| QsigEcma.IdentifyReceived | chan_capi_qsig_core.c:536-639 | in either dialect a received invoke is identified as the operation it was sent as |
| QsigEcma.SingleInvokeArrives | chan_capi_qsig_core.c:285-355 | an invoke whose operation form the dialect chooses arrives alone, with its data and operation |
| QsigEcma.NameOnTheWire | chan_capi_qsig_core.c:254-355 | the facility for the name "A", byte by byte, in both dialects |
| QsigEcma.TwoByteNumber | chan_capi_qsig_core.c:137-159 | a number above 255 goes out high byte first |
| QsigEcma.Channel.OnNamePresentation | chan_capi_qsig_ecma.c:40-117 | a received name goes to the caller's or the destination's field by its operation; an empty one changes nothing |
| QsigEcma.Channel.OnProposal | chan_capi_qsig_ecma.c:701-758 | call id and number are stored together, or neither |
| QsigEcma.Channel.OnIndication | chan_capi_qsig_core.c:742-805 | every invoke of an indication takes effect, in order |
| QsigEcma.NameArrives | chan_capi_qsig_ecma.c:40-180 | end to end in both dialects the receiver stores the first 50 bytes of any name given, else the interface's name, else keeps what it has |
| QsigEcma.ProposalArrives | chan_capi_qsig_ecma.c:701-849 | end to end in both dialects a proposal within the limits reaches the receiving interface unchanged |
| QsigEcma.PrintName | chan_capi_qsig_core.c:1005-1007 | what is printed for a name into the 300-byte array of every caller has the receiver store the name |
| QsigEcma.PrintProposal | chan_capi_qsig_core.c:1129-1133 | what is printed for a proposal into that array has the receiver store call id and number, if they are within the limits |
| Mixer.ComputeDestination | chan_capi_chat.c:159-177 | clearing bits one by one gives a listed member's data path |
| Mixer.CompleteSegment | chan_capi_chat.c:189-224 | the data path of the request, and the patch of the record of a last remaining partner |
| Mixer.FindMainRole | chan_capi_chat.c:128-136 | the role of the first row of the interface from the start on |
| Mixer.ListOthers | chan_capi_chat.c:142-187 | the records of the first eight others from the start on, and the row of the ninth |
| Mixer.UpdateMixerPart | chan_capi_chat.c:108-227 | one segment and its resume pointer; a segment without others is left as it was |
| Mixer.ListedThenResumed | chan_capi_chat.c:142-187 | what is listed and what remains from the resume pointer on make up all others; the pointer is null exactly if nothing remains |
| Mixer.ChunksCover | chan_capi_chat.c:272-282 | ceil(n/8) pieces, all of eight but the last, that together are the list again |
| Mixer.SegmentsListChunks | chan_capi_chat.c:272-282 | the loop makes ceil(n/8) requests and the k-th lists the k-th piece of the others in list order |
| ChatRows.OthersExactly | chan_capi_chat.c:142-151 | the others of a member are the rows of its room that belong to another interface, all of them and in list order |
| Mixer.FillSegments | chan_capi_chat.c:272-290 | all segments of a member are written to its own slots and nowhere else, and the resume pointer ends null |
| MixerMeaning.ReadRecordsOfRecords | chan_capi_chat.c:154-182 | a list of records is read back as the members' PLCIs with their data paths |
| MixerMeaning.FormatIsTree | chan_capi_chat.c:299-304 | the format "w(w(dc))" of a segment is balanced, short enough for one-byte lengths, and has the shape a receiver expects |
| MixerMeaning.RequestReadsBack | chan_capi_chat.c:299-304 | the bytes sent for a segment decode to its data path and its list |
| MixerMeaning.SegmentReadsBack | chan_capi_chat.c:272-304 | end to end, the k-th request of a member decodes to the member's data path and the PLCIs and data paths of exactly the k-th eight of the others |
| MixerMeaning.ChunkIs | chan_capi_chat.c:272-282 | the k-th piece of a list are its elements from 8 * k on, eight of them if there are that many |
| MixerMeaning.KthRequestLists | chan_capi_chat.c:272-282 | the records of a member's k-th request are read back as the PLCIs of the k-th eight of the others |
| MixerMeaning.PathsMean | chan_capi_chat.c:154-204 | a listed member's path is its talk bits over its own base, which is 0x30 for a NULL interface without a line and 0 for all others; in a leave the leaving interface has 0 with a line, 0x30 as a NULL one without and 0x0c as an ordinary one without, the records have the listed members' own base, and a last remaining partner the path of one that leaves |
| MixerMeaning.RoleIsFound | chan_capi_chat.c:128-136 | the member's role is used exactly by segments that start at or before its row |
| MixerMeaning.StartsInTimeExactly | chan_capi_chat.c:272-282 | a member's k-th request starts at or before its own row exactly if k is 0 or more than 8 * k others stand in front of that row |
| MixerMeaning.BitsRightExactlyWhen | chan_capi_chat.c:128-177 | the bits of a record in a member's k-th request are those of its real role exactly if k is 0, or more than 8 * k others stand in front of the member's row, or the member may talk and the listed one is not a plain member of a muted room |
| MixerMeaning.JoinedMemberIsHeard | chan_capi_chat.c:128-177 | in every request but the first of a member that just joined, its own direction is open to everyone and that of all but the listeners to it, whatever its role and the room's mode |
| MixerMeaning.TenthListenerIsHeard | chan_capi_chat.c:410-475 | after nine joins as operator, the tenth, as a listener, gets two requests, the second of which opens its direction |
| MixerMeaning.BothEndsAgree | chan_capi_chat.c:128-177 | requests built from either end of a pair open the same directions, each exactly if its talker is not effectively a listener |
| RoomRegistry.RecountIsExact | chan_capi_chat.c:260-270 | the counter stored by a recomputation is the room's row count, for a member that stays and for one that has left |
| RoomRegistry.InsertedKeepsRooms | chan_capi_chat.c:435-463 | a new row takes number and mode of its namesakes or a number no other room has, and alone is marked recent |
| RoomRegistry.InsertedExactly | chan_capi_chat.c:435-463 | the new row stands in front, marked recent, with number and mode of its namesakes or a number above all and full duplex; of the other rows only those of its name change, and only in no longer being recent |
| RoomRegistry.RecentIsNewest | chan_capi_chat.c:379-475 | in every run nobody of its name stands in front of a member marked recent: it is the one that joined last |
| RoomRegistry.JoinKeepsInv | chan_capi_chat.c:410-475 | a join keeps the registry's invariant, its recomputation still pending |
| RoomRegistry.LeaveKeepsInv | chan_capi_chat.c:379-405 | a leave keeps it |
| RoomRegistry.RecountKeepsInv | chan_capi_chat.c:253-270 | a recomputation keeps it, whatever happened since its join or leave |
| RoomRegistry.MuteKeepsInv | chan_capi_chat.c:1237-1252 | a mute keeps it |
| RoomRegistry.RunKeepsInv | chan_capi_chat.c:379-475 | in every run rows share a number exactly if they share a name, then share their mode, and at most one of them is marked recent |
| RoomRegistry.ActiveIsRoomSize | chan_capi_chat.c:260-270 | in every run, with no join or leave pending, every row's counter is its room's row count |
| ChatList.SegmentsFitSlot | chan_capi_chat.c:328-347 | a member's segments fit the slot computed from the room's size, and all of them are busy |
| ChatList.SlotsFit | chan_capi_chat.c:335-343 | slots do not overlap and those of all members fit the array |
| ChatList.SlotAtIsProduct | chan_capi_chat.c:335-347 | the slot of the i-th member starts at i times the segments of a slot |
| ChatList.RequestsOfBusy | chan_capi_chat.c:292-306 | of busy segments every one is sent, in order, with its own data path and list |
| ChatList.RequestsReachAll | chan_capi_chat.c:272-306 | a member with n others sends ceil(n/8) requests, and the k-th is read back as the PLCIs of the k-th eight of them |
| ChatList.RoomIsReached | chan_capi_chat.c:318-374 | the requests of a room are, for each of its members with a PLCI in turn, those that list all its others |
| ChatList.ChatList.UpdateMixer | chan_capi_chat.c:236-316 | the counters of the room and the requests of the member, which list all its others eight by eight; none of them when its PLCI is unset or about to be removed |
| ChatList.ChatList.UpdateMixerInto | chan_capi_chat.c:236-316 | with segments of the caller only the member's own slot is written and nothing is sent |
| ChatList.ChatList.RebuildSlots | chan_capi_chat.c:341-352 | after the loop the j-th recorded PLCI and the j-th slot belong to the same member, and there is one entry for each member with a PLCI and a peer and none else, in list order |
| ChatList.ChatList.UpdateAllMixers | chan_capi_chat.c:318-374 | a rebuild sends every member with a PLCI exactly its own requests, in list order, and each member's list all its others eight by eight |
| ChatList.ChatList.InsertRow | chan_capi_chat.c:435-463 | the loops of a join do to the list what the registry's join does |
| ChatList.ChatList.AddMember | chan_capi_chat.c:410-475 | the row under its stored name, the recomputed counters, and the new member's requests: so many that they list all others eight by eight, with the data path of the new interface; with a PLCI it is a join of the registry and its recomputation |
| ChatList.ChatList.DeleteMember | chan_capi_chat.c:379-405 | exactly the member's row leaves, the room is recounted without it, and removal requests that list all others eight by eight go out unless CAPI removes the PLCI; with a PLCI it is a leave of the registry and its recomputation |
| ChatList.ChatList.Mute | chan_capi_chat.c:1207-1259 | the first matching row names the room; exactly that room changes its mode and is rebuilt, each of its members with a PLCI listing all its others, or nothing changes and the call fails |
| GroupNames.AtoiPadded | chan_capi_chat.c:1580-1590 | the number behind a group's name reads back as the group |
| GroupNames.StoredIsFull | chan_capi_chat.c:424-429 | the stored name is the full one exactly if room name and padded number have at most twelve characters |
| GroupNames.LongNamesCollide | chan_capi_chat.c:424-429 | from nine characters on groups 2 and 3 of a room are stored under one name, from twelve on all its groups are |
| GroupNames.StoredNamesDifferExactly | chan_capi_chat.c:424-429 | a room's groups up to 9999 are all stored under different names if and only if the room name has at most eight characters |
| GroupNames.RecognisedExactly | chan_capi_chat.c:1752-1757 | a group's own row is recognised if and only if room name and padded number have at most twelve characters |
| GroupNames.OnlyItsOwnRoom | chan_capi_chat.c:1752-1757 | the bridge functions recognise a group's row by its own room and by no other |
| GroupNames.FullNamesDiffer | chan_capi_chat.c:1604-1611 | no two groups share a full name |
| BridgeRows.NamesDecide | chan_capi_chat.c:1652-1657 | for names that fit, both name comparisons of the loops decide room and group |
| BridgeRows.BridgeList.CountMembers | chan_capi_chat.c:1595-1618 | the number of rows of a group |
| BridgeRows.BridgeList.FindFreeGroup | chan_capi_chat.c:1644-1664 | one more than the highest group of the room |
| BridgeRows.FreeGroupIsNext | chan_capi_chat.c:1644-1664 | that number lies above every row of the room and directly above one of them, unless it is 2 |
| BridgeRows.BridgeList.GetGroupBridge | chan_capi_chat.c:1742-1763 | the first row that stands for the group's bridge |
| BridgeRows.BridgeList.IsBridgeIdle | chan_capi_chat.c:1768-1794 | idle exactly if every row of that room which stands for a bridge of a group counts no user |
| BridgeRows.IdleExactly | chan_capi_chat.c:1768-1794 | with at most one bridge end in each group, the bridges of a room are idle if and only if the users of every group of it add up to zero |
| BridgeRows.BridgeList.GetRoomBridge | chan_capi_chat.c:1796-1819 | the first bridge of the room |
| BridgeRows.BridgeList.GetMainBridge | chan_capi_chat.c:1821-1834 | the end of a bridge in group 1 is found |
| BridgeRows.BridgeList.AddGroupUser | chan_capi_chat.c:1836-1862 | one more user on the group's bridge; nothing without one |
| BridgeRows.BridgeList.RemoveGroupUser | chan_capi_chat.c:1864-1881 | one user less, never below zero |
| BridgeRows.UserCounted | chan_capi_chat.c:1836-1881 | counting in or out changes the users of that group and nothing about any other |
| BridgeRows.BridgeCountsUsers | chan_capi_chat.c:1742-1763 | with one end in the group, the row found is the one that counts its users |
| BridgeRows.BridgeList.FindGroup | chan_capi_chat.c:1689-1737 | while the groups are those below the free one, the search ends and takes the first suitable group; if none is, it connects the free one or gives up with 0 |
| BridgeRows.BridgeList.TearDown | chan_capi_chat.c:1914-1938 | both rows of every bridge of the room go, and no other row; the loop ends |
| BridgeRows.BridgeList.CleanupBridge | chan_capi_chat.c:1886-1944 | a user is counted out; if after that the users of every group of the room add up to zero, all bridge ends of that room and no other row go, and otherwise the list stays as it is |
| BridgeProtocol.CountsAfter | chan_capi_chat.c:1666-1682 | a step changes the number of callers in any class only by the acting and the woken caller |
| BridgeProtocol.LockedKept | chan_capi_chat.c:1666-1682 | every step keeps one caller in the section while the flag is set and none otherwise, and leaves nobody waiting without a caller that will test the flag |
| BridgeProtocol.AccountsKept | chan_capi_chat.c:1836-1944 | every step of every caller keeps each group's rows, bridge ends and users in account with the callers |
| BridgeProtocol.NoGapsKept | chan_capi_chat.c:1684-1737 | every step keeps the groups of a room without gaps, teardown apart |
| BridgeProtocol.PlacedKept | chan_capi_chat.c:737-810 | no step of another caller takes away what a caller relies on between its own steps |
| BridgeProtocol.EveryRunIsSound | chan_capi_chat.c:737-810 | all of this holds after any interleaving of any number of callers |
| BridgeProtocol.MutualExclusion | chan_capi_chat.c:1666-1682 | in every reachable state at most one caller is between entering and leaving the modify state, and only while the flag is set |
| BridgeProtocol.UsersAreHolders | chan_capi_chat.c:1836-1900 | in every reachable state a bridge's user count is the number of callers between counting themselves in and out, a group's rows are its bridge and its joined members, and whoever counts itself out meets a count above zero |
| BridgeProtocol.IdleExactlyWithoutHolders | chan_capi_chat.c:1768-1794 | in every reachable state the bridges of a room are idle if and only if no caller holds any of its groups |
| BridgeProtocol.NoLeftoversKept | chan_capi_chat.c:1886-1944 | every step keeps a room with a bridge from being left without a holder and without a caller that is about to count itself in or to take the bridges down |
| BridgeProtocol.BridgesAreForHolders | chan_capi_chat.c:1886-1944 | in every reachable state with nobody in the section, a room has a bridge only while some caller holds a group of it |
| BridgeProtocol.NoTeardownUnderAHolder | chan_capi_chat.c:1905-1938 | in every reachable state in which a room is being torn down no caller holds any of its groups |
| BridgeProtocol.BothEndsFound | chan_capi_chat.c:1914-1923 | whoever deletes a bridge finds both its ends, each in the list once |
| BridgeProtocol.GroupsAreTwoToN | chan_capi_chat.c:1684-1737 | in every reachable state without teardown the groups of a room are exactly 2..n |
| BridgeProtocol.SearchEndsAtFreeGroup | chan_capi_chat.c:1698-1723 | the search counts a group empty exactly at n + 1, which is the number a new group gets |
| BridgeProtocol.SearchProgresses | chan_capi_chat.c:1698-1717 | every skipped group brings the search nearer to a number that no other caller moves |
| BridgeProtocol.SomebodyGoesOn | chan_capi_chat.c:1666-1682 | while anybody waits, some caller before or in the section can take a step |
| BridgeProtocol.SequentialPremisesHold | chan_capi_chat.c:1689-1944 | a caller in the section finds the list as the searching and the cleaning loops need it |
| BChannels.Channels.FindByPlci | chan_capi_utils.c:479-499 | the first interface with that PLCI, none for 0 |
| BChannels.Channels.FindByMessage | chan_capi_utils.c:504-524 | the first interface without a PLCI that waits for that message, found whenever there is one, none for 0 |
| BChannels.Channels.Cleanup | chan_capi.c:1185-1255 | call, PLCI, NCCI and message number of exactly that interface are reset, and no counter is touched |
| BChannels.Channels.HandleConnectB3Indication | chan_capi.c:5543-5561 | the interface found takes the NCCI and, unless NULL, a free channel of its controller |
| BChannels.Channels.HandleConnectB3Confirmation | chan_capi.c:6239-6251 | the same for a confirmation, exactly if its info word reports no error |
| BChannels.Channels.HandleDisconnectB3Indication | chan_capi.c:5473-5538 | the NCCI is forgotten and, unless NULL, a channel given back |
| BChannels.Channels.HandleDisconnectIndication | chan_capi.c:5566-5652 | the interface is cleaned up, left for a hangup, or marked with a dead PLCI, by who ended the call and how far it was |
| BChannels.Channels.HandleConnectConfirmation | chan_capi.c:6086-6118 | the interface that waits takes the PLCI, or is disconnected on an error |
| BChannels.Channels.HandleHoldIndication | chan_capi_supplementary.c:685-700 | an accepted hold marks the interface held, a refused one forgets the PLCI put aside |
| BChannels.Channels.HandleRetrieveIndication | chan_capi_supplementary.c:701-715 | an accepted retrieve connects the interface again under the PLCI that was put aside |
| BChannels.RetrievedIsHeld | chan_capi_supplementary.c:701-715 | in a run the PLCI that comes back is the one the answer is about |
| BChannels.Channels.Hangup | chan_capi.c:1419-1463 | a disconnected interface is cleaned up, any other is disconnecting and loses its owner |
| BChannels.BalanceKeptExactly | chan_capi.c:5473-5561 | from any balanced state any step keeps every controller's balance if and only if no open interface is cleaned up, no NCCI opened over another, and none closed that is not open |
| BChannels.GuardHolds | chan_capi.c:5473-5561 | as long as interfaces agree with CAPI's view, what CAPI may send never breaks that condition |
| BChannels.AgreesKept | chan_capi.c:5473-5652 | every step keeps each interface in agreement with CAPI about its NCCI |
| BChannels.InvKept | chan_capi.c:5473-5652 | every step keeps the interfaces apart by PLCI and in agreement with CAPI |
| BChannels.ChannelsAreConserved | chan_capi.c:5473-5561 | in every run each controller's free count plus its non-NULL interfaces with an open NCCI is its number of B channels |
| CallRuns.MessagesApartKept | chan_capi_utils.c:504-524 | every step keeps interfaces without a PLCI apart by message number |
| CallRuns.EveryRunIsSound | chan_capi.c:5473-6118 | in every run from interfaces at rest they are apart by PLCI and by message number and in agreement with CAPI |
| CallRuns.ConfirmationIsStored | chan_capi.c:6086-6118 | an accepted confirmation gives its PLCI to the interface that waits for it, and changes nothing else |
| CallRuns.CallKeepsItsPlci | chan_capi.c:6086-6118 | in every run the interface a call was sent for, whatever happens in between short of its being removed or cleaned up, takes the PLCI of the accepted confirmation and stores it until CAPI ends that call |
| CallRuns.IncomingIsStored | chan_capi_utils.c:479-499 | an incoming call that is taken is stored in its interface |
| CallRuns.PlciIsForgottenExactly | chan_capi.c:5566-5652 | once CAPI has ended a call no interface stores its PLCI, if and only if the call is not an incoming one with an owner whose dialplan has not started |
| CallRuns.OutgoingCallConnects | chan_capi.c:6086-6118 | request, call, confirmation, connect and B3 leave exactly the one interface connected under PLCI and NCCI, with one channel less |
| CallRuns.HoldAndRetrieve | chan_capi_supplementary.c:685-715 | an accepted hold puts a connected call aside under its PLCI, a retrieve undoes it, and a refused hold changes nothing |
| CallRuns.CallEnds | chan_capi.c:5566-5652 | whichever side hangs up first, B3 going down, hangup and the end of the call leave the interface at rest and give the channel back |
| ChannelChoice.Choose | chan_capi.c:2817-2894 | a request by name or controller gets the first free match or fails if its controller is down; a request for a group the first eligible interface without a soft limit, else the best, and fails only if none is eligible |
| ChannelChoice.Update | chan_capi.c:2840-2852 | the three-way comparison keeps the best eligible interface of those seen |
| ChannelChoice.SoftLimitsDecide | chan_capi.c:2819-2894 | the lowest-numbered controller whose free count reaches its limit, else one with the largest free-minus-limit, and the first eligible interface of it |
| ChannelChoice.NextCallStays | chan_capi.c:2819-2894 | of two calls in a row to a group below all limits, the second goes to the first one's controller if and only if that still has an eligible interface which leads those of all other controllers, by margin or, at equal margins, by standing in front; whether or not the first call has lowered the free count by then |
| ChannelChoice.TwoCallsOnOneController | chan_capi.c:2819-2894 | with 5 of 10 channels free on one controller and 2 of 10 on another, both of two calls get an interface of the first |
| ChannelChoice.OrderDoesNotMatter | chan_capi.c:2819-2894 | two orders of the same interfaces lead to the same controller while one reaches its limit, and to the same margin otherwise |
| SendCredit.VoiceChannel.HandleActive | chan_capi.c:5417 | three blocks of credit when B3 comes up |
| SendCredit.VoiceChannel.HandleDataB3Indication | chan_capi.c:4986-4988 | received bytes are credited up to the limit |
| SendCredit.VoiceChannel.HandleDataB3Confirmation | chan_capi.c:6297-6301 | one block less is unconfirmed |
| SendCredit.VoiceChannel.TakeCredit | chan_capi_utils.c:1624-1631 | a sent block is counted and paid for, with the floor at zero |
| SendCredit.VoiceChannel.WriteFrame | chan_capi_utils.c:1505-1632 | the loop over a frame sends each completed block exactly if there is credit and CAPI takes it |
| SendCredit.DrainedKeeps | chan_capi_utils.c:1561-1632 | over a whole frame the balance holds and at most as many blocks go out as the credit pays for, the last perhaps in part |
| SendCredit.CreditBalances | chan_capi_utils.c:1594-1631 | in every run, whatever lengths are received and sent, the credit is never negative and is 480 plus what was credited minus what was sent plus what the floor forgave |
| SendCredit.UnconfirmedAreOutstanding | chan_capi.c:6297-6301 | in every run in transparent mode, in which CAPI confirms only what it was sent, the unconfirmed blocks are those sent less those confirmed |
| SendCredit.CreditIsConserved | chan_capi_utils.c:1594-1631 | in every run in which received blocks have at most 160 bytes, the credit balances, lies in 0..1120, and at most 13 blocks are unconfirmed |
| SendCredit.NeverAheadByMoreThanThreeBlocks | chan_capi_utils.c:1594-1631 | with blocks of 160 bytes the credit stays a multiple of 160, the floor never fires, and never more than 480 bytes and what was received has been sent |
| SendCredit.FloorFiresExactlyBelow | chan_capi_utils.c:1627-1629 | a send is fully paid for exactly if the credit covers its length |
| SendCredit.PayableAreSent | chan_capi_utils.c:1561-1632 | a frame sends as many blocks as are complete and payable, a remainder paying for one, if CAPI takes them all, and never more |
| SendCredit.FrameKeepsLimitExactly | chan_capi_utils.c:1505-1632 | a frame that passed the test and whose blocks CAPI takes keeps the limit of seven if and only if unconfirmed and payable blocks together do; and if they do, whatever CAPI takes |
| SendCredit.ShortBlockBuysFullOne | chan_capi_utils.c:1595-1631 | with one received byte in between, 640 bytes go out |
| SendCredit.LimitIsPassed | chan_capi_utils.c:1505-1509 | a run from B3 coming up, six blocks received and sent, four more received and one frame of seven, leads to thirteen unconfirmed blocks |

## Left out

- CapiMessage.Sendf: the 64-bit data pointer that replaces the end of a DATA_B3_REQ is not modelled, and strings that would run over the buffer are excluded, because the code does not check them either.
- CapiMessage.Sendf: the header fields are stated where no closing parenthesis reaches into the header; with over-long structures one may (`CapiMessage.HeaderMayBeLost`).
- CapiMessage.PutParenthesis: a stored back-offset larger than the position gives no open structure, where the code forms a position in front of the message; this takes structures of more than 254 bytes.
- QsigCore.PrintFacility: a buffer with room for all of it, because the code checks none; every caller's has it (`QsigEcma.PrintName`, `QsigEcma.PrintProposal`).
- QsigCore.HandleIndication: stated for messages whose reads stay inside the data, read nothing from the invoke structure that no component has set, and whose loops end; elsewhere the original reads undefined bytes or does not end.
- QsigCore.HandleFacility: the debug output of a rejected facility, which flips a bit of the message, is not modelled.
- QsigMessage.ForeignLosesTheRest: what is handed over of a longer rest depends on the byte the loop lands on, which `QsigMessage.ForeignGoesOn` names.
- QsigEcma.EncodeName: without a name the interface's must fit the 50-byte field, because the code copies it uncut.
- QsigEcma.PrintProposal: strings too long for the work area are excluded; the code then prints an invoke that nothing has set.
- QsigEcma.Channel.OnProposal: a string as long as its buffer is stored whole, where the code writes its end mark one byte behind the buffer.
- QsigEcma.Channel.OnIndication: call transfer and leg information have no effect.
- VoiceMenu.VoiceMenu.OnDigit: what the called command does, which may be to edit the menu, is not modelled.
- ChatList.ChatList.UpdateAllMixers: the error path of a failed allocation is not modelled.
- ChatList.ChatList.Mute: a mute without a room name dereferences a null pointer in the code and is not modelled; the channel's interfaces are given as a set. It is a step of the registry where some member of the room has a PLCI, since otherwise the code recounts nothing.
- RoomRegistry.ActiveIsRoomSize: stated for members with a PLCI, since the code recounts nothing for one without.
- BridgeRows.BridgeList.FindGroup: group caps and the controller test are a parameter, and failures of setting up a bridge are one flag; the rows it adds go through the same list operation as any join.
- BridgeProtocol.SomebodyGoesOn: no fairness is assumed, so it says that a step is possible, not that every waiting caller is served.
- BChannels.ChannelsAreConserved: of the supplementary services hold and retrieve are modelled, and call completion as the connect confirmation it goes through; the others touch neither PLCI nor NCCI.
- BChannels.Channels.Hangup: the messages it sends are not modelled; whether the call stays online or B3 is up is a parameter.
- ChannelChoice.Choose: parsing the dial string; "contr0" is taken as an interface's name, as in the code.
- SendCredit.VoiceChannel.WriteFrame: gains, echo suppression, the RTP path and the send buffers whose slots blocks reuse.
- Group size caps 31 and 2 as invariants: they are tested before the row is inserted, so concurrent callers may pass them.
- Call-transfer decoding, call completion, message waiting, fax, Diva streaming, hardware status, CLI and manager events.
- The lock-order rules as a global theorem.
- Message bytes of CAPI requests other than the line-interconnect ones, and the tables for CIP values, tones and info strings.
