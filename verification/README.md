# Discord Messenger: the protocols and state machines, verified

The program is a Discord client for old Windows versions.  This project models the parts of it whose
correctness does not show in one function: the home-made Protocol Buffers library with its dirty
flags and delta merge, the HTTP library's multipart, chunked, client and thread-pool code, the
WebSocket masking loops and UTF-8 automaton, MD5, the translation of mentions, the channel list, and
the image cache.

- **Protocol Buffers.** `VarInt`, `ProtoTree`, `ProtoFields` and `ProtoWire` define the wire form and
  the decoder on values; `ProtoFormat` says both in figures; `ProtoRoundTrip`, `ProtoReencode`, `ProtoDelta` and `ProtoSync` prove the
  laws.  `ProtoObjects` is the heap of parent-linked objects the library keeps; `ProtoCodec`,
  `ProtoDecoder`, `ProtoMerge`, `ProtoSettings`, `ProtoExchange` and `ProtoIndicator` are its operations,
  in place, each tied to the value it leaves behind; `ProtoStatus` is about the online indicator.
  `Obj.Valid(S)` says of a set of objects that parents and children agree, that a dirty object has only
  dirty ancestors, and that `tree` is the value the fields make up.
- **HTTP.** `Multipart`, `MultipartForms`, `MultipartRoundTrip`, `MultipartParser`; `Chunked`,
  `ChunkedForms`, `ChunkedStream`, `ChunkedWriter`; `ClientProtocol` and `ClientSections` (threads over
  one client, step by step); `ThreadPool`.
- **Bytes.** `Masking`, `MaskingLoops`; `Utf8`; `Md5`, `Md5Hash`.
- **Application.** `Mentions`, `MentionForms`, `MentionMatches`, `MentionRoundTrip`, `MentionScan`;
  `ChannelOrder`, `ChannelList`, `ChannelGroups`; `ImageCache`, `ImagePlaces`.
- `Bytes`, `Bits`, `Powers` and `Strings` hold what several of these share.

The loops and classes are proved against functions, and the functions twice over: by the laws they obey,
and, in the modules and sections of forms, by what they give for each form of input, in the numbers and
characters of the formats and in the terms of the lists themselves.

Interleavings are label sequences: a run is a fold of `Step` over any sequence of labels, so a statement
about every sequence is one about every schedule.  `dafny verify dfyconfig.toml` checks everything.

## Findings

What the proofs show the code does other than it means to, with the exact condition where there is one.

| where | what happens | member |
|---|---|---|
| Protobuf.hpp:413-473 | A message adopted by a merge declares no field unique, so the next delta replaces what is below it instead of merging: a second round loses fields.  The replica is right exactly if its declarations cover the edit. | `SecondRoundLosesFields`, `SyncedIff` |
| SettingsManager.cpp:21-40 | The settings tree never declares a field unique, so a delta that changes an object it already has replaces the whole field; `DeclaredSync` needs the declarations. | `DeltaSync`, `DeclaredSync` |
| SettingsManager.cpp:51-82 | Marking the indicator and everything in it is meant to keep the status message, which is its neighbour.  The other side keeps the rest of the activity exactly if it declares the activity unique, or there is none, or nothing changed. | `IndicatorSync` |
| SettingsManager.cpp:94-132 | `SetCustomStatus` asks for the indicator as a string.  The assertion in that call fails exactly if the indicator is a message with something in it, as it is once a state is set. | `CustomStatusAsserts` |
| Protobuf.hpp:285-305, 508-514 | An object that is added but never set is clean, so `EncodeDirty` leaves it out although its parent is dirty. | `DirtyLeavesSent` |
| Protobuf.hpp:448 | The uniqueness test is a conjunction, so several objects merge silently into one; what happens to them is `FieldCases`. | `ProtoMerge.FieldCases` |
| Protobuf.hpp:885-895 | A field whose hint has no type is dropped without an error. | `ProtoDecoder.ReadBodyObject` |
| httplib.h:6262-6349, 7346-7367 | A nested send clears the mark a stop has left: the socket stays open.  Exactly the stops before the last nested send are lost. | `NestedSendLosesStop`, `LostStops`, `SocketAtEnd` |
| httplib.h:3619-3632 | A body that ends between the carriage return and the line feed after a chunk is accepted as whole; no other cut is. | `CutShort` |
| httplib.h:3608-3611 | A chunk of 2^32 - 1 bytes or more is refused, where `unsigned long` has 32 bits. | `Chunked.RoundTrip` |
| Protobuf.hpp:451-457 | A unique field that is a message here and a leaf there is cast to a message.  The model stops there; it does not happen when both sides agree on what is a message, nor without declarations. | `NeverMiscast`, `UndeclaredNeverFails` |
| MD5.cpp:255-288 | A piece within 64 bytes of 2^32 makes the loop's sum wrap, and the loop transforms a block that reaches past the end.  Exactly the lengths of `NoWrap` are safe. | `NoWrapExact`, `LoopRunsOn` |
| httplib.h:657-728 | A pool without workers drops its jobs when it is shut down; one with a worker never does. | `PromiseIffWorkers`, `NoWorkersNoJobs` |
| ChannelViewOld.cpp:187-196 | A category without channels stays when a channel whose parent is not listed comes behind it, with no other category between them; in no other case. | `OnlyUsedAreLeft`, `LeftExactly`, `UnlistedParent`, `NegativePosition` |
| ChannelViewOld.hpp:37-65 | Of a direct message and another channel each can be less than the other.  Such a list reaches `std::sort` only if the server sends it: Main.cpp:1066-1083 fills the list from one guild, the guild of direct messages holds what arrives without a guild (DiscordInstance.cpp:2541-2552), and a server's guild holds its own channels. | `MixedIsNoOrder`, `MixedExactly` |
| AvatarCache.cpp:112-199 | `GetImageSpecial` uses an iterator into the places behind `SetImage`, which inserts a place exactly if it evicts an entry that has none.  Before the call: it does not up to 256 entries, nor at 257 if the least recently used have places; it does beyond 256 if none of those has.  An insertion may rehash the table. | `StaleIterator`, `RoomMade`, `ImageCache.AvatarCache.GetImageSpecial` |

## Model

| member | source | states |
|---|---|---|
| VarInt.EncodeVarInt | deps/protobuf/Protobuf.hpp:108-122 | the loop over the digit buffer appends exactly the base-128 digits, whatever is in the stream |
| VarInt.DecodeVarInt | deps/protobuf/Protobuf.hpp:808-830 | value, error and new offset are those of reading the bytes from the offset on, which never passes the end |
| VarInt.VarIntRoundTrip | deps/protobuf/Protobuf.hpp:108-133 | reading back any 64-bit value gives it and takes exactly its bytes, whatever follows |
| VarInt.DigitsAtMostTen | deps/protobuf/Protobuf.hpp:124-133 | no 64-bit value takes more than ten bytes |
| VarInt.RereadNotLonger | deps/protobuf/Protobuf.hpp:808-830 | a value accepted from any bytes encodes into no more bytes than it was read from |
| ProtoFormat.VarIntBytes | deps/protobuf/Protobuf.hpp:108-122 | byte i of a variable-length number is its i-th base-128 digit, with the top bit on all but the last |
| ProtoFormat.VarIntLength | deps/protobuf/Protobuf.hpp:108-133 | and no byte is superfluous |
| ProtoFormat.VarIntRead | deps/protobuf/Protobuf.hpp:808-830 | the value is the sum of the digits times their powers of 128; which error, 1 or 2, and how many bytes are taken when the number does not end |
| ProtoFormat.Format | deps/protobuf/Protobuf.hpp:548-801 | what is sent for each kind of object: 8 times the field number plus 0, 1, 2 or 5, and the value, fixed-size ones byte by byte |
| ProtoFormat.TableForm | deps/protobuf/Protobuf.hpp:501-514 | a table is sent object after object, and of the dirty part only the dirty ones |
| ProtoFormat.DirtyForm | deps/protobuf/Protobuf.hpp:490-574 | a dirty message is sent with the length and bytes of what is dirty in it |
| ProtoFormat.ReadsNumbers | deps/protobuf/Protobuf.hpp:853-945 | the bytes behind the keys 8n, 8n + 1 and 8n + 5 are read as that varint and those fixed-size numbers, whatever follows |
| ProtoFormat.ReadsDelimited | deps/protobuf/Protobuf.hpp:860-926 | the bytes behind 8n + 2 become what the hint names; without a hint text, a message if they have a control character and parse, and else bytes |
| ProtoFormat.Refuses | deps/protobuf/Protobuf.hpp:927-947 | tags 3, 4, 6 and 7 are error 3 and numbers cut short error 1 |
| ProtoFormat.RefusesLength | deps/protobuf/Protobuf.hpp:862-869 | so is a length that announces more than there is |
| ProtoFormat.ParseAppend | deps/protobuf/Protobuf.hpp:842-952 | a block that can be read to its end, with another behind it, is read as the two of them, up to the first error |
| ProtoFormat.ParsesVarInt | deps/protobuf/Protobuf.hpp:842-859 | a block of one varint |
| ProtoTree.EncodedSizesExact | deps/protobuf/Protobuf.hpp:480-514 | for every table, `Encode` emits exactly the payload size and `EncodeDirty` exactly the dirty payload size |
| ProtoTree.DirtyIsPruned | deps/protobuf/Protobuf.hpp:508-514 | the bytes and size of the dirty part of a tree are those of the tree pruned to its dirty objects |
| ProtoFields.AddAllStablySorts | deps/protobuf/Protobuf.hpp:285-305 | adding objects one by one leaves a table sorted by field number in which each repeated field keeps the order of adding |
| ProtoFields.AddRange | deps/protobuf/Protobuf.hpp:285-305 | where the newcomer stands: behind its field's objects, or in place of them when the field is unique |
| ProtoRoundTrip.DecodeInvertsEncode | deps/protobuf/Protobuf.hpp:832-955 | decoding the encoding of any tree the hint fits, of any depth, succeeds and rebuilds the same tree, repeated fields in order |
| ProtoReencode.ReencodeNeverGrows | deps/protobuf/Protobuf.hpp:832-955 | whatever any bytes decode to in a fresh message, accepted or not, encodes into no more bytes |
| ProtoReencode.ReencodeSorts | deps/protobuf/Protobuf.hpp:832-955 | bytes in shortest form are the encoding of a record tree, and the decoder's table has each field's records in the input's order, sorted at every level |
| ProtoDelta.MergeDelta | deps/protobuf/Protobuf.hpp:413-473 | merging the pruned, decoded form of an edited tree into a related replica succeeds and leaves the table `Synced` describes field by field |
| ProtoSync.SyncedIff | deps/protobuf/Protobuf.hpp:413-473 | the merged table equals the edited one exactly when the replica's unique declarations cover the edit |
| ProtoSync.SetLeafGet | deps/protobuf/Protobuf.hpp:193-233 | an edit changes the leaf it names and no other, wherever it is |
| ProtoSync.CleanForm | deps/protobuf/Protobuf.hpp:516-522 | cleaning turns every dirty flag off, at every level, and changes nothing else |
| ProtoSync.DeltaSync | deps/protobuf/Protobuf.hpp:413-514 | after any sequence of leaf edits of a clean tree, the delta decodes, merges without error, and gives the edited tree exactly if the edit is covered |
| ProtoSync.DeclaredSync | deps/protobuf/Protobuf.hpp:413-514 | with every field declared unique at every level of the replica, one round makes it equal to the edited tree |
| ProtoSync.SecondRoundLosesFields | deps/protobuf/Protobuf.hpp:437-446 | for all values: a replica that has adopted a message is equal after the first round and not after the next edit of one of its two leaves |
| ProtoMerge.MergeUpClosed | deps/protobuf/Protobuf.hpp:413-473 | a merge that succeeds, of trees without a dirty object below a clean one, leaves no such object |
| ProtoMerge.FieldCases | deps/protobuf/Protobuf.hpp:415-468 | one field's turn, case by case, by where its vector stands in the destination; where the code casts a leaf to a message, a code of the model's own says that nothing is known |
| ProtoMerge.UndeclaredNeverFails | deps/protobuf/Protobuf.hpp:421-435 | into a message that declares no field unique, every merge succeeds |
| ProtoMerge.NeverMiscast | deps/protobuf/Protobuf.hpp:451-461 | where both trees agree, at every level, on which fields hold messages, no leaf is cast |
| ProtoMerge.Take | deps/protobuf/Protobuf.hpp:421-446 | a field's objects leave one message's table and the first of them stand in the other's in place of what was there, in a heap that stays linked |
| ProtoMerge.MergeNested | deps/protobuf/Protobuf.hpp:452-461 | merging two children in place has the error and the value of merging their trees, and changes no other child |
| ProtoMerge.MergeMessages | deps/protobuf/Protobuf.hpp:413-473 | the recursion on objects: the code is that of `Merge` on the trees, and on 0 the heap is valid, the other message's remains included, and the destination's tree is the merged one, dirty |
| ProtoMerge.MergeWith | deps/protobuf/Protobuf.hpp:413-473 | two messages with heaps of their own: same code as `Merge`; on 0 the joined heap is valid, the destination dirty up to its root, and its table is `Merge` of the two |
| ProtoObjects.Obj.MarkDirty | deps/protobuf/Protobuf.hpp:247-251 | from a heap that is right but for this object's mark, a valid heap in which nothing outside the line to the root has changed |
| ProtoObjects.Obj.AddObject | deps/protobuf/Protobuf.hpp:285-305 | refuses exactly root messages and then changes nothing; otherwise the joined heap is valid and the table is `Add` of the object, which replaces a unique field |
| ProtoObjects.Obj.SetFieldUnique | deps/protobuf/Protobuf.hpp:314-318 | the declaration is added, the line to the root is dirty, the heap valid |
| ProtoObjects.Obj.GetFieldObject | deps/protobuf/Protobuf.hpp:320-329 | the last object of the field, or null exactly if there is none |
| ProtoObjects.Obj.EraseField | deps/protobuf/Protobuf.hpp:346-359 | true exactly if the field had objects; then it is gone and the line to the root dirty, else nothing changed |
| ProtoObjects.Obj.SetValue | deps/protobuf/Protobuf.hpp:684-689 | the leaf has the new value and is dirty, as is the line to the root, and the heap stays valid |
| ProtoObjects.Obj.SetContent | deps/protobuf/Protobuf.hpp:582-587 | the same for strings and byte arrays |
| ProtoObjects.Obj.MarkClean | deps/protobuf/Protobuf.hpp:516-522 | the object's tree is the old one without a dirty flag, and nothing outside it has changed |
| ProtoObjects.Obj.CleanRoot | deps/protobuf/Protobuf.hpp:516-522 | after the root has been cleaned the heap is valid again |
| ProtoCodec.GetPayloadSize | deps/protobuf/Protobuf.hpp:480-488 | the sum over the heap is the size of the value's encoding |
| ProtoCodec.GetDirtyPayloadSize | deps/protobuf/Protobuf.hpp:490-499 | the same for the dirty part |
| ProtoCodec.EncodeObject | deps/protobuf/Protobuf.hpp:501-566 | appends exactly the wire form of the object's tree |
| ProtoCodec.EncodeDirtyObject | deps/protobuf/Protobuf.hpp:508-574 | appends exactly the wire form of the dirty part |
| ProtoCodec.HeapUpClosed | deps/protobuf/Protobuf.hpp:247-251 | in every valid heap a dirty object has only dirty ancestors, all the way down the value |
| ProtoCodec.DirtyLeavesSent | deps/protobuf/Protobuf.hpp:508-514 | in every valid heap `EncodeDirty` of the root is `Encode` of the pruned tree, whose leaves are exactly the dirty leaves |
| ProtoDecoder.IsPrintable | deps/protobuf/Protobuf.hpp:873-878 | the scan says whether no byte is an ASCII control character |
| ProtoDecoder.ReadBodyObject | deps/protobuf/Protobuf.hpp:880-923 | the new object, with a valid heap of its own, is what the hint or the guess makes of the bytes, or none for a hint without a type |
| ProtoDecoder.ReadDelimitedObject | deps/protobuf/Protobuf.hpp:860-926 | object, bytes taken and error are those of the decoder on values |
| ProtoDecoder.DecodeBlock | deps/protobuf/Protobuf.hpp:832-955 | terminates on all bytes; the code is that of parsing them, and the block has grown by exactly the records before the first error, in a valid heap |
| ProtoSettings.GetFieldObjectWithDefault | deps/protobuf/Protobuf.hpp:331-344 | the last object of the field, or the default, stored and marked |
| ProtoSettings.GetFieldObjectDefault | deps/protobuf/Protobuf.hpp:193-233 | returns the object the table then has last; an empty one of the wrong sort has been replaced, and nothing beside the line to the root has changed |
| ProtoSettings.DefaultForm | deps/protobuf/Protobuf.hpp:193-233 | which objects are kept, made or thrown away, case by case, and what a new one holds |
| ProtoSettings.SetLeafAt | src/core/config/SettingsManager.cpp:110-116 | setting the leaf at the end of a path, creating what is missing, leaves the tree `SetLeaf` describes, dirty up to the root, and touches nothing else |
| ProtoSettings.Edit | src/core/config/SettingsManager.cpp:110-124 | the same for any sequence of edits |
| ProtoSettings.FlushSettings | src/core/config/SettingsManager.cpp:42-49 | the bytes sent are those of the dirty part before, the tree afterwards is the same and clean |
| ProtoIndicator.MarkDirtyAndChildren | deps/protobuf/Protobuf.hpp:396-410 | everything in the object and above it is dirty, and nothing beside it has changed |
| ProtoIndicator.MarkPath | src/core/config/SettingsManager.cpp:76-79 | down a path of messages that are there, the last one is marked with all it holds |
| ProtoIndicator.SetOnlineIndicator | src/core/config/SettingsManager.cpp:51-81 | the comparison, the setter and the marking together leave the table `Indicated` describes, in a valid heap |
| ProtoStatus.IndicatorSync | src/core/config/SettingsManager.cpp:51-82 | one round after it gives the same tree exactly if the state was set already, or the activity is declared unique, or it holds nothing but the indicator |
| ProtoIndicator.IndicatorForm | src/core/config/SettingsManager.cpp:51-81 | with the field numbers: 1 in 1 in 11 |
| ProtoIndicator.SoiledForm | deps/protobuf/Protobuf.hpp:396-410 | marking turns every dirty flag on and changes nothing else |
| ProtoIndicator.SoilForm | src/core/config/SettingsManager.cpp:76-79 | on the way to what is marked every message is dirty |
| ProtoIndicator.StatusForm | src/core/config/SettingsManager.cpp:110-124 | with the field numbers: 1, 3 and 4 in 2 in 11 |
| ProtoIndicator.CustomStatusAsserts | src/core/config/SettingsManager.cpp:94-132 | after the three setters, the assertion of the last lookup holds exactly if the indicator was missing, no message, or empty; not once it has a state |
| ProtoExchange.LoadData | src/core/config/SettingsManager.cpp:21-40 | whatever the data, the tree becomes the clean form of its merge with what the data decodes to, when the merge succeeds, as it always does into a root that declares nothing unique |
| ProtoExchange.Synchronise | src/core/config/SettingsManager.cpp:21-49 | edits, a flush and a load on the other side, all on objects: a replica that was equal and declares everything unique is equal again, and the sender is clean |
| MultipartRoundTrip.DispositionReadsBack | deps/httplib/httplib.h:4073-4084 | the disposition line gives back exactly the name and file name it was made of |
| MultipartForms.SerializedForm | deps/httplib/httplib.h:4276-4319 | the body character by character, for every item and for none |
| MultipartForms.TypeLineRead | deps/httplib/httplib.h:4071-4074 | a content type is recorded without the blanks around it, in whatever case its name is written |
| MultipartForms.OpeningMissing | deps/httplib/httplib.h:4043-4050 | without an opening line all that has come is dropped |
| MultipartForms.OpeningFound | deps/httplib/httplib.h:4043-4050 | with one, everything up to its end |
| MultipartForms.NewPart | deps/httplib/httplib.h:4051-4055 | a new part has no name yet |
| MultipartForms.LongHeader | deps/httplib/httplib.h:4057-4058 | a header line of more than 8192 characters is refused |
| MultipartForms.HeaderForm | deps/httplib/httplib.h:4059-4087 | each header line is recorded, or refused if it is not understood or the receiver has enough |
| MultipartForms.HeaderWaits | deps/httplib/httplib.h:4059-4088 | a header line that is not there whole is waited for |
| MultipartForms.OtherLine | deps/httplib/httplib.h:4073-4084 | a line that starts neither like a content type nor like a disposition is not understood |
| MultipartForms.BodyEnds | deps/httplib/httplib.h:4091-4100 | content up to the delimiter goes to the receiver and the delimiter is dropped |
| MultipartForms.BodyGoesOn | deps/httplib/httplib.h:4101-4111 | without one, all but as many characters as it has |
| MultipartForms.AfterBoundary | deps/httplib/httplib.h:4114-4128 | what follows a boundary is another part or the valid end |
| MultipartForms.Waits | deps/httplib/httplib.h:4091-4127 | what is too short to tell, and what is unknown behind a boundary, is waited for |
| MultipartForms.ContentForm | deps/httplib/httplib.h:4091-4110 | content goes to the item delivered last |
| MultipartForms.FeedForm | deps/httplib/httplib.h:4031-4041 | pieces are taken in turn, each behind what is left, up to the first that is refused |
| MultipartRoundTrip.StreamedRoundTrip | deps/httplib/httplib.h:4031-4135 | for every cut of the serialised items whose first non-empty piece holds the opening line, the parser ends valid with exactly the items, or refuses exactly if the receiver takes fewer |
| MultipartParser.FormParser.BufFind | deps/httplib/httplib.h:4184-4205 | the first occurrence in the pending bytes, or their number |
| MultipartParser.FormParser.BufAppend | deps/httplib/httplib.h:4207-4223 | compacting and growing change nothing pending; the data is behind it |
| MultipartParser.FormParser.ReadHeaders | deps/httplib/httplib.h:4056-4090 | the header loop in place does what it does on values, over the compacting buffer |
| MultipartParser.FormParser.TurnBody | deps/httplib/httplib.h:4091-4113 | content goes to the receiver up to the boundary, or all of it that cannot be part of one |
| MultipartParser.FormParser.ParsePiece | deps/httplib/httplib.h:4031-4135 | the class refines the parser on values, piece by piece |
| MultipartParser.FormParser.ParseAll | deps/httplib/httplib.h:4031-4135 | and over a whole body, so the round trip is about the class |
| MultipartParser.WriteItems | deps/httplib/httplib.h:4306-4319 | the serialiser's loop writes the body the round trip is about |
| Chunked.RoundTrip | deps/httplib/httplib.h:3595-3633 | a coded body is read as exactly the bytes written, and exactly what follows it is left, or refused exactly if some chunk is too long for the reader's number |
| Chunked.CutShort | deps/httplib/httplib.h:3595-3633 | of all proper prefixes of a coded body exactly those that stop inside the line end after a chunk are accepted |
| ChunkedForms.SizeDigits | deps/httplib/httplib.h:2082-2090 | digit i of a size, from the right |
| ChunkedForms.SizeLength | deps/httplib/httplib.h:2082-2090 | and no digit is superfluous |
| ChunkedForms.EmittedForm | deps/httplib/httplib.h:3825-3877 | what each operation of the sink puts on the wire, character by character |
| ChunkedForms.ReadSize | deps/httplib/httplib.h:3604-3613 | a size is the sum of its digits times their powers of 16, up to the first other character, and saturates at 2^32 - 1 |
| ChunkedForms.ReadSigned | deps/httplib/httplib.h:3608-3608 | also behind white space, a sign and a prefix; a minus turns it over |
| ChunkedForms.ChunkRead | deps/httplib/httplib.h:3608-3617 | sizes that are refused, and data that falls short |
| ChunkedForms.CloseRead | deps/httplib/httplib.h:3619-3632 | behind the data an empty line leads on and any other line ends the body; behind the last chunk it must be empty |
| ChunkedStream.LineReader.GetLine | deps/httplib/httplib.h:2375-2412 | over any fragmentation of reads, the line buffer ends up with exactly the first line, however long, and the stream behind it |
| ChunkedStream.ReadContentWithLength | deps/httplib/httplib.h:3543-3563 | delivers exactly that many bytes, in whatever portions they come, or all there are and fails |
| ChunkedStream.ReadContentChunked | deps/httplib/httplib.h:3595-3633 | for every way the stream fragments its reads, the result, the bytes delivered and the bytes left are those of the reader on the whole input |
| ChunkedWriter.FromIToHex | deps/httplib/httplib.h:2082-2090 | the digits the reader takes back |
| ChunkedWriter.WriteData | deps/httplib/httplib.h:3732-3740 | all of the data, or a front part of it and failure |
| ChunkedWriter.WriteContentChunked | deps/httplib/httplib.h:3816-3894 | on success exactly the carried-out operations' chunks are on the wire, otherwise a front part of them; a cancel only comes from the provider |
| ChunkedForms.LoopForm | deps/httplib/httplib.h:3881-3890 | after which calls of the provider the loop goes on |
| ChunkedWriter.SinkRoundTrip | deps/httplib/httplib.h:3825-3877 | the other side is satisfied exactly if done was called and every piece fits, and then has exactly the bytes written |
| ChunkedWriter.ProviderRoundTrip | deps/httplib/httplib.h:3816-3894 | however an orderly provider spreads its writes over calls, the body arrives whole and nothing behind it is consumed |
| ClientProtocol.StepKeeps | deps/httplib/httplib.h:6262-6349 | from any state that keeps the books, no step of any thread fails an assertion, and the books are kept |
| ClientProtocol.EveryRunIsSafe | deps/httplib/httplib.h:6194-6224 | in every interleaving of sends, nested sends and stops no assertion fails, and requests in flight mean the recorded thread holds the request mutex |
| ClientProtocol.StopCloses | deps/httplib/httplib.h:7346-7367 | a stop during a request that does not send again has the socket closed when the send returns, whatever happens in between |
| ClientProtocol.LostStops | deps/httplib/httplib.h:6262-6349 | the socket is closed at the end of the outermost send exactly if a stop came after the last send that began |
| ClientProtocol.SocketAtEnd | deps/httplib/httplib.h:6262-6349 | whatever threads do while a request is in flight, as long as connecting succeeds: when a send returns, the socket is open exactly if nothing has ended the connection since the last send began, be it a stop, a disconnect, or an answer that failed or asked to close |
| ClientProtocol.SectionsAssert | deps/httplib/httplib.h:6194-6218 | on which fields the assertions in the three sections fail |
| ClientProtocol.CloseFails | deps/httplib/httplib.h:6194-6218 | the assertion on closing fails exactly when requests of another thread are in flight |
| ClientProtocol.NestedSendLosesStop | deps/httplib/httplib.h:6262-6349 | a complete run in which a redirection loses the stop |
| ClientSections.ClientImpl.BeginRequest | deps/httplib/httplib.h:6262-6320 | the section on the fields is the protocol's step; the assertions in it hold; what each field is afterwards |
| ClientSections.ClientImpl.EndRequest | deps/httplib/httplib.h:6321-6349 | likewise |
| ClientSections.ClientImpl.StopClient | deps/httplib/httplib.h:7346-7367 | likewise |
| ThreadPool.InOrderAtMostOnce | deps/httplib/httplib.h:657-728 | in every run jobs start in queue order, none twice, and none completes twice or unstarted |
| ThreadPool.ShutdownDrains | deps/httplib/httplib.h:678-691 | with a worker, every job enqueued before the flag has completed exactly once when shutdown returns |
| ThreadPool.FlagCounts | deps/httplib/httplib.h:678-683 | how many jobs that are is what had been enqueued when the flag was set |
| ThreadPool.SectionsForm | deps/httplib/httplib.h:669-715 | what each section does to the queue, the flag, the sleepers and the books |
| ThreadPool.PromiseIffWorkers | deps/httplib/httplib.h:657-728 | that promise is kept in all runs exactly if the pool has a worker |
| ThreadPool.NoLostWakeUp | deps/httplib/httplib.h:669-710 | in every reachable state with a pending job or shutdown something can go on |
| ThreadPool.TaskQueue.Push | deps/httplib/httplib.h:669-673 | the section of enqueue on the real queue is the protocol's step |
| ThreadPool.TaskQueue.RequestShutdown | deps/httplib/httplib.h:680-683 | likewise for the flag |
| ThreadPool.TaskQueue.Look | deps/httplib/httplib.h:698-710 | a worker's section on the real queue is the protocol's step |
| Masking.MaskTwice | deps/websocketpp/frame.hpp:644-655 | masking twice is the identity |
| Masking.ShiftedByte | deps/websocketpp/frame.hpp:612-623 | for words of four and of eight bytes the shift rotates the memory image by that many bytes |
| MaskingLoops.ByteMask | deps/websocketpp/frame.hpp:644-655 | the loop follows the byte rule, in place or not |
| MaskingLoops.WordMaskExact | deps/websocketpp/frame.hpp:702-717 | a word at a time, then the rest: the byte rule's result, and nothing behind it written |
| MaskingLoops.WordMaskCirc | deps/websocketpp/frame.hpp:768-789 | every byte is combined with the pattern's byte at its position, and the key shifted on is returned |
| MaskingLoops.ByteMaskCirc | deps/websocketpp/frame.hpp:830-841 | the same with the pattern's first four bytes |
| MaskingLoops.MaskPieces | deps/websocketpp/frame.hpp:768-841 | any cut of a payload, any mixture of the two loops, either word size: handing the key on gives one pass of the byte rule |
| Utf8.AcceptsWellFormed | deps/websocketpp/utf8_validator.hpp:45-78 | the automaton of the table accepts exactly the sequences of characters of section 4 of RFC 3629 |
| Utf8.Accepted | deps/websocketpp/utf8_validator.hpp:69-78 | whenever it accepts, what was read is such a sequence and the number decoded is the last character's |
| Utf8.CharRun | deps/websocketpp/utf8_validator.hpp:69-78 | every character leads from acceptance back to it, with its number |
| Utf8.EncodeDecoded | deps/httplib/httplib.h:2092-2122 | a character's number is a scalar value and `to_utf8` gives the character back |
| Utf8.DecodeEncoded | deps/httplib/httplib.h:2092-2122 | `to_utf8` of a scalar value is a character with that number; of anything else it is nothing |
| Utf8.EncodeForm | deps/httplib/httplib.h:2092-2122 | the bytes of every number |
| Utf8.Absorbing | deps/websocketpp/utf8_validator.hpp:45-78 | once a byte has been refused nothing leads back |
| Utf8.Validator.Consume | deps/websocketpp/utf8_validator.hpp:91-96 | one byte through the two members, and whether it was refused |
| Utf8.Validator.Reset | deps/websocketpp/utf8_validator.hpp:129-132 | the validator is a new one |
| Utf8.Validator.Decode | deps/websocketpp/utf8_validator.hpp:105-120 | the loop follows the automaton and stops exactly at a refused byte |
| Utf8.Validate | deps/websocketpp/utf8_validator.hpp:143-149 | true exactly for sequences of characters |
| Md5.BlocksAppend | deps/md5/MD5.cpp:255-288 | the fold over whole blocks of two inputs is that of the second behind the first one's leftover |
| Md5.WordsOfEncode | deps/md5/MD5.cpp:141-159 | decode undoes encode |
| Bits.RotateLeftIs | deps/md5/MD5.cpp:82-84 | a rotation is the low bits times 2^n and the high bits over 2^(32 - n) |
| Bits.RotateLeftBit | deps/md5/MD5.cpp:82-84 | bit i moves to i + n, and round to the bottom |
| Md5.Choices | deps/md5/MD5.cpp:65-79 | F, G, H and I bit by bit |
| Md5.Table | deps/md5/MD5.cpp:171-241 | the 64 constants |
| Md5.WordsAndShifts | deps/md5/MD5.cpp:171-241 | the word each step takes and how far it shifts |
| Md5.StepForm | deps/md5/MD5.cpp:88-102 | what a step makes of the four words |
| Md5.BlockForm | deps/md5/MD5.cpp:165-249 | what the 64 steps make of a block is added to the state |
| Md5.BlocksForm | deps/md5/MD5.cpp:270-288 | every block in turn, and nothing for less than one |
| Md5.WordAt | deps/md5/MD5.cpp:141-147 | a block's words are low-order byte first |
| Md5.PaddedForm | deps/md5/MD5.cpp:302-325 | a one bit, zeros and the length in bits, up to a whole block |
| Md5.DigestForm | deps/md5/MD5.cpp:124-136 | the initial words, and the digest's bytes low-order first |
| Md5.HexForm | deps/md5/MD5.cpp:339-351 | two digits for each byte |
| Md5Hash.FourSteps | deps/md5/MD5.cpp:165-249 | four unrolled steps, with their words in rotating roles, are four steps of the table in section 3.4 of RFC 1321 |
| Md5Hash.Context.Transform | deps/md5/MD5.cpp:165-249 | the four unrolled rounds are the compression function |
| Md5Hash.Context.Update | deps/md5/MD5.cpp:255-288 | counter, state and buffer prefix stand for the message so far and the piece, for every piece that does not make the sum wrap |
| Md5Hash.Context.Finalize | deps/md5/MD5.cpp:302-334 | the digest is that of the padded message of sections 3.1 to 3.3 of RFC 1321, nothing is left over, the digest decodes to the state; a second call changes nothing |
| Md5Hash.NoWrapExact | deps/md5/MD5.cpp:270-288 | the loop's test is right wherever it can be asked exactly for lengths below the bound |
| Md5Hash.LoopRunsOn | deps/md5/MD5.cpp:270-279 | for every other length the loop gets, by right tests, to a place where the test passes and the block reaches past the end |
| Md5Hash.HashPieces | deps/md5/MD5.cpp:255-351 | however a message is cut, the digest is that of the whole |
| Mentions.NumberReadsBack | src/core/DiscordInstance.cpp:871-1012 | a decimal identifier is read back |
| MentionForms.Decimal | src/core/DiscordInstance.cpp:1008-1008 | digit i of an identifier as it is written, from the right |
| MentionForms.DecimalLength | src/core/DiscordInstance.cpp:1008-1008 | and no digit is superfluous |
| MentionForms.ReadNumber | src/core/utils/Util.cpp:265-272 | an identifier is the number behind white space; 0 from 2^63 on and for no number |
| MentionForms.ScanForm | src/core/DiscordInstance.cpp:1031-1063 | which piece is scanned next, and whether it is tried as a mention, by where the next mark stands |
| MentionForms.ScanEnd | src/core/DiscordInstance.cpp:1031-1065 | and the end of the scan |
| MentionMatches.AtMention | src/core/DiscordInstance.cpp:894-1011 | of the members, the roles that may be mentioned, or the recipients, the first of those typed longest is meant and sent as `<@id>` or `<@&id>`; if none fits the text stays |
| MentionMatches.NameMention | src/core/DiscordInstance.cpp:934-1011 | the same for channels, `<#id>`, and emoji, `<:name:id>`, in a server; elsewhere the text stays |
| Mentions.SegmentsPartition | src/core/DiscordInstance.cpp:1014-1066 | the scanned pieces make up the message, none twice and nothing left out |
| Mentions.NothingMatches | src/core/DiscordInstance.cpp:1014-1066 | without a match the message stays as it is |
| MentionRoundTrip.ReverseResolve | src/core/DiscordInstance.cpp:1014-1209 | every message without angle brackets comes back, when what may be mentioned in it is shown under the name it is matched by |
| MentionRoundTrip.MatchComesBack | src/core/DiscordInstance.cpp:871-1209 | a matched mention comes back exactly if it is shown under that name |
| MentionForms.ShownAt | src/core/DiscordInstance.cpp:1130-1150 | what is shown for a user, with or without the exclamation mark, and for a role; read aloud, without the at sign |
| MentionForms.ShownChannel | src/core/DiscordInstance.cpp:1152-1162 | what is shown for a channel that is known, and for one that is not |
| MentionForms.ShownEmoji | src/core/DiscordInstance.cpp:1164-1199 | what is shown and read aloud for an emoji, known in the server or not |
| MentionForms.ShownAsIs | src/core/DiscordInstance.cpp:1127-1203 | what is in brackets and no mention stays |
| MentionScan.TransformMention | src/core/DiscordInstance.cpp:871-1012 | the searches with a running longest match find the longest candidate, the first of several; `AtMention` and `NameMention` say which that is |
| MentionScan.ResolveMentions | src/core/DiscordInstance.cpp:1014-1066 | the scan by index and appending is the recursive translation |
| MentionScan.ReverseMentions | src/core/DiscordInstance.cpp:1068-1209 | likewise, its early return included |
| ChannelOrder.StrictTotalOrder | src/windows/ChannelViewOld.hpp:37-65 | on entries that are all direct messages, or none of them, the operator is a strict total order |
| ChannelOrder.MixedExactly | src/windows/ChannelViewOld.hpp:37-65 | when a direct message and another channel are each less than the other |
| ChannelOrder.SortedIsUnique | src/windows/ChannelViewOld.cpp:187-187 | there is only one ascending arrangement, so the algorithm does not matter |
| ChannelList.ChannelView.AddChannel | src/windows/ChannelViewOld.cpp:152-167 | an invisible channel is left out, an invisible category is not |
| ChannelList.ChannelView.CommitChannels | src/windows/ChannelViewOld.cpp:173-196 | indexing, sorting and the loop that erases in place leave the list the lemmas are about |
| ChannelGroups.CommittedList | src/windows/ChannelViewOld.cpp:173-196 | for all channels of a server: strictly ascending, every channel once, each category left right in front of the run of its channels, and left exactly if it has one or is taken for the parent of one whose parent is not listed |
| ChannelGroups.CommittedOrder | src/windows/ChannelViewOld.hpp:37-65 | that order field by field: position of the category, category, text before voice, position, identifier |
| ChannelGroups.IndexForm | src/windows/ChannelViewOld.cpp:175-185 | an entry shows its category's position, or 0 without one |
| ChannelGroups.MessageOrder | src/windows/ChannelViewOld.hpp:39-43 | direct messages on their own: the newest first, and all of them stay |
| ChannelGroups.OnlyUsedAreLeft | src/windows/ChannelViewOld.cpp:189-196 | categories are left exactly if they have channels, precisely when no empty category has such a channel behind it |
| ChannelGroups.ServerList | src/windows/ChannelViewOld.cpp:173-196 | in particular with positions from 0 up and every parent 0 or listed |
| ChannelGroups.LeftExactly | src/windows/ChannelViewOld.cpp:189-196 | with no rule about parents at all, a category is left exactly if some channel follows it before the next category |
| ImageCache.AvatarCache.MakeIdentifier | src/windows/AvatarCache.cpp:27-46 | the memo never answers anything but the plain function, and that is an identifier |
| ImageCache.IdentifierIs | src/windows/AvatarCache.cpp:27-46 | an identifier is its own identifier |
| ImageCache.IdentifierForm | src/windows/AvatarCache.cpp:27-46 | 32 lower-case digits are their own identifier, anything else has its MD5 digest |
| ImageCache.EvictionForm | src/windows/AvatarCache.cpp:245-275 | what may be evicted: no shared image, of an age, and none older |
| ImageCache.RoomForm | src/windows/AvatarCache.cpp:59-64 | up to 256 entries no room is made |
| ImageCache.AvatarCache.TrimBitmap | src/windows/AvatarCache.cpp:245-275 | evicts an oldest evictable entry and deletes its image, or nothing evictable has an age |
| ImageCache.AvatarCache.TrimBitmaps | src/windows/AvatarCache.cpp:277-289 | as many as asked for, or until nothing evictable has an age |
| ImageCache.AvatarCache.AgeBitmaps | src/windows/AvatarCache.cpp:291-296 | every entry is one tick older, so ages are the ticks since an entry was set or fetched |
| ImageCache.AvatarCache.SetImage | src/windows/AvatarCache.cpp:55-79 | the entry holds the image, as new; at most 257 entries are left unless all that could go are at most a tick old; every image keeps one owner; a place is inserted exactly if an entry without one is evicted, with what decides that before the call |
| ImageCache.RoomMade | src/windows/AvatarCache.cpp:59-64 | making room leaves the places as they are exactly if every entry evicted has one |
| ImageCache.AvatarCache.GetImageSpecial | src/windows/AvatarCache.cpp:101-203 | what it answers is what the cache then holds for the resource, as new; a hit changes nothing else; it is requested if it has a place and a URL that is not being loaded; the iterator is stale when used exactly if a place was inserted |
| ImageCache.AvatarCache.AddImagePlace | src/windows/AvatarCache.cpp:48-53 | the place is stored under the identifier, and nothing else changes |
| ImagePlaces.StaleIterator | src/windows/AvatarCache.cpp:112-199 | a run from the empty cache to a lookup that uses a stale iterator |
| ImageCache.AvatarCache.EraseBitmap | src/windows/AvatarCache.cpp:235-243 | the entry is gone, its image deleted |
| ImageCache.AvatarCache.WipeBitmaps | src/windows/AvatarCache.cpp:226-233 | every image handed over has been deleted |
| ImageCache.OneFate | src/windows/AvatarCache.cpp:303-307 | in every valid state an image handed over is in exactly one entry or deleted, not both |

## Left out

Protocol Buffers:

- A map entry with an empty vector: field tables hold only fields with objects, so `EraseField` and `IsEmpty` do not tell an erased field from an emptied one.
- `SetFieldNumber`, `Clear`, move construction and assignment, the getters of values, the settings other than the online indicator and the custom status.
- ProtoMerge.MergeWith: nothing is said of the objects after a merge that fails half way, nor from the point on where the code casts a leaf to a message.
- ProtoMerge.MergeMessages: the same.
- ProtoObjects.Obj.EraseField: an entry with an empty vector, which the code erases with true, does not exist in the model.
- ProtoExchange.LoadData: nothing is said of the tree after a failed merge, after which the code goes on to mark it clean.
- Deleting an object is modelled as detaching it; in a merge the source's vector is cleared before its objects are stored, not after.
- ProtoSettings.GetFieldObjectDefault: asks of its caller that an object of the wrong sort is empty; otherwise the code's assertion fails.
- A decoding hint is passed as a value instead of being kept in a message; `offset + length` does not wrap a 64-bit `size_t`; the machine is little-endian.

HTTP:

- The regular expression for Content-Disposition is replaced by a parser of the form the serialiser writes.
- MultipartRoundTrip.StreamedRoundTrip: asks for an opening boundary line within the first non-empty piece, as the code only finds it whole; preambles and epilogues are left out.
- Content receivers and progress callbacks that refuse, compressors that compress, trailers, and stream writes that take nothing without failing.
- Connecting, TLS and what a request does while its mutex is held are labels with any outcome; sections under the socket mutex are atomic steps.
- ThreadPool: a job is a number, and runs without failing.

Bytes:

- Masking on big-endian machines; the header functions of frame.hpp.
- MD5's shifted bytes are sums rather than disjunctions, the automaton's masks are arithmetic.
- Characters behind a NUL in `strncmp` of header names.

Application:

- Name lookups are maps; the search orders of users, roles, channels and emoji are given lists.
- The list box, and `m_idToIdx`.
- Decoding images, and what becomes of a request; `m_age` does not overflow.
- ImageCache.AvatarCache.GetImageSpecial: which of several least recently used entries goes depends on the order of the hash table, which the model leaves open.
- ProtoIndicator.SetOnlineIndicator: looks the state up before it creates what is missing; the code creates first, and no state is empty.
- Gateway and REST plumbing, JSON, voice, windows: no deep state, or classes that are not part of this model.
