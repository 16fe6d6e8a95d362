# Verified models of Suricata's stateful parsers and tables

Dafny models of the parts of an early Suricata that carry state from one call to
the next, and proofs of what they promise over whole runs. Every routine that
updates state is a method on a class or an array, tied by its contract to a
function on values; the lemmas are about those functions.

| file | part of the system |
|---|---|
| `Bytes.dfy` | byte strings, concatenation of chunks, single-pattern search |
| `FieldParser.dfy` | fields cut by size, by end of stream and by delimiter out of chunks |
| `TlsRecords.dfy`, `TlsChunks.dfy` | the multi-record walk over TLS chunks, against a reader of single bytes |
| `TlsSession.dfy` | the TLS handlers in both directions and what the history of types means |
| `FtpRequests.dfy` | FTP control lines and the two-level command parse |
| `AppLayer.dfy` | the entry point for the messages of a flow, for any protocol |
| `TlsFlow.dfy`, `FtpFlow.dfy` | the TLS and FTP parsers registered among all others, and whole runs of messages through them |
| `ResultPool.dfy`, `FieldDispatch.dfy` | result elements drawn from a pool, linked lists of them, and their recursive dispatch |
| `FieldMap.dfy`, `ParserTables.dfy` | the map from field ids to parsers, and what a lookup gives among all registrations |
| `HttpTransactions.dfy`, `HttpFlow.dfy` | transaction ids advanced by parser, detector and logger |
| `DcerpcStub.dfy`, `DcerpcBind.dfy`, `DcerpcParser.dfy`, `DcerpcRuns.dfy` | DCERPC PDUs: stub reassembly, context lists, the parser, and runs of all kinds of PDUs |
| `SmbHeaders.dfy`, `SmbParser.dfy` | the NetBIOS session header and the SMB header across chunks |
| `ConfTree.dfy` | the configuration tree as a value, and the map it implements |
| `ConfHeap.dfy`, `ConfStore.dfy` | configuration nodes as linked objects, and get, set and remove on them |
| `ConfYaml.dfy`, `ConfLoader.dfy` | the recursive consumer of YAML events, on the tree and on linked nodes |
| `ProtoSignatures.dfy`, `ProtoWalk.dfy`, `ProtoIndex.dfy` | the protocol detector's signature list, the walk over reported ids, and the index by pattern id |
| `Ipv6Headers.dfy`, `Ipv6Decoder.dfy` | the walk over IPv6 extension headers |
| `Ipv4Checksum.dfy` | the unrolled IPv4 header checksum |

`dafny verify dfyconfig.toml` checks the whole project.

Memory allocation always succeeds; the pool of 1000 result elements can run out. The multi-pattern matcher, libyaml and libhtp are
inputs: a list of reported pattern ids, a sequence of events, and a sequence of
callbacks.

What the proofs brought to light, each stated for all inputs:

- A TLS chunk, however short, yields nothing if the ends of more than 1000 header
  fields are in it, and the flow is not inspected any more
  (`TlsChunks.ChunkedRunEmitsEveryHeader`, `TlsChunks.EmptyRecordsInOneChunk`).
- A delimiter search copes with a chunk if and only if it completes at most one
  line with nothing behind it, and with a run of chunks if and only if it copes
  with each (`FtpRequests.ExactlyOneLineAtATime`, `FtpRequests.RunSplitsExactly`).
- The FTP command is never reset, so after a PORT every later line with a space
  replaces the port line (`FtpRequests.LastSpacedLineIsThePortLine`).
- A first DCERPC fragment is kept whole if and only if one chunk carries all of
  its stub (`DcerpcStub.FirstFragmentKeptWhole`); a data PDU shorter than 24
  bytes, unless it is 16, leaves the parser stuck for good.
- The padding of a BIND_ACK is remembered: those with an address of a given
  length are all read right if and only if there is padding behind it or none was
  ever remembered (`DcerpcBind.ResultsAreFoundExactly`).
- A chunk boundary behind the third byte of the NetBIOS header, and only that
  one, loses the message (`SmbHeaders.HeadersCompleteExactly`).
- A field parser registered with the largest 16-bit id empties its protocol's map
  (`FieldMap.LookupIsLastRegistered`).
- Reported pattern ids are counted in one byte: the detector stops if and only if
  at most 255 are reported or one of the first 256 leads to a match
  (`ProtoIndex.StopsUnlessTheCounterWraps`).
- IPv6 extension headers are walked as they were written if and only if there is
  no routing and no authentication header among them: the code sizes these two
  otherwise than the standards (`Ipv6Headers.EncodedChainIsWalked`).
- The checksum folds its carries once; when that carries again the result is one
  too large (`Ipv4Checksum.OneFoldIsEnoughUnlessItCarries`).
- A YAML document is loaded as what it stands for if and only if no mapping
  repeats a key and no sequence is directly inside a sequence
  (`ConfYaml.LoadBuildsTheDocument`).
- `AppLayerTransactionUpdateInspectId` is documented to return 1 when a
  transaction is done but no other is available; the code never does
  (`HttpFlow.State.AppLayerTransactionUpdateInspectId`).

## Model

| member | source | states |
|---|---|---|
| `FieldParser.AlpParseFieldBySize` | src/app-layer-parser.c:175-234 | stores the bytes while the field is short, and otherwise emits exactly its bytes and moves the offset just behind them; with no result element left it answers -1, moves nothing, and the field stays stored if some of it was before |
| `FieldParser.BySizeIgnoresChunking` | src/app-layer-parser.c:175-234 | for every chunking the field is the first `size` bytes of the stream and exactly the bytes behind it stay unconsumed |
| `FieldParser.AlpParseFieldByEOF` | src/app-layer-parser.c:242-306 | nothing is emitted before the end of the stream, everything stored is at it, or -1 if there is no result element left |
| `FieldParser.ByEofEmitsTheWholeStream` | src/app-layer-parser.c:242-306 | for every chunking the one field is the whole concatenation |
| `FieldParser.AlpParseFieldByDelimiter` | src/app-layer-parser.c:313-463 | emits the stored bytes up to the first delimiter of the chunk; the joined bytes are searched only when the chunk is shorter than the delimiter; with no result element left it answers -1 and the bytes taken so far stay stored |
| `TlsRecords.ReadRecords` | src/app-layer-tls.c:173-286 | the byte-wise reader recovers type, version and length of every record of an encoded stream (RFC 5246, section 6.2.1) |
| `TlsRecords.WalkStep` | src/app-layer-tls.c:190-286 | cutting a field keeps the loop where the byte-wise reader is: at the next field, at the next record inside the chunk, or behind the whole chunk |
| `TlsRecords.WalkFails` | src/app-layer-tls.c:204-246 | a field for which there is no result element makes the call one with more fields than elements, and leaves what such a call leaves |
| `TlsRecords.WalkField` | src/app-layer-tls.c:190-286 | cuts one field and behind a length looks for another record; in progress and in error what it leaves is the answer of the whole call |
| `TlsRecords.TLSParseRecord` | src/app-layer-tls.c:173-286 | for every chunk and resumable state the loop that raises its own bound ends and no 16-bit counter wraps; it outputs what the byte-wise reader reads if that fits the result elements left, and otherwise fails with as many fields as there were elements |
| `TlsChunks.BoundaryMeansNothingToSkip` | src/app-layer-tls.c:204-286 | a boundary lies inside a header or between records if and only if no body bytes are outstanding there |
| `TlsChunks.RunIsRead` | src/app-layer-tls.c:173-286 | calls that all resume with nothing to skip emit what reading the whole stream at once would, up to the first chunk in which more fields end than there are result elements, which is the last |
| `TlsChunks.ChunkedRunEmitsHeaders` | src/app-layer-tls.c:190-286 | for every record sequence and every chunking that cuts only inside headers or between records, the calls emit in order exactly the headers that end before the first overfull chunk |
| `TlsChunks.ChunkedRunEmitsEveryHeader` | src/app-layer-tls.c:190-286 | so they emit the whole list of record headers if and only if no chunk holds the ends of more header fields than there are result elements |
| `TlsChunks.EmptyRecordsInOneChunk` | src/app-layer-parser.c:1152-1152 | n empty records in one chunk are read if and only if 3n is at most 1000; of 334 of them, in 1670 bytes, nothing is emitted |
| `TlsChunks.BoundaryConditionIsExact` | src/app-layer-tls.c:262-286 | forgetting the outstanding body bytes is harmless for every continuation if and only if there are none |
| `TlsSession.TlsState.TLSParseClientContentType` | src/app-layer-tls.c:69-121 | computes the table's parser: it ends inspection on application data only if both change-cipher-specs were seen before it, and refuses fields that are not one byte |
| `TlsSession.TlsState.TLSParseServerContentType` | src/app-layer-tls.c:466-513 | computes the table's parser: it sets its flag first and then tests the client's last type |
| `TlsFlow.TlsTableIsRanked` | src/app-layer-tls.c:541-557 | with the TLS parsers registered anywhere among any other parsers, the recursion through them ends: records output content types, versions and lengths, and these parsers nothing |
| `TlsFlow.ParseDelivers` | src/app-layer-parser.c:779-905 | a message is delivered to the session as the byte-wise reader reads it; a gap, or more header fields than result elements, closes the flow and leaves the session as it was; a direction that is done ignores it |
| `TlsFlow.EveryRunIsExplained` | src/app-layer.c:139-168 | in every run of messages in both directions, with gaps, stream ends and exhausted pools, the flags mean exactly what the history of the types read says, and payload inspection is off if and only if a direction ended it |
| `TlsFlow.FlowFollowsRun` | src/app-layer.c:139-168 | the chunks of one direction alone, as long as it is not done, leave the flow and the session where the calls of the record parser on them say |
| `TlsSession.EveryInterleavingIsExplained` | src/app-layer-tls.c:84-115 | in every interleaving of client and server deliveries all flags mean exactly what the history of accepted types says |
| `TlsSession.NoInspectionNeedsEncryption` | src/app-layer-tls.c:481-513 | no inspection in either direction implies both change-cipher-specs and a client application-data record |
| `TlsSession.FlagsNeverClear` | src/app-layer-tls.c:84-115 | no later delivery clears a flag |
| `TlsSession.ServerSilentAfterChange` | src/app-layer-parser.c:848-851 | after a server change-cipher-spec no server chunk alters the session, whatever came in between |
| `TlsSession.ClientEndedAtSomePoint` | src/app-layer-tls.c:84-115 | the recursive reading of the history agrees with the existence of one deciding client record |
| `TlsSession.ServerEndedAtSomePoint` | src/app-layer-tls.c:481-513 | the same for the server |
| `FtpRequests.ExactlyOneLineAtATime` | src/app-layer-parser.c:313-463 | with no delimiter stored, a chunk is cut as the stream's lines are if and only if it is one byte, or completes no line, or ends exactly with a delimiter that lies in it |
| `FtpRequests.SecondLineIsDropped` | src/app-layer-parser.c:313-463 | whatever follows a line in its chunk is neither emitted nor stored, though the stream has it |
| `FtpRequests.RunSplitsTheStream` | src/app-layer-ftp.c:166-190 | every such run emits exactly the split of the stream on CRLF and never leaves a delimiter in the store |
| `FtpRequests.RunSplitsExactly` | src/app-layer-parser.c:313-463 | a run of non-empty chunks is cut as the stream's lines are if and only if every chunk is one the search copes with: no later chunk makes up for what one loses |
| `FtpRequests.BytePerCallSplitsOnCrlf` | src/app-layer-ftp.c:166-190 | fed one byte per call, every control stream is split exactly on CRLF |
| `FtpRequests.NoPortLine` | src/app-layer-ftp.c:60-80 | there is a port line if and only if some line with a space starts with "port" in any case |
| `FtpRequests.LastSpacedLineIsThePortLine` | src/app-layer-ftp.c:105-147 | once there is one, the port line is the last line with a space |
| `FtpRequests.LaterCommandReplacesThePortLine` | src/app-layer-ftp.c:123-137 | any line with a space that follows a PORT line becomes the port line |
| `FtpRequests.FtpState.FTPParseRequestCommandLine` | src/app-layer-ftp.c:93-151 | the two-field loop computes the table's command-line parser from any state, also when the command finds no result element |
| `FtpFlow.FtpTableIsRanked` | src/app-layer-ftp.c:268-276 | with the FTP parsers registered anywhere among any other parsers, the recursion through them ends: requests output lines, command lines and responses nothing that has a parser |
| `FtpFlow.ParseExecutes` | src/app-layer-parser.c:779-905 | a client message, also the last of the stream, executes exactly the line it completes, if there is an element for it, and leaves the store as the cut does; a server message leaves the protocol's state alone |
| `FtpFlow.RunExecutesTheLines` | src/app-layer-parser.c:779-905 | in every interleaving of client and server messages, with two result elements at hand, no gaps and nothing from the client behind the end of its stream, the lines cut from the client's stream have been executed in order, up to its end |
| `FtpFlow.FlowExecutesTheStream` | src/app-layer-parser.c:779-905 | in the same runs, when each chunk of the client completes at most one line, the protocol's state is that of the stream's own lines |
| `ResultPool.Pool.PoolGet` | src/util-pool.c:139-173 | fails exactly when every bucket's element is out; otherwise hands out one that was not |
| `ResultPool.Pool.PoolReturn` | src/util-pool.c:175-204 | an element given back is available again; a bucket for it is never missing |
| `ResultPool.Result.AlpAppendResultElmt` | src/app-layer-parser.c:129-140 | head, tail and count keep describing one list, longer by the element |
| `ResultPool.Result.AlpStoreField` | src/app-layer-parser.c:147-167 | takes one element nobody holds and adds the field, or fails and changes nothing exactly when the pool is exhausted |
| `ResultPool.Result.AppLayerParserResultCleanup` | src/app-layer-parser.c:646-660 | gives back every element of the list once and leaves it empty |
| `FieldDispatch.AppLayerDoParse` | src/app-layer-parser.c:662-728 | on success, parser error and nested error alike the set of elements out is as before, nothing an enclosing call holds is touched, and states and result are those of the dispatch function; the recursion ends for ranked tables |
| `FieldDispatch.DispatchAll` | src/app-layer-parser.c:684-725 | the loop over the linked list carries out the dispatch of its fields in order and stops at the first failure |
| `ParserTables.DispatchKeepsPosition` | src/app-layer-parser.c:703-714 | whatever the inner parsers do, the outer field position survives and no end-of-input flag stays behind |
| `AppLayer.Flow.AppLayerParse` | src/app-layer-parser.c:779-935 | for any protocol the parsers run on the state and the parser state of their direction, every result element goes back, and gaps, directions that are done, stream ends and errors have the stated effect on the flow |
| `AppLayer.Flow.AppLayerHandleMsg` | src/app-layer.c:139-139 | a flow closed by an error or by its parsers gets no more messages |
| `ParserTables.LookupRegistered` | src/app-layer-parser.c:693-701 | among the registrations of all protocols, a protocol's lookups lead exactly from the ids it registered to the parsers it registered for them |
| `FieldMap.Registry.AppLayerParsersInitPostProcess` | src/app-layer-parser.c:1194-1252 | builds for every protocol a map whose entry for each field is the last parser registered for it |
| `FieldMap.LookupIsLastRegistered` | src/app-layer-parser.c:693-701 | for every field id the lookup gives the last registered parser, and none if and only if there is none, exactly when no parser has local id 65535 |
| `FieldMap.LargestIdEmptiesTheMap` | src/app-layer-parser.c:1218-1232 | with a parser of local id 65535 another field's registered parser is not found |
| `HttpTransactions.FinishKeeps` | src/app-layer-htp.c:205-242 | after a parsed chunk the inspected id is below the available one if and only if the 16-bit transaction count had room |
| `HttpTransactions.StepKeeps` | src/app-layer-parser.c:731-765 | every step of parser, detector or logger keeps the counters ordered and equal to what the history says |
| `HttpTransactions.EveryRunKeepsTheInvariant` | src/app-layer-parser.c:901-906 | so does every run below 65535 completed requests |
| `HttpTransactions.EveryInterleavingIsLawful` | src/app-layer-parser.c:1085-1125 | in every interleaving ids are freed once each in ascending order, only after an inspection in each direction and, with a logger, after being logged, and only transactions below the base id are destroyed |
| `HttpFlow.State.AppLayerTransactionsCleanup` | src/app-layer-parser.c:731-765 | frees from the base id up to the inspected id, or to the logged one if that is lower and there is a logger |
| `HttpFlow.State.HTPCallbackResponse` | src/app-layer-htp.c:761-784 | destroys exactly the transactions below the mark that are still there |
| `HttpFlow.State.AppLayerParse` | src/app-layer-parser.c:779-906 | a chunk has the effect of one step, whether the library is in error, fails or parses |
| `HttpFlow.State.AppLayerTransactionUpdateInspectId` | src/app-layer-parser.c:1085-1125 | advances only when both directions were inspected and another id is available, and never answers 1 |
| `HttpFlow.State.LogHttpLog` | src/log-httplog.c:128-211 | logs the present transactions from the logged id to the loggable one |
| `DcerpcStub.HdrRoundTrip` | src/app-layer-dcerpc.c:961-1010 | every header in either byte order is read back as it was written |
| `DcerpcStub.PieceByPiece` | src/app-layer-dcerpc.c:898-951 | while a PDU arrives, in any pieces behind its first 24 bytes, the bytes are counted, back at zero exactly when it is complete, and the buffer is what the pieces make of it |
| `DcerpcStub.LaterFragmentIsAppended` | src/app-layer-dcerpc.c:920-938 | a later fragment is appended whole whatever its pieces |
| `DcerpcStub.FirstFragmentKeptWhole` | src/app-layer-dcerpc.c:920-938 | a first fragment ends up as its whole stub if and only if one piece carries all of it, or none and the buffer was empty |
| `DcerpcStub.SplitFirstFragmentLosesBytes` | src/app-layer-dcerpc.c:920-938 | a first fragment in any two pieces is left with the second |
| `DcerpcStub.RunsReassemble` | src/app-layer-dcerpc.c:1296-1340 | in every run of requests and responses each buffer is the concatenation of the stub bytes since the last first fragment of its type, and no byte is counted between PDUs (C706, section 12.6.4.9) |
| `DcerpcStub.CompleteUnlessTooShort` | src/app-layer-dcerpc.c:1296-1340 | a chunk as long as its PDU completes it if and only if the announced length is 16 or at least 24 |
| `DcerpcStub.TwentyBytesAreTooFew` | src/app-layer-dcerpc.c:1296-1340 | a concrete REQUEST that announces 20 bytes leaves the parser stuck |
| `DcerpcStub.StuckForGood` | src/app-layer-dcerpc.c:1296-1340 | a PDU of another length leaves a state that no later chunk gets out of |
| `DcerpcBind.ItemRoundTrip` | src/app-layer-dcerpc.c:232-262 | every offered interface, with its identifier's byte order and versions, is read back as it was written |
| `DcerpcBind.BindListsItsContexts` | src/app-layer-dcerpc.c:226-285 | a whole BIND ends with its contexts in descending order if and only if its items are numbered from zero on (C706, section 12.6.4.3) |
| `DcerpcBind.EveryResultIsRead` | src/app-layer-dcerpc.c:1216-1280 | with padding behind its address, or none ever remembered, a BIND_ACK ends with all its results assigned in order |
| `DcerpcBind.ResultsAreFoundExactly` | src/app-layer-dcerpc.c:1216-1280 | all BIND_ACKs with an address of a given length are read right if and only if there is padding behind it or none was ever remembered, whatever else the state is |
| `DcerpcBind.AnswersAreMatched` | src/app-layer-dcerpc.c:506-532 | after a BIND and a BIND_ACK with as many results, for any address length, context i has the i-th offer and the i-th result, and both counters are zero (C706, section 12.6.4.4) |
| `DcerpcBind.RememberedPaddingLosesResults` | src/app-layer-dcerpc.c:1216-1240 | after any BIND_ACK with padding, for every length of address without there is a BIND_ACK with one result that is not read |
| `DcerpcParser.Dcerpc.StubDataParser` | src/app-layer-dcerpc.c:898-951 | takes as many stub bytes as are due, starting the buffer anew in a first fragment |
| `DcerpcParser.Dcerpc.ParseBind` | src/app-layer-dcerpc.c:1134-1178 | the loops over a BIND have the stated effect, for items in order and at the first that is not |
| `DcerpcParser.Dcerpc.ParseAck` | src/app-layer-dcerpc.c:1180-1294 | the loops over address, padding, count and results have the stated effect in every state between PDUs, with any padding remembered and its counter anywhere, item by item or byte by byte |
| `DcerpcParser.Dcerpc.DCERPCParser` | src/app-layer-dcerpc.c:1095-1357 | one call dispatches on the type of the PDU under way and has the effect of that branch |
| `DcerpcParser.DataRunsAreCovered` | src/app-layer-dcerpc.c:1095-1357 | in every run of chunks of data PDUs each call is one that the parser makes as stated, and call by call it ends where the run of stub calls does |
| `DcerpcParser.RunsAreParsed` | src/app-layer-dcerpc.c:1095-1357 | every run of requests and responses in any pieces is such a run of chunks, so the parser's calls on it leave what the reassembly says |
| `DcerpcParser.TailIsDropped` | src/app-layer-dcerpc.c:1296-1340 | what follows a complete data PDU in its chunk has no effect |
| `DcerpcRuns.BindTailIsDropped` | src/app-layer-dcerpc.c:1134-1178 | nor has what follows a BIND in its chunk |
| `DcerpcRuns.AckTailIsDropped` | src/app-layer-dcerpc.c:1180-1294 | nor has what follows a BIND_ACK in its chunk, if its results are found |
| `DcerpcRuns.MixedRunsAreRead` | src/app-layer-dcerpc.c:1095-1357 | in every run of data PDUs in pieces, BINDs and BIND_ACKs, each with anything behind it in its last chunk, every call is one that the parser makes as stated, no bytes behind a PDU are ever read, and the stub buffers are those of the data PDUs alone |
| `SmbHeaders.ByteByByteIsDecode` | src/app-layer-smb.c:822-1013 | the 32 bytes one after the other put every field together from the bytes at its place, or fail exactly when the magic is wrong (MS-CIFS, section 2.2.3.1) |
| `SmbHeaders.HeadersIgnoreChunking` | src/app-layer-smb.c:1029-1064 | for every chunking with no boundary behind three bytes the state is that of the bytes so far, whatever it was before |
| `SmbHeaders.HeadersAtOnce` | src/app-layer-smb.c:767-812 | one chunk with both headers decodes length and fields |
| `SmbHeaders.HeadersCompleteExactly` | src/app-layer-smb.c:767-812 | a longer message's headers are all in, and as if they had come at once, if and only if no chunk starts behind the third byte |
| `SmbHeaders.ThirdByteBoundaryDropsTheRest` | src/app-layer-smb.c:775-775 | cut behind the third byte, any message's headers are dropped from there on |
| `SmbParser.SmbState.NBSSParseHeader` | src/app-layer-smb.c:767-812 | fast path and slow path have one effect, and nothing is read behind the third byte (RFC 1002, section 4.3.1) |
| `SmbParser.SmbState.SMBParseHeader` | src/app-layer-smb.c:822-1013 | fast path and slow path have one effect, and a wrong magic changes nothing |
| `SmbParser.SmbState.SMBParse` | src/app-layer-smb.c:1015-1064 | one call with a chunk of the headers has the stated effect, with its error and end-of-message resets |
| `ConfTree.SetInfo` | src/conf.c:161-218 | after a set the name has the new value unless it was locked, every other existing name is untouched, and the only new names are missing prefixes without a value |
| `ConfTree.SetOnLockedChangesNothing` | src/conf.c:161-218 | setting a locked name changes nothing at all |
| `ConfTree.RemoveInfo` | src/conf.c:377-405 | removing deletes exactly the name and its extensions |
| `ConfTree.TreeRefinesMap` | src/conf.c:161-218 | over every run of sets and removals the tree implements a map from token paths to values and locks, and sibling names stay distinct |
| `ConfHeap.UpdateAt` | src/conf.c:120-141 | exchanging the objects below a node while all others keep their fields exchanges that subtree of the tree they hold and nothing else |
| `ConfStore.Conf.ConfGetNode` | src/conf.c:120-141 | the node found stands where the name leads, and there is none if and only if the name does not exist |
| `ConfStore.Conf.ConfGet` | src/conf.c:236-249 | finds exactly the existing names, with their values |
| `ConfStore.Conf.ConfSet` | src/conf.c:161-218 | the linked nodes hold the tree after the set, parent pointers stay right, and the answer is 0 if and only if the name exists and is locked |
| `ConfStore.Conf.ConfRemove` | src/conf.c:393-405 | the linked nodes hold the tree after the removal, and the answer says whether the name existed |
| `ConfStore.Conf.ConfNodeRemove` | src/conf.c:377-383 | unlinks the node through its parent pointer and keeps all others in order |
| `ConfYaml.LoadReadsTheDocument` | src/conf-yaml-loader.c:54-177 | loading any mapping or sequence into any tree consumes all its events and reads repeated keys into the node they have and nested sequences into the outer one |
| `ConfYaml.LoadBuildsTheDocument` | src/conf-yaml-loader.c:54-177 | loading a document into an empty tree consumes all its events and builds exactly its tree if and only if it is a mapping or sequence in which no mapping repeats a key and no sequence is directly in a sequence |
| `ConfYaml.NestedSequenceRepeatsNames` | src/conf-yaml-loader.c:131-136 | behind a non-empty sequence at the head of a sequence, the next element has the name of the first |
| `ConfYaml.LayerExtends` | src/conf-yaml-loader.c:90-158 | any event sequence in any state of a layer keeps every child's place and every locked value |
| `ConfYaml.LockedValueIsFinal` | src/conf.c:161-218 | a value set without permission to override survives every later interleaving of sets and loads of arbitrary events |
| `ConfLoader.ConfYamlParse` | src/conf-yaml-loader.c:54-177 | the recursive loop on linked nodes fills the subtree of its node as the layer function does, consumes the same events and leaves all else as it is |
| `ProtoSignatures.MatchSignatureFindsTheWindow` | src/app-layer-detect-proto.c:142-174 | a signature gives its protocol if and only if protocol, depth and an occurrence between offset and depth agree |
| `ProtoSignatures.BucketHolds` | src/app-layer-detect-proto.c:301-314 | a bucket holds exactly the signatures with its pattern id, so each signature is in one |
| `ProtoSignatures.CutLosesNoMatch` | src/app-layer-detect-proto.c:436-440 | cutting the buffer to the longest depth neither loses nor adds an occurrence in a window |
| `ProtoIndex.DetectCtx.AlpProtoAdd` | src/app-layer-detect-proto.c:189-225 | puts the new signature first and its pattern into one direction; ids are shared by equal patterns, and the depth bounds of the direction hold |
| `ProtoIndex.DetectCtx.AlpProtoFinalizeGlobal` | src/app-layer-detect-proto.c:281-315 | every index entry leads to the newest signature with its id and every signature to the next older one |
| `ProtoIndex.ChainsAreBuckets` | src/app-layer-detect-proto.c:301-314 | following the index from an id visits exactly the registered signatures with it, newest first |
| `ProtoIndex.DetectCtx.AppLayerDetectGetProto` | src/app-layer-detect-proto.c:418-475 | for any number of reported ids the loop takes the steps of the walk, with the id counter in one byte; it ends whenever the walk does, with the protocol at which it does |
| `ProtoIndex.UnknownExactly` | src/app-layer-detect-proto.c:436-475 | the answer is unknown if and only if no signature with a reported id gives a protocol |
| `ProtoIndex.NoMatchIsMissed` | src/app-layer-detect-proto.c:436-440 | a matching signature of the direction is never missed because the search was cut |
| `ProtoIndex.StopsUnlessTheCounterWraps` | src/app-layer-detect-proto.c:461-474 | the walk stops if and only if at most 255 ids were reported or one of the first 256 leads to a match, and then with the first match in the order of the ids and their chains |
| `ProtoIndex.EveryByteReported` | src/app-layer-detect-proto.c:461-474 | with every single byte as a TCP pattern, a UDP packet with all bytes has all 256 ids reported and the walk never stops |
| `ProtoIndex.OnePatternPerByte` | src/app-layer-detect-proto.c:189-225 | such a context can be built: 256 patterns of one direction with ids 0 to 255 |
| `Ipv6Headers.WalkIsChained` | src/decode-ipv6.c:49-371 | for any bytes each header has the kind the one before announces and starts where that ends by the code's sizes, and the walk stops right behind them inside the packet |
| `Ipv6Headers.EncodedChainIsWalked` | src/decode-ipv6.c:49-371 | a chain of headers as the standards size them (RFC 2460, sections 4.3 to 4.6; RFC 4302, section 2.2) before a TCP or UDP payload is walked as it was written, up to exactly the payload, if and only if it has no routing and no authentication header |
| `Ipv6Headers.RoutingHeaderIsTruncated` | src/decode-ipv6.c:70-84 | a concrete packet: a routing header with one address before a TCP header is taken for truncated |
| `Ipv6Headers.AuthHeaderSwallowsFourBytes` | src/decode-ipv6.c:328-360 | a concrete packet: behind an authentication header of 24 bytes the transport decoder starts four bytes too late |
| `Ipv6Headers.EspIsLast` | src/decode-ipv6.c:296-324 | a repeated ESP header ends the walk only if one was remembered from before it |
| `Ipv6Headers.FirstOfEachKind` | src/decode-ipv6.c:70-361 | a fresh packet remembers the first header of each kind, the first two destination options, and one event for each further header |
| `Ipv6Decoder.FirstFortyRecorded` | src/decode-ipv6.c:81-88 | the first forty headers are recorded in order, no more |
| `Ipv6Decoder.FreshPacketKeeps` | src/decode-ipv6.c:49-371 | for any bytes, a fresh packet ends up with the first header of each kind of the walk, its first two destination options, one event for each further header, its first forty headers recorded, and the exact rest of the input for the transport decoder |
| `Ipv6Decoder.Packet.TakeOptions` | src/decode-ipv6.c:124-254 | an options header is refused, recorded, remembered or reported as a repetition; its options always fit, so that event is never raised |
| `Ipv6Decoder.Packet.DecodeIPV6ExtHdrs` | src/decode-ipv6.c:49-371 | the loop ends and leaves in the packet exactly the walk's headers; the transport decoder gets the exact rest of the input |
| `Ipv4Checksum.IPV4CalculateChecksum` | src/decode-ipv4.h:261-308 | for every header length the unrolled sum is that of all words but the checksum, without leaving 32 bits |
| `Ipv4Checksum.OneFoldIsEnoughUnlessItCarries` | src/decode-ipv4.h:304-307 | the result is the checksum of RFC 1071, section 1, when the one fold leaves 16 bits, and one more than it otherwise |
| `Ipv4Checksum.ReceiverAccepts` | src/decode-ipv4.h:304-307 | a header with the result filled in adds up to all ones if and only if the fold does not carry again |
| `Ipv4Checksum.AFoldThatCarries` | src/decode-ipv4.h:304-307 | such a header exists |

## Left out

- FieldParser.AlpParseFieldBySize: requires what is stored of a field to be no longer than the field, as its calls leave it, and does not model the 32-bit wrap-around of stored plus new length; streams of four gigabytes in one field are not covered.
- FieldParser.Output: the result list is a sequence with the number of elements left there; the linked list drawn from the pool is modelled in `ResultPool.dfy` and `FieldDispatch.dfy`.
- TlsChunks.ChunkedRunEmitsEveryHeader: does not cover boundaries inside a record body, which the code does not carry across calls (`TlsChunks.BoundaryConditionIsExact`).
- TlsFlow.EveryRunIsExplained: the same number of result elements is at hand for every message; elements that other threads hold meanwhile are not followed from message to message.
- FtpFlow.RunExecutesTheLines: is for at least two result elements (a single message with fewer is covered by `FtpFlow.ParseExecutes`), for runs without gaps, and for runs in which the client's stream ends with its last message.
- FtpFlow.FlowExecutesTheStream: is for the same runs.
- FtpRequests.FtpState.FTPParseResponse: the numeric response code is not kept.
- AppLayer.Flow.AppLayerParse: flows are TCP, their protocol is known and their storage exists; transaction ids are modelled in `HttpFlow.dfy`.
- AppLayer.Flow.AppLayerHandleMsg: the detection of a protocol that is still unknown is not part of it.
- FieldDispatch.AppLayerDoParse: a parser is a function of the states, its input and the number of elements left; unknown negative answers, which abort the program, are not part of this model.
- ResultPool.Pool.PoolGet: pools without a limit on their buckets are not part of this model.
- DcerpcParser.Dcerpc.DCERPCParser: does not cover a 16-byte header, a BIND or a BIND_ACK that arrives in pieces, because that code does not compute the same values as the path for whole ones; the 32-bit length of the stub buffer is unbounded.
- DcerpcParser.Dcerpc.ParseBind: covers chunks with a whole BIND whose items offer one transfer syntax each.
- DcerpcParser.Dcerpc.ParseAck: covers chunks with a whole BIND_ACK, shorter than the 16-bit count of bytes allows.
- DcerpcRuns.MixedRunsAreRead: is for BINDs with their items numbered in order (`DcerpcBind.BindListsItsContexts`) and BIND_ACKs whose results are found (`DcerpcBind.ResultsAreFoundExactly`); the others can stay under way and take the chunks behind them.
- SmbParser.SmbState.SMBParseHeader: covers input that ends with the header.
- SmbParser.SmbState.SMBParse: covers chunks that end inside or right behind the two headers; word counts, byte counts and AndX chains are not part of this model.
- ConfStore.Conf.ConfRemove: requires right parent pointers, which nodes created by the YAML loader do not have.
- ConfStore.Conf.ConfNodeRemove: requires the node to have its parent pointer set right; releasing the memory of the removed subtree is not part of this model.
- ConfLoader.ConfYamlParse: a name longer than the fixed buffer of a sequence index is not cut off.
- ProtoIndex.DetectCtx.AlpProtoAdd: requires the offset not to exceed the depth, which the source leaves to its callers.
- ProtoIndex.DetectCtx.AlpProtoFinalizeGlobal: is for one call; a second one would link a signature to itself.
- Ipv6Decoder.Packet.TakeOptions: the options inside the header are not decoded.
- Ipv6Decoder.Packet.DecodeIPV6ExtHdrs: options inside a header and the bytes of a routing header that are overwritten in place (its length, its addresses) are not modelled; they lie behind the header's first byte and before its end.
- SMB2, DCERPC over UDP, transactions and named pipes over SMB.
- Backup and restore of the configuration, its dump, and typed getters.
- Alerts, log output, mutexes, memory accounting, debug printing and unit tests.
- Small parsers and tables that branch once per case (SSL, Ethernet, the data queue).
