# Verified model of portweave's serial workbench

This project models the parts of the serial workbench whose correctness cannot be read off one function, and
proves what they are for. It follows the Go service and the TypeScript editor branch by branch: pure code is
written as functions and lemmas, code that changes state as classes and methods with loops, and the goroutines
of the remote node as a state machine of interleaved atomic steps.

`dafny verify dfyconfig.toml` checks everything. A file holds one module and has its name, except that
`GraphStore.dfy`, `RingBuffer.dfy`, `ModuleRegistry.dfy` and `ChunkCache.dfy` hold the modules `GraphStores`,
`RingBuffers`, `ModuleRegistries` and `ChunkCaches`, and `FrameHistory.dfy` the module `FrameHistories`, each with a
class of the file's name.

| part | files |
|---|---|
| directed graphs: paths, acyclicity, the descendant count as a termination measure | `Digraph` |
| topology validation of the runtime | `NodeSettings`, `Topology`, `RuntimeValidator` |
| the synchronous delivery engine | `DeliveryEngine`, `DeliveryTheorems` |
| the graph editor and its store | `Decimal`, `Doubles`, `GraphEditor`, `GraphStore` |
| the reconnect protocol of remote nodes | `RemoteReconnect` |
| the filter expression language | `Ascii`, `FilterLexer`, `FilterGrammar`, `FilterParser`, `FilterPrinter` |
| the MODBUS stack | `BitRegister`, `ModbusCrc`, `ModbusFraming`, `ModbusSession`, `ModbusDataModel`, `ModbusPdu`, `ModbusGrouping` |
| the ring buffer and the frame history of a node | `RingBuffer`, `FrameHistory` |
| the module registry | `ModuleOrder`, `ModuleLifecycle`, `ModuleRegistry` |
| FECbus frames, reader and answers | `FecbusFrame`, `FecbusReader`, `FecbusPieces` |
| the aligned chunk cache of the data views | `ChunkCache` |
| shared | `Wrappers`, `Pieces`, `Blanks` |

## How the parts fit together

* **Topology to delivery.** The validator searches for a cycle once for each edge, without that edge and without
  the edges into a master's `rx`. `RuntimeValidator.CycleReportedIff` shows that this finds a cycle exactly when
  the remaining node graph has one, and `RuntimeValidator.Validate` that an empty report is exactly usable settings,
  unshared ports, well-formedness, one source for each input and acyclicity. `DeliveryEngine.AcceptedIsSound` carries
  this to the engine: its mutually recursive `receive` and `emit` get the number of descendants as their measure,
  so they end, nest no deeper than there are nodes, and meet no input port twice.
* **World.** Scripts, filters, protocol slaves and port writes are an arbitrary function `World` of the number of
  injections and the deliveries made so far, which differ whenever the world is asked; every theorem about the
  engine holds for all of them.
* **Reconnect.** A step of the reader, writer or reconnect goroutine of a node is one atomic action on the shared
  connection and guard. The invariant counts tokens: a current connection, or one goroutine that owes one. That
  goroutine's distance to a connection is lowered by its own steps alone, so every schedule that lets it run
  reconnects the node once a dial succeeds.
* **Ports.** Bytes from a serial port are a list of pieces, cut anywhere; running out of pieces stands for the
  deadline, the stop request or the closed port.

## What does not hold

Some expectations about the code are false. Each is stated here with its exact condition.

* A register read of more than 127 registers, or a bit read of more than 2040 bits, builds a response whose byte
  count is truncated, and the master's parser rejects it (`ModbusPdu.RegisterReadIff`, `ModbusPdu.BitReadIff`).
* The session reads an ASCII frame back only up to 252 data bytes: the buffer limit is 513 (`ModbusSession.AsciiReaderIff`).
* An RTU frame has no end mark: it is read whole exactly when it fits the buffer and no part of it decodes where the
  port pauses (`ModbusSession.RtuReaderIff`). Every frame that fits one read is such a part of a longer valid frame,
  in whose place it is then returned (`ModbusSession.EarlyReturn`).
* Not every register mapping lies inside the block of its group. The block is right exactly when the group joins no
  mapping that runs past register 65535 with one that does not, and no two mappings whose common span is 65536
  registers (`ModbusGrouping.CoverageIff`, with inputs in `ModbusGrouping.BothEndsAreLost` and
  `ModbusGrouping.OverrunningMappingIsLost`). A mapping that its own block leaves out can still lie in another one
  (`ModbusGrouping.ClashLosesNothing`); `ModbusGrouping.MappingsCoveredIff` says when no mapping is lost.
* A FECbus frame may be valid and still unreadable: the boundary byte is a legal group number and data byte, and
  frames are not stuffed (`FecbusReader.ReadIffNoBoundaryInside`, `FecbusReader.BoundaryInsideValidFrame`). A stray
  boundary before a frame loses it in all pieces (`FecbusReader.StrayBoundaryLosesFrame`). What is read can depend on
  how the port cuts the bytes into reads of at most 64 bytes: each read passes over one candidate at most, and a
  frame behind candidates that do not decode is lost when the rest of the stream comes in too few reads. It is read
  in all pieces exactly when, from the closing boundary of each candidate passed over, more bytes follow than fit
  into as many reads as there are candidates passed over from that one on (`FecbusPieces.PiecesDoNotMatterIff`,
  `FecbusPieces.PiecesMatter`). Behind two stray boundaries and quiet noise that is when noise and frame are at least
  64 bytes (`FecbusPieces.StrayPairIff`). No answer to a broadcast is ever taken, and a unit with an address above 63
  builds answers that cannot be sent (`FecbusReader.AnswerIsTakenIff`).
* The editor's search for a cycle passes over nodes without an id, so it misses exactly the cycles through them
  (`GraphEditor.CanConnect`, `GraphEditor.UnnamedHidesCycle`, with a document in `GraphEditor.UnnamedCycleIsAccepted`);
  documents made by editing have no such nodes (`GraphEditor.NamedSearchIsFull`).
* The editor numbers its ids with doubles. The next id is one in use exactly when the largest number is a double that
  stays the same when one is added, and an id spells it (`GraphEditor.NextIdIsFreshIff`, `Doubles.OneMoreIff`), as
  with the number 2^53 (`GraphEditor.IdIsUsedAgain`). No editing run of up to 2^53 steps comes that far
  (`GraphEditor.EveryEditingRunIsCoherent`).
* A module whose `Start` fails is neither stopped nor disposed, unlike one whose `Init` fails, and the modules
  behind it in the order, although initialised, are not disposed either (`ModuleLifecycle.StartRollsBack`).
* A chunk cached while the store was shorter goes on reading as zeros what was appended since, exactly where the
  new bytes are not zero (`ChunkCaches.GrownStoreReadsIff`; `ChunkCaches.FetchTwice` and `ChunkCaches.StaleRead` show
  the fetches).

## Model

| member | source | states |
|---|---|---|
| Topology.CreatesCycle | internal/modules/serial/graph_runtime.go:2474-2501 | The depth-first search over a mutable visited set and stack finds the draft's source exactly when the node graph of the given non-terminal edges leads there from its target around the nodes that it passes over: none in the runtime, unnamed ones in the editor (serialGraph.ts:561-590). |
| Topology.IsTaken | internal/modules/serial/graph_runtime.go:2396-2402 | The scan reports a taken input exactly when some other edge ends in the same node and handle. |
| Topology.SearchWithoutDraft | internal/modules/serial/graph_runtime.go:2404-2408 | Leaving the draft's own edge out of the search, as the validator does, loses no cycle: the search finds a path back exactly when the whole graph has one. |
| Digraph.ReachWithoutEdge | internal/modules/serial/graph_runtime.go:2464-2501 | An edge on a cycle can be taken away without losing the path that closes it: the path back avoids the edge. |
| Digraph.AcyclicAddEdge | frontend/src/serial/graph/serialGraph.ts:561-590 | An edge keeps an acyclic graph acyclic exactly when its source cannot be reached from its target. |
| Digraph.RankDecreases | internal/modules/serial/graph_runtime.go:1213-1223 | In an acyclic graph each step lowers the number of descendants: the measure by which emission ends. |
| RuntimeValidator.OtherEdges | internal/modules/serial/graph_runtime.go:2464-2472 | Exactly the edges with another id, in their order. |
| NodeSettings.RemoteIssues | internal/modules/serial/graph_runtime.go:2202-2259 | The issues of a remote node's settings, of which there are none exactly for the known protocol and roles, a host without a scheme, and port, timeouts, interval and buffer size as integers in their ranges. |
| NodeSettings.SameRemoteClaimIff | internal/modules/serial/graph_runtime.go:2261-2269 | Two usable remote nodes claim the same resource exactly for the same host, whatever its case, the same port and the same role: the joined texts cannot be confused. |
| RuntimeValidator.ValidateEdge | internal/modules/serial/graph_runtime.go:2356-2409 | The problems of one edge, in the order reported: ends, self connection, ports, kinds, single source, and a cycle exactly when the graph without the edge leads back. |
| RuntimeValidator.ValidateNodes | internal/modules/serial/graph_runtime.go:2280-2300 | The problems of the node list, those of remote settings included, and the map of types in which the first node of an id wins and unnamed nodes are missing. |
| RuntimeValidator.ValidateResources | internal/modules/serial/graph_runtime.go:2318-2354 | The lookup among the claims recorded so far reports each later claimant of a port or endpoint, with the first one. |
| RuntimeValidator.ResourceProblemsIff | internal/modules/serial/graph_runtime.go:2318-2354 | Nothing is reported exactly when no two nodes claim the same serial port, or the same endpoint in the same role. |
| RuntimeValidator.ValidateEdges | internal/modules/serial/graph_runtime.go:2302-2314 | The problems of the edge list; unnamed edges and repeated ids are reported and not checked further. |
| RuntimeValidator.Validate | internal/modules/serial/graph_runtime.go:2280-2316 | The whole report in its order, which is empty exactly for usable, well-formed, single-source, acyclic requests. |
| RuntimeValidator.CycleReportedIff | internal/modules/serial/graph_runtime.go:2404-2408 | With unique edge ids, the searches made edge by edge close a cycle for some edge exactly when the edges outside masters' rx ports form a cyclic graph. |
| RuntimeValidator.CycleProblemIff | internal/modules/serial/graph_runtime.go:2280-2316 | For unique edge ids and well-formed ends the report contains a directed cycle exactly when that graph is cyclic. |
| RuntimeValidator.SingleSourceIff | internal/modules/serial/graph_runtime.go:2396-2402 | The checks made edge by edge pass exactly when no two edges end in the same input port. |
| RuntimeValidator.AcceptedIff | internal/modules/serial/graph_runtime.go:2280-2316 | An empty report is equivalent to unique named nodes of known types, usable remote settings, no port or endpoint claimed twice, unique named edges, existing ends and ports, one source for each input and an acyclic node graph. |
| DeliveryEngine.AcceptedIsSound | internal/modules/serial/graph_runtime.go:372-400 | What the validator accepts gives the engine what it needs to end: acyclic and single-source routes between known nodes. |
| DeliveryEngine.TargetIsLower | internal/modules/serial/graph_runtime.go:1213-1230 | Each routed delivery goes strictly down in the measure that bounds the cascade. |
| DeliveryEngine.LevelBound | internal/modules/serial/graph_runtime.go:1213-1230 | The measure is below the number of nodes, so the cascade is no deeper than the topology is large. |
| DeliveryEngine.StartSerialGraph | internal/modules/serial/graph_runtime.go:187-204 | A start request gives such a runtime exactly when the validator reports nothing, and otherwise its report. |
| DeliveryEngine.SerialGraphRuntime.constructor | internal/modules/serial/graph_runtime.go:372-400 | A runtime with zero counters and empty buffers whose routes agree with the edges. |
| DeliveryEngine.SerialGraphRuntime.BuildRoutes | internal/modules/serial/graph_runtime.go:393-398 | For each output port, the route table holds the input ports of its edges, in edge order. |
| DeliveryEngine.SerialGraphRuntime.AbsorbAt | internal/modules/serial/graph_runtime.go:997-1211 | What one node of each kind does with a payload: counters, buffer, frames, errors, and what it passes on through which port. |
| DeliveryEngine.SerialGraphRuntime.ReceiveAt | internal/modules/serial/graph_runtime.go:997-1057 | The imperative receive has the whole effect of the specification, and ends; unknown nodes and empty payloads are ignored, and only a bridge reports errors from below. |
| DeliveryEngine.SerialGraphRuntime.EmitFrom | internal/modules/serial/graph_runtime.go:1213-1230 | The loop over the routes delivers to every target in order, whatever fails, and returns the first error. |
| DeliveryEngine.SerialGraphRuntime.Perform | internal/modules/serial/graph_runtime.go:709-893 | Device data, generated data and send requests have exactly the effect of the specified injection. |
| DeliveryEngine.SerialGraphRuntime.Send | internal/modules/serial/graph_runtime.go:962-995 | A send request does at each kind of node what the specification says, including the kinds that refuse it. |
| DeliveryTheorems.InjectionVisitsOnce | internal/modules/serial/graph_runtime.go:962-1230 | In every accepted topology, whatever scripts, filters, slaves and ports answer, one emission ends, visits only downstream input ports, none twice, and nests no deeper than there are nodes. |
| DeliveryTheorems.EveryInjectionVisitsOnce | internal/modules/serial/graph_runtime.go:962-1230 | The same for every way in: no input port is visited twice, and the nesting is at most one more than the number of nodes. |
| DeliveryTheorems.InjectionReachesExactly | internal/modules/serial/graph_runtime.go:997-1230 | Where the nodes downstream pass bytes on unchanged, the payload reaches exactly the downstream input ports, each once and unchanged, and each node counts it once for each of its own, but for remote nodes, which do not count deliveries. |
| DeliveryTheorems.InjectionAccounts | internal/modules/serial/graph_runtime.go:997-1057 | In one emission a node's receive counter grows by exactly the bytes delivered to it, and that of a remote node not at all. |
| DeliveryTheorems.InjectionIsSentOn | internal/modules/serial/graph_runtime.go:997-1057 | In one emission a virtual port or bridge counts as sent exactly the bytes delivered to it, whichever of its inputs they reach. |
| DeliveryTheorems.InjectionIsKept | internal/modules/serial/graph_runtime.go:997-1057 | What an emission delivers to a node is what the node keeps, in the order of delivery: bytes in its buffer, payloads as received frames, exactly for the kinds that keep them. |
| DeliveryTheorems.InjectionIsRetained | internal/modules/serial/graph_runtime.go:1524-1548 | Of all the payloads that a node has recorded as received frames it still holds the last ones. |
| FrameHistories.FrameHistory.Append | internal/modules/serial/graph_runtime.go:1524-1548 | After each appended frame the history holds the longest end of all frames ever appended that is within 100000 frames, and within 16 MiB unless it is one frame. |
| FrameHistories.RetainedNext | internal/modules/serial/graph_runtime.go:1542-1547 | Trimming after each frame gives what trimming the whole history at once would give. |
| FrameHistories.RetainedIsLongest | internal/modules/serial/graph_runtime.go:1544-1547 | No longer end of the history is within the limits. |
| DeliveryTheorems.RunAccounts | internal/modules/serial/graph_runtime.go:709-1230 | Over every run, a receive counter is what was delivered to the node plus what its own device sent, and that of a remote node only what its socket handed it. |
| DeliveryTheorems.SiblingsApart | internal/modules/serial/graph_runtime.go:2396-2402 | By the single-source rule, what lies below two targets of one port does not meet, which is why nothing is delivered twice. |
| Decimal.ValueOfRender | frontend/src/serial/stores/graphStore.ts:1232-1242 | Reading a printed number gives the number, so numbered ids differ. |
| GraphEditor.CanConnect | frontend/src/serial/graph/serialGraph.ts:376-418 | The editor reports nothing exactly for a draft with existing, different ends and ports, a free input and no path back around unnamed nodes; and reports the listed errors in order otherwise. |
| GraphEditor.CheckDraft | frontend/src/serial/graph/serialGraph.ts:376-418 | The errors of one draft in the order in which they are pushed. |
| GraphEditor.NamedSearchIsFull | frontend/src/serial/graph/serialGraph.ts:561-590 | Where all nodes have an id, the editor's search is the whole search: it finds a path back exactly when there is one. |
| GraphEditor.UnnamedHidesCycle | frontend/src/serial/graph/serialGraph.ts:561-590 | An edge at a node without an id is never reported to close a cycle. |
| GraphEditor.UnnamedCycleIsAccepted | frontend/src/serial/graph/serialGraph.ts:376-418 | A concrete document of two filters, one without an id, in which the edge back is accepted and closes a cycle. |
| GraphEditor.ValidateEdges | frontend/src/serial/graph/serialGraph.ts:420-445 | The report on the edges: for each in its order the errors of its connection check among the others, labelled with its id, and so no error exactly when every edge is connectable among the others. |
| GraphEditor.NextSequence | frontend/src/serial/stores/graphStore.ts:1232-1242 | One more than the largest number behind the prefix, rounded as a double. |
| GraphEditor.NextIdIsFreshIff | frontend/src/serial/stores/graphStore.ts:1104-1110 | The next numbered id is used by no node or edge of the document unless the largest number is a double to which adding one changes nothing, and an id spells it. |
| Doubles.OneMoreIff | frontend/src/serial/stores/graphStore.ts:1232-1242 | Adding one to a whole double gives a larger one, unless it is at least 2^53 and, below 2^54, a multiple of four; then it gives the double itself. |
| GraphEditor.IdIsUsedAgain | frontend/src/serial/stores/graphStore.ts:1104-1110 | A document whose only id carries such a number, 2^53 being the first, gets that id again. |
| GraphEditor.FirstStuckNumber | frontend/src/serial/stores/graphStore.ts:1232-1242 | 2^53 is the first such number. |
| GraphEditor.CoherentPassesValidation | frontend/src/serial/graph/serialGraph.ts:420-445 | Unique ids, existing ends, one edge for each input and no non-terminal cycle are enough for the validation to report nothing on any edge. |
| GraphEditor.StepKeepsCoherentIff | frontend/src/serial/stores/graphStore.ts:211-343 | Adding a node, connecting, removing an edge and removing a node each keep that coherence, exactly when the ids that the step needs have not run out. |
| GraphEditor.EveryEditingRunIsCoherent | frontend/src/serial/stores/graphStore.ts:211-343 | Every document that an editing run of at most 2^53 steps reaches from an empty one is coherent, keeps its id, has ids numbered by the steps at most, and so shows no edge error. |
| GraphStores.StepInStore | frontend/src/serial/stores/graphStore.ts:1077-1081 | When one of its documents takes a step, a store of distinct coherent documents stays one exactly when the step finds the id it needs. |
| GraphStores.GraphStore.constructor | frontend/src/serial/stores/graphStore.ts:76-80 | The store starts with one empty document. |
| GraphStores.GraphStore.AddNodeToGraph | frontend/src/serial/stores/graphStore.ts:211-230 | Unknown types and graphs change nothing; otherwise that one document gains a node with the next id, which is unused unless the ids have run out, and exactly then the store stays valid. |
| GraphStores.GraphStore.ConnectInGraph | frontend/src/serial/stores/graphStore.ts:306-329 | An edge with the next id is added, to that one document, exactly when the draft is connectable; otherwise nothing changes. |
| GraphStores.GraphStore.RemoveEdgeFromGraph | frontend/src/serial/stores/graphStore.ts:336-343 | That one document loses the edges with the id; the store stays valid. |
| GraphStores.GraphStore.RemoveNodeFromGraph | frontend/src/serial/stores/graphStore.ts:237-258 | That one document loses the node and every edge at it; the store stays valid. |
| GraphStores.GraphStore.CreateGraph | frontend/src/serial/stores/graphStore.ts:121-129 | An empty document with an unused id is appended and nothing else changes. |
| GraphStores.GraphStore.NextGraphId | frontend/src/serial/stores/graphStore.ts:1097-1102 | The search ends, with the smallest number that no document uses. |
| RemoteReconnect.EveryInterleaving | internal/modules/serial/graph_runtime.go:574-707 | In every interleaving exactly one holds: a connection is current and watched by a reader, or one goroutine owes one. No reconnect is refused, no live connection is replaced, and each published connection but the current one was detached once, in order. |
| RemoteReconnect.OldFailureIsHarmless | internal/modules/serial/graph_runtime.go:1406-1419 | A failure on a connection that is no longer current leaves connection and guard alone. |
| RemoteReconnect.DisconnectedCanReconnect | internal/modules/serial/graph_runtime.go:626-674 | From every reachable disconnected state some at most five steps lead to a new connection if the dial succeeds. |
| RemoteReconnect.ReconnectIsNeverLost | internal/modules/serial/graph_runtime.go:626-674 | The goroutine that owes a connection can always take its next step, and reconnects the node in as many steps as it still needs. |
| RemoteReconnect.EveryScheduleReconnects | internal/modules/serial/graph_runtime.go:626-680 | From every disconnected moment of every run, any run on from there in which the goroutine that owes the connection takes five steps other than failing dials passes through a connected moment, however the others interleave and however often a dial fails. |
| RemoteReconnect.RemainingCounts | internal/modules/serial/graph_runtime.go:626-680 | As long as the node stays disconnected, the steps taken towards a connection and those still needed add up to the same number. |
| RemoteReconnect.OthersLeaveDebtor | internal/modules/serial/graph_runtime.go:574-680 | No step of another goroutine moves the one that owes the connection, or connects the node. |
| RemoteReconnect.OwnStepAdvances | internal/modules/serial/graph_runtime.go:626-680 | Each step of the owing goroutine other than a failing dial brings it, or the goroutine it starts, nearer by one, and the last one connects the node. |
| RemoteReconnect.StepKeepsInvariant | internal/modules/serial/graph_runtime.go:574-707 | Every atomic step of reader, writer and reconnect loop keeps the invariant on tokens, guard, watcher and connection numbers. |
| RemoteReconnect.StepKeepsOneToken | internal/modules/serial/graph_runtime.go:574-707 | Connections and debts together stay one. |
| RemoteReconnect.StepKeepsGuard | internal/modules/serial/graph_runtime.go:1453-1459 | The guard is set exactly while one loop waits or holds a dialed connection, also across its early release before publication. |
| RemoteReconnect.StepRefusesNothing | internal/modules/serial/graph_runtime.go:626-674 | The guard never turns a goroutine away and a publication never meets a live connection. |
| RemoteReconnect.StepKeepsNewest | internal/modules/serial/graph_runtime.go:669-674 | A connection on its way to publication is newer than all published before it. |
| FilterLexer.ScanString | internal/modules/serial/graph_filter.go:260-289 | The escape-handling scan returns the value and the end exactly as the recursive reading of the literal does, and fails exactly when it does. |
| FilterLexer.TokenAt | internal/modules/serial/graph_filter.go:196-258 | The token at an index and where it ends, or failure, as specified on the rest of the text. |
| FilterLexer.Tokenize | internal/modules/serial/graph_filter.go:196-258 | The loop returns the token list of the whole text with its end marker, or nothing when some part is no token. |
| FilterGrammar.DenotedIsWellFormed | internal/modules/serial/graph_filter.go:372-428 | What the grammar gives a token list is a tree over known fields with operators that fit them. |
| FilterParser.ParseAllIffDenotes | internal/modules/serial/graph_filter.go:306-428 | Recursive descent finds a tree exactly when the declarative grammar (not over and over or, left to right) has it, so parsing is sound and complete. |
| FilterParser.GrammarIsUnambiguous | internal/modules/serial/graph_filter.go:306-428 | No token list has two trees. |
| FilterParser.Parser.Parse | internal/modules/serial/graph_filter.go:306-315 | The parser that evaluates on the way returns the value of the one tree the tokens denote, and an error exactly when there is none, whatever the candidate. |
| FilterParser.Parser.ParseOrValue | internal/modules/serial/graph_filter.go:317-330 | The stateful or-level agrees with parsing to a tree and evaluating it, and consumes what the tree covers. |
| FilterParser.Parser.ParseAndValue | internal/modules/serial/graph_filter.go:332-345 | The same for the and-level. |
| FilterParser.Parser.ParseUnaryValue | internal/modules/serial/graph_filter.go:347-356 | The same for negation. |
| FilterParser.Parser.ParsePrimaryValue | internal/modules/serial/graph_filter.go:358-370 | The same for parentheses. |
| FilterParser.Parser.ParseComparisonValue | internal/modules/serial/graph_filter.go:372-428 | The same for comparisons, with their error branches. |
| FilterParser.Parser.MatchKeyword | internal/modules/serial/graph_filter.go:445-452 | A keyword, in any case of letters, is consumed exactly when it comes next. |
| FilterPrinter.LexOfRender | internal/modules/serial/graph_filter.go:196-289 | Any writable token list, written out with escapes and blanks, is tokenized back to itself. |
| FilterPrinter.PrintedTreeIsDenoted | internal/modules/serial/graph_filter.go:196-428 | The text of any well-formed tree, parenthesised by precedence, is tokenized and denotes that tree. |
| FilterPrinter.PrintIsTrimmed | internal/modules/serial/graph_filter.go:38-42 | The printed text is not empty and trimming leaves it as it is. |
| FilterPrinter.MatchExpression | internal/modules/serial/graph_filter.go:85-96 | The filter gives a printed tree its own truth value for every candidate, and an error depends on the text alone. |
| FilterPrinter.MatchFilter | internal/modules/serial/graph_filter.go:38-53 | The filter in expression mode trims the text of white space in UTF-8, passes everything for an empty one, and otherwise gives the value of the one tree that the text denotes, or an error if there is none; a printed tree has its own truth value. |
| BitRegister.BurstIsNoticed | internal/modules/serial/modbus/protocol.go:180-193 | A shift register with a top tap notices every nonzero error confined to a window of its own width. |
| ModbusCrc.ComputeCrc16 | internal/modules/serial/modbus/protocol.go:180-193 | The byte and bit loops compute the specified register. |
| ModbusCrc.RegisterIsFeed | internal/modules/serial/modbus/protocol.go:180-193 | The word-wise register is the bit-serial shift register with the taps of 0xA001, which is linear. |
| ModbusCrc.MatchIsEmptyRegister | internal/modules/serial/modbus/protocol.go:125-135 | The trailer matches exactly when feeding the whole frame, trailer included, empties the register. |
| ModbusCrc.BurstIsRejected | internal/modules/serial/modbus/protocol.go:125-135 | Any change within sixteen neighbouring bits of a frame of any length breaks the match. |
| ModbusCrc.OddFlipsAreRejected | internal/modules/serial/modbus/protocol.go:125-135 | Any odd number of flipped bits breaks the match. |
| ModbusCrc.ChangedBytesAreRejected | internal/modules/serial/modbus/protocol.go:125-135 | Any change of one byte or of two neighbouring bytes breaks the match, also across payload and trailer. |
| ModbusFraming.ComputeLrc | internal/modules/serial/modbus/protocol.go:196-202 | The loop computes the two's complement of the byte sum. |
| ModbusFraming.FrameRoundTrip | internal/modules/serial/modbus/protocol.go:90-170 | Decoding an encoded frame gives back unit and PDU, in RTU and ASCII, for every data length. |
| ModbusFraming.RtuDecodesOnlyEncodings | internal/modules/serial/modbus/protocol.go:125-135 | What RTU decoding accepts is what encoding produces. |
| ModbusFraming.CorruptedRtuIsRejected | internal/modules/serial/modbus/protocol.go:125-135 | A frame hit by a burst of at most sixteen bits or by an odd number of flips is rejected with a CRC error. |
| ModbusFraming.ChangedRtuBytesAreRejected | internal/modules/serial/modbus/protocol.go:125-135 | So is a frame with one byte or two neighbouring bytes changed. |
| ModbusFraming.ChangedAsciiByteIsRejected | internal/modules/serial/modbus/protocol.go:137-156 | An ASCII frame with one byte of its body changed is rejected with an LRC error. |
| ModbusSession.ReadFrame | internal/modules/serial/modbus/session.go:461-510 | The reading loop over arbitrary pieces computes the specified outcome, limit and error cases included. |
| ModbusSession.AsciiReaderAssembles | internal/modules/serial/modbus/session.go:492-503 | An ASCII frame at the front of any stream, in any pieces, is returned exactly when the buffer is within 513 bytes after the piece that completes it; otherwise the length error. |
| ModbusSession.AsciiReaderIff | internal/modules/serial/modbus/session.go:489-503 | A frame that comes alone is returned exactly when it carries at most 252 data bytes. |
| ModbusSession.RtuReaderIff | internal/modules/serial/modbus/session.go:461-510 | An RTU frame that comes alone is returned whole exactly when it fits the buffer and no part of it decodes where the port pauses. |
| ModbusSession.EarlyReturn | internal/modules/serial/modbus/session.go:461-510 | Every frame that fits one read begins a longer valid frame, in whose place it is returned when the port pauses behind it. |
| ModbusSession.ScanRegisters | internal/modules/serial/modbus/session.go:819-876 | Defaults, limits and which of the two request errors, and otherwise ranges that tile start to end, at most 125 long, with the nonzero values found. |
| ModbusSession.ScanChunks | internal/modules/serial/modbus/session.go:836-875 | The loop ends for every start and end, also at 65535 where the 16-bit address wraps, and its ranges follow each other from start to end without gap or overlap. |
| ModbusSession.NextAddress | internal/modules/serial/modbus/session.go:871-874 | 16-bit addition wraps to zero exactly at the end of the address space. |
| ModbusSession.CollectNonZero | internal/modules/serial/modbus/session.go:862-869 | The nonzero registers with their addresses, in order. |
| ModbusSession.TilesCoverOnce | internal/modules/serial/modbus/session.go:836-875 | Ranges that tile an interval contain each of its addresses exactly once and no other. |
| ModbusDataModel.PackBits | internal/modules/serial/modbus/protocol.go:428-436 | The in-place loop sets bit k of byte j to value 8j + k, and all padding bits to zero. |
| ModbusDataModel.UnpackBits | internal/modules/serial/modbus/protocol.go:438-444 | The loop reads the bits back, least significant first. |
| ModbusDataModel.BitsRoundTrip | internal/modules/serial/modbus/protocol.go:428-444 | Unpacking packed bits gives the values, followed by false up to the byte boundary. |
| ModbusDataModel.RegistersRoundTrip | internal/modules/serial/modbus/protocol.go:408-426 | Registers written as bytes, high byte first, are read back. |
| ModbusDataModel.WrittenAt | internal/modules/serial/modbus/datamodel.go:69-110 | After a range write, address plus i modulo 65536 holds value i, for at most 65536 values. |
| ModbusDataModel.UntouchedAt | internal/modules/serial/modbus/datamodel.go:69-110 | An address outside the range modulo 65536 keeps what it had, or had not. |
| ModbusDataModel.ReadBack | internal/modules/serial/modbus/datamodel.go:69-133 | Reading the written range gives the written values. |
| ModbusPdu.DataModel.WriteCoils | internal/modules/serial/modbus/datamodel.go:69-78 | The loop writes the range modulo 65536 and refuses an empty list. |
| ModbusPdu.DataModel.WriteHoldingRegisters | internal/modules/serial/modbus/datamodel.go:80-89 | The same for holding registers. |
| ModbusPdu.DataModel.ReadTable | internal/modules/serial/modbus/datamodel.go:112-133 | A read of nothing is refused; otherwise the loop reads the range modulo 65536, with zero or false where nothing was written. |
| ModbusPdu.DataModel.BuildSlaveResponse | internal/modules/serial/modbus/datamodel.go:135-223 | Tables and response after a request are those of the specified step, for every function code and malformed request. |
| ModbusPdu.RegisterReadIff | internal/modules/serial/modbus/datamodel.go:266-273 | A register read through builder, slave and parser gives the table's values exactly for at most 127 registers, and a byte count error beyond; it changes nothing. |
| ModbusPdu.BitReadIff | internal/modules/serial/modbus/datamodel.go:135-160 | The same for bit reads, with the limit of 2040 bits. |
| ModbusPdu.WrittenRegistersReadBack | internal/modules/serial/modbus/protocol.go:277-354 | One to 123 registers written are confirmed and read back; no address outside the range and no other table changes. |
| ModbusPdu.WrittenCoilsReadBack | internal/modules/serial/modbus/protocol.go:251-354 | The same for one to 1968 coils; the bits that fill the last byte read as false. |
| ModbusPdu.WrittenRegisterReadsBack | internal/modules/serial/modbus/protocol.go:228-240 | The same for a single register, confirmed by the echo of the request. |
| ModbusPdu.WrittenCoilReadsBack | internal/modules/serial/modbus/protocol.go:228-240 | The same for a single coil: any value but zero switches it on. |
| ModbusPdu.ExceptionsChangeNothing | internal/modules/serial/modbus/datamodel.go:275-284 | A request that is answered with an exception changes no table, and the exception is understood by the parser. |
| ModbusGrouping.GroupRegisterMappings | internal/modules/serial/modbus/conversion.go:165-207 | The grouping loops produce the specified blocks, and every typed mapping lies inside one exactly under the condition of MappingsCoveredIff, in particular without a clash, whichever order the sort leaves equal addresses in. |
| ModbusGrouping.BlocksWithinLimit | internal/modules/serial/modbus/conversion.go:165-207 | Every block is one mapping or at most the limit long, whatever wraps. |
| ModbusGrouping.CoverageIff | internal/modules/serial/modbus/conversion.go:165-216 | For every sorted input, all typed mappings lie inside the block of their group exactly when no group joins two mappings of which one runs past 65535 and the other does not, or that span 65536 registers. |
| ModbusGrouping.CoverageWithoutOverrun | internal/modules/serial/modbus/conversion.go:165-216 | When no mapping runs past the last register, the condition and the clash read: a mapping at address 0 meets one that ends at 65535. |
| ModbusGrouping.MappingsCovered | internal/modules/serial/modbus/conversion.go:165-216 | Without such a clash every typed mapping of the unsorted input lies inside some block. |
| ModbusGrouping.MappingsCoveredIff | internal/modules/serial/modbus/conversion.go:165-216 | Every typed mapping lies inside some block exactly when each mapping that runs past 65535 lies between the start and the farthest end of a group of such mappings only, shorter than 65536 registers, and each other one whose group spans all registers lies inside another block. |
| ModbusGrouping.OverrunningCoveredIff | internal/modules/serial/modbus/conversion.go:199-216 | The part about one mapping that runs past 65535: only blocks of such groups wrap, and reach it. |
| ModbusGrouping.FewestBlocks | internal/modules/serial/modbus/conversion.go:165-207 | Without flags, oversized mappings and wraps, the blocks are a cover within the limit and no cover by such blocks has fewer. |
| ModbusGrouping.AllLeadersApart | internal/modules/serial/modbus/conversion.go:165-207 | No two block leaders fit into one read of the limit's length. |
| ModbusGrouping.BothEndsAreLost | internal/modules/serial/modbus/conversion.go:199-203 | A concrete input whose span wraps to a block of no registers. |
| ModbusGrouping.OverrunningMappingIsLost | internal/modules/serial/modbus/conversion.go:209-216 | A concrete input whose overrunning mapping lies outside its block. |
| ModbusGrouping.ClashLosesNothing | internal/modules/serial/modbus/conversion.go:165-216 | A concrete input with a clash whose left out mapping lies in the wrapped block of another group. |
| RingBuffers.RingBuffer.constructor | internal/modules/serial/buffer/ring.go:22-27 | A new buffer holds the end of the empty stream. |
| RingBuffers.RingBuffer.Append | internal/modules/serial/buffer/ring.go:29-67 | A chunk at the end of the stream extends it, and the chunks then hold the last bytes of the longer stream, as many as the capacity allows, whatever was trimmed, evicted or cut. |
| RingBuffers.RingBuffer.Evict | internal/modules/serial/buffer/ring.go:51-66 | The eviction loop leaves what the recursive specification says. |
| RingBuffers.RingBuffer.Query | internal/modules/serial/buffer/ring.go:69-141 | Inside the window exactly the stream slice, clipped at the end, with chunk records that tile it and are pieces of retained chunks with their times; below the window no data and no end of file; at or behind the end, end of file. |
| RingBuffers.RingBuffer.Copy | internal/modules/serial/buffer/ring.go:112-132 | The copy across chunks returns the slice of the stream and tiling records. |
| RingBuffers.RingBuffer.Reset | internal/modules/serial/buffer/ring.go:149-156 | Reset starts the stream afresh. |
| RingBuffers.AppendKeepsWindow | internal/modules/serial/buffer/ring.go:29-67 | Appending keeps the retained chunks contiguous and equal to the last min(total, capacity) bytes. |
| RingBuffers.EvictedHolds | internal/modules/serial/buffer/ring.go:51-66 | Eviction drops exactly the excess from the front of contiguous chunks. |
| RingBuffers.EvictedOversized | internal/modules/serial/buffer/ring.go:43-66 | A chunk that fills the capacity by itself drives out all others. |
| RingBuffers.HoldsAt | internal/modules/serial/buffer/ring.go:93-110 | Where chunk i lies, what it holds, and that the next one follows it. |
| ModuleRegistries.ModuleRegistry.constructor | internal/core/module/registry.go:23-29 | A new registry has no modules. |
| ModuleRegistries.ModuleRegistry.Register | internal/core/module/registry.go:31-44 | Empty and used ids are refused; otherwise exactly this module is added. |
| ModuleRegistries.ModuleRegistry.Order | internal/core/module/registry.go:180-221 | For every order of map iteration: success exactly when all dependencies are registered and acyclic, with a permutation of the modules in which dependencies come first; the error names a really missing dependency, or all are registered and there is a cycle. |
| ModuleOrder.CountDependencies | internal/core/module/registry.go:184-195 | The first loop counts each module's dependencies, repeated ones repeatedly, and its dependents, or finds a missing one. |
| ModuleOrder.Settle | internal/core/module/registry.go:205-215 | Placing a module lowers its dependents' counts by its occurrences and queues each exactly when its count reaches zero. |
| ModuleOrder.OrderedIsOrderable | internal/core/module/registry.go:180-221 | A dependency order exists only for registered, acyclic dependencies. |
| ModuleOrder.StuckMeansCircular | internal/core/module/registry.go:217-219 | Modules that cannot be placed wait for one another in a cycle. |
| ModuleRegistries.ModuleRegistry.InitAll | internal/core/module/registry.go:46-72 | Calls and result follow some dependency order: Init up to the first failure, which is returned, then the specified disposals. |
| ModuleLifecycle.InitRollsBack | internal/core/module/registry.go:57-70 | A failed run disposes exactly what it initialised, the failing module included, each once and dependents first; every Init comes after those of its dependencies. |
| ModuleLifecycle.InitReachesAll | internal/core/module/registry.go:57-71 | Without a failure every module is initialised once, after its dependencies, and none is disposed. |
| ModuleRegistries.ModuleRegistry.StartAll | internal/core/module/registry.go:74-97 | Calls and result follow some dependency order: Start up to the first failure, which is returned, then the specified releases. |
| ModuleLifecycle.StartRollsBack | internal/core/module/registry.go:84-94 | A failed run stops and then disposes exactly the modules that started, dependents first; the failing module and those behind it are left as they are. |
| ModuleLifecycle.StartReachesAll | internal/core/module/registry.go:84-96 | Without a failure every module is started once, after its dependencies. |
| ModuleRegistries.ModuleRegistry.StopAll | internal/core/module/registry.go:99-116 | Stop reaches all modules in reverse order and the first error met is returned, an error exactly when some module fails. |
| ModuleLifecycle.StopReachesAll | internal/core/module/registry.go:108-115 | Every module is stopped once, dependents before their dependencies, whatever fails. |
| ModuleRegistries.ModuleRegistry.DisposeAll | internal/core/module/registry.go:118-132 | Dispose reaches all modules in reverse order, or nothing when there is no order. |
| FecbusFrame.EncodeFrame | internal/modules/serial/fecbus/protocol.go:15-34 | The wire form, or the first field that is out of range. |
| FecbusFrame.DecodeFrame | internal/modules/serial/fecbus/protocol.go:36-75 | The frame, or the error of the first check that fails. |
| FecbusFrame.DecodesOnlyEncodings | internal/modules/serial/fecbus/protocol.go:15-103 | Bytes decode to a frame exactly when its fields are valid and the bytes are its wire form: both round trips at once. |
| FecbusFrame.ChangedBytesAreNoticed | internal/modules/serial/fecbus/protocol.go:36-75 | Changing one byte or two neighbouring bytes anywhere in a frame, boundaries included, makes decoding fail. |
| FecbusFrame.ExtractFrame | internal/modules/serial/fecbus/protocol.go:174-207 | The two scanning loops find what the first two boundaries enclose, or what is missing. |
| FecbusFrame.ExtractedIff | internal/modules/serial/fecbus/protocol.go:174-207 | A candidate is extracted exactly when the buffer is quiet noise, these bytes of at least 11 between two boundaries, and this rest. |
| FecbusFrame.RestIsSuffix | internal/modules/serial/fecbus/protocol.go:174-207 | What is left over is a suffix of the buffer, strictly shorter after a frame or an error. |
| FecbusReader.ReadFrame | internal/modules/serial/fecbus/session.go:464-514 | The reading loop over arbitrary pieces computes the specified outcome. |
| FecbusPieces.PiecesDoNotMatterIff | internal/modules/serial/fecbus/session.go:464-514 | A stream within the limit is read the same in all pieces of at most 64 bytes, the size of a read, namely as its scan candidate by candidate, exactly when the scan finds no frame, or from each candidate passed over the stream is too long to come in as few reads as there are candidates passed over from there on. |
| FecbusReader.ScanOrNothing | internal/modules/serial/fecbus/session.go:464-514 | In any pieces, a stream within the limit gives the result of its scan or nothing. |
| FecbusPieces.ByteByByteIsScan | internal/modules/serial/fecbus/session.go:464-514 | Byte by byte it gives the result of its scan. |
| FecbusReader.ReadsBehindNoise | internal/modules/serial/fecbus/session.go:464-514 | A frame without an inner boundary, behind noise without one and before any bytes, is returned in any pieces exactly when the buffer is within 256 bytes after the piece that completes it; otherwise the length error. |
| FecbusReader.ReadBehindNoiseIff | internal/modules/serial/fecbus/session.go:464-514 | Such a frame with nothing behind it is read exactly when noise and frame are at most 256 bytes; beyond that, the length error, in whatever pieces. |
| FecbusReader.ReadIffNoBoundaryInside | internal/modules/serial/fecbus/session.go:464-514 | Within the limit, such a frame is read exactly when no boundary byte is inside it. |
| FecbusReader.ReturnedFrameArrived | internal/modules/serial/fecbus/session.go:464-514 | Whatever arrives in whatever pieces, a returned frame stood in it between two boundaries and is what those bytes encode. |
| FecbusReader.NoFrameInside | internal/modules/serial/fecbus/protocol.go:36-103 | No valid frame lies inside another, wherever it might begin. |
| FecbusReader.StrayBoundaryLosesFrame | internal/modules/serial/fecbus/session.go:497-511 | One boundary byte too many before a frame loses the frame, in whatever pieces it comes: the scan finds nothing. |
| FecbusReader.BoundaryInsideValidFrame | internal/modules/serial/fecbus/protocol.go:77-103 | A valid frame whose group number is, or whose data hold, the boundary byte is never read, in whatever pieces and behind whatever quiet noise. |
| FecbusReader.Group126IsNeverRead | internal/modules/serial/fecbus/protocol.go:77-103 | A concrete one: a request in group 126. |
| FecbusPieces.PiecesMatter | internal/modules/serial/fecbus/session.go:497-511 | Otherwise the frame is read byte by byte, and lost in pieces that the port can deliver: byte by byte up to the closing boundary of such a candidate, and in full reads from there on. |
| FecbusPieces.TooFewReads | internal/modules/serial/fecbus/session.go:464-514 | Each read passes over one candidate at most: in as many reads as there are candidates to pass over, no frame is found. |
| FecbusPieces.StrayPairMatters | internal/modules/serial/fecbus/session.go:464-514 | Every readable frame right behind two stray boundaries is read byte by byte and lost in one read. |
| FecbusPieces.StrayPairIff | internal/modules/serial/fecbus/session.go:464-514 | With quiet noise between the two stray boundaries and the frame, the frame is read in all pieces exactly when noise and frame together are at least 64 bytes. |
| FecbusReader.AnswerIsTakenIff | internal/modules/serial/fecbus/session.go:614-776 | A unit's answer can be sent exactly when its address is at most 63, reaches the controller when no boundary is inside, and is taken exactly when the unit has the address that was asked. |
| ChunkCaches.ChunkCache.Fetch | frontend/src/shared/composables/useBlobChunk.ts:24-74 | Each byte is the cached one where its chunk was cached and the store's otherwise, zero behind the data; only missing chunks of the range are queried, each once; at most 256 entries stay, and none is dropped below that. |
| ChunkCaches.ChunkCache.Gather | frontend/src/shared/composables/useBlobChunk.ts:25-62 | The loop over the chunks, which GatherFrom holds, fills the result in place and collects what it queried. |
| ChunkCaches.ChunkCache.Evict | frontend/src/shared/composables/useBlobChunk.ts:64-71 | Above the limit the entries used longest ago go, and no others. |
| ChunkCaches.FreshReadsDirect | frontend/src/shared/composables/useBlobChunk.ts:24-74 | When the cached chunks agree with the store, every byte read through the cache is the byte read directly. |
| ChunkCaches.GrownStoreReadsIff | frontend/src/shared/composables/useBlobChunk.ts:31-49 | From a chunk cached when the store was shorter, a byte is right exactly when it was there already, is still behind the end, or is zero. |
| ChunkCaches.GrownRangeReadsIff | frontend/src/shared/composables/useBlobChunk.ts:24-74 | Of a range fetched again after the store grew, exactly those bytes are right whose chunk was not kept, or that are right in that sense. |
| ChunkCaches.FetchTwice | frontend/src/shared/composables/useBlobChunk.ts:24-74 | Two fetches of one range, before and after the store grows: the second shows those bytes and no others right, and below the entry limit all chunks of the range were kept. |
| ChunkCaches.StaleRead | frontend/src/shared/composables/useBlobChunk.ts:24-74 | From a new cache, two fetches of one byte, with that byte written in between, end in a wrong second answer. |
| ChunkCaches.FetchUnchanging | frontend/src/shared/composables/useBlobChunk.ts:24-74 | Over an unchanging store every fetch equals a direct read, leaves the cache fresh for the next one, and keeps at most 256 entries. |

## Left out

* Operating system ports, sockets, listeners, timers and clocks: their results are parameters, or the list of pieces that arrives.
* The script engine, text encodings, the filter's plain and regex modes and Unicode case folding: arbitrary functions, or not modelled. Filter texts are bytes; error messages are not modelled.
* Of a node's settings only what a start request checks. A number is an integer or not, and its printed text is given with it; the texts of problems are not modelled, and host names are lower-cased as ASCII.
* The engine runs one injection at a time; counters do not wrap at 64 bits, node status texts are not kept, and the asynchronous external write of a virtual node is part of the World.
- DeliveryTheorems.InjectionIsKept: is about all bytes and frames that a node has recorded; InjectionIsRetained and `FrameHistories` say which frames it still holds, and `RingBuffers` which bytes.
- DeliveryEngine.StartSerialGraph: does not refuse the id of a running topology, and does not open ports, sockets and scripts, whose failure stops the topology again.
- DeliveryTheorems.InjectionReachesExactly: is about nodes that pass bytes on unchanged; for scripts, filters and slaves, InjectionVisitsOnce and InjectionAccounts hold.
* The reconnect protocol after a stop request, in the server role, with reconnecting switched off, and with an invalid endpoint configuration.
* The editor's checks of node settings, positions, tabs and selections, and importing, duplicating and removing documents.
- GraphEditor.NextSequence: reads decimal numerals behind the prefix, the form in which the editor writes its ids; JavaScript also reads signs, fractions, exponents and hexadecimal digits there, and takes numerals of more than 308 digits for no number.
- GraphEditor.NextIdIsFreshIff: spells numbers with all their digits; from about 10^17 on JavaScript may write other last digits, and from 10^21 on an exponent.
- GraphEditor.EveryEditingRunIsCoherent: is about runs of at most 2^53 steps, after which the numbers could run out.
- FecbusPieces.PiecesDoNotMatterIff: is about streams of at most 256 bytes, which never exceed the reader's buffer.
* An unknown graph id, which throws, is modelled as an action without effect.
* Of the MODBUS stack: mode names are lower-cased as ASCII, addresses are protocol addresses, and value conversion, scaling and dates are left out. Data type names are an enumeration, and the order of mappings with equal addresses is left open by taking any sorted copy.
- ModbusGrouping.FewestBlocks: is proved under its promise's own conditions, no group-end flags, no oversized mapping and no wrap.
- ModbusSession.AsciiReaderIff: is about a frame that arrives alone; AsciiReaderAssembles has the exact condition with bytes behind it.
- ModbusSession.RtuReaderIff: is about a frame that arrives alone; with bytes behind it in the same read it is not returned, unless the buffer as a whole happens to decode.
- RingBuffers.RingBuffer.Append: takes chunks at the end of the stream, which is where its callers place them; a gap between reading the total and appending is not modelled.
- ModuleRegistries.ModuleRegistry.InitAll: whether a module's Init, Start or Stop fails is a parameter, the same whenever it is called.
* Of FECbus: frame history, retries, the catalogue's texts, and hexadecimal input. Which units a broadcast goes to is not modelled, only what their answers are worth. The decoded frame's raw bytes and time are not part of it.
* The chunk cache serves one fetch at a time; a backend's answer is what the store holds at that moment.
* The MCP server, bindings, views, forms, configuration and workspace files.
