# Verification model of the TSN protocol toolkit

A Dafny model of the parts of the toolkit that promise "bytes out, the same thing back", with proofs that they keep
the promise, or of exactly when they do.

* **The bit codec and the stack codec.** `PacketBuilder` packs fields of any width, most significant bit first;
  `PacketDecoder` reads them back at any octet offset, zeros past the end. `Session` builds and decodes lists and chains
  of interfaces, and drives a bound stack: draw the fields and load every layer's context, run the logic modules'
  `onEncode` over the doubly linked contexts, pack; then slice, reload and run `onDecode`.
* **AXI-Stream framing.** The clocked bridge with its transmit and receive threads around a packet FIFO of depth four,
  and the socket transport that frames packets into ten-byte beats over partial and interrupted reads and writes.
* **Two framings around them.** Capture files in either byte order, and the command line's splitter of name lists in which
  `::` belongs to a name; and the hexadecimal text of frames.

Code that changes things step by step is modelled by methods and classes with the source's fields and loops. Each is
proved equal to a function of its inputs or of its old state, and the laws are proved about those functions, over every
layout, every draw of the random engine, every run and every schedule of partial transfers.

## Layout

| files | contents |
|---|---|
| `bits.dfy`, `sequences.dfy`, `packing.dfy`, `field_codec.dfy`, `packed_numbers.dfy` | machine words, sequence facts, the bit packer and unpacker, laws of whole field lists, both as arithmetic on big-endian numbers |
| `layout.dfy`, `packet_builder.dfy`, `packet_decoder.dfy` | vars and interfaces, value picking, building and decoding one layer |
| `list_codec.dfy`, `chain.dfy`, `packet_laws.dfy` | lists of interfaces; constraints on the wire and values carried along a chain; packets and frames octet by octet |
| `layer_context.dfy`, `logic_modules.dfy`, `stack.dfy`, `stack_builder.dfy`, `session.dfy` | the heap: contexts, modules, adjacency, binding a stack, the session's methods |
| `stack_codec.dfy`, `encode_pass.dfy`, `decode_pass.dfy`, `stack_laws.dfy`, `width_agreement.dfy`, `stack_agreement.dfy`, `session_run.dfy`, `frame_runs.dfy` | the stack codec as steps on its state and its laws |
| `axi_stream.dfy`, `axis_bridge.dfy`, `bridge_laws.dfy`, `bridge_delivery.dfy`, `bridge_run.dfy` | beats, the two threads, runs of the bridge with a device, bounds on delivery |
| `byte_stream.dfy`, `verilator_socket.dfy`, `socket_laws.dfy` | file descriptors, the socket sender and receiver, their laws |
| `pcap.dfy`, `pcap_laws.dfy`, `transport.dfy` | capture files and their laws; both transports from packets to packets |
| `end_to_end.dfy`, `frames_over_bridge.dfy` | both engines together: a stack's frames over a transport, or across the bridge, to a second stack |
| `list_splitter.dfy`, `splitter_laws.dfy`, `hex.dfy` | the list splitter and the hexadecimal text |

`dafny verify dfyconfig.toml` checks everything. Every lemma carries `{:induction false}`: its body is its whole proof, and no
result rests on Dafny's automatic induction.

## How the source's world is represented

* A value is an integer with the source's bounds (`u64`, `u32`, `byte`); `|`, `&` and shifts are the functions of
  `Bits`; casts that lose bits are written as `%`.
* The random engine is a function from positions to raw draws and a position. `PacketBuilding.PickedIffSatisfies` shows
  that the outcomes over all draws are exactly the values a var admits.
* What the wire carries of a value is `FieldCodec.OnWire`: the value modulo 2^min(width, 64). Reported values are not
  truncated, as in the source.
* A bound stack is a sequence of layers on the heap; `Stack.Shows` ties it to a `StackState`, the value the laws are about.
* The logic module's dynamic type is the `kind` field of `LogicModule`.
* A thread of the bridge is suspended at one of its `wait` calls or in the FIFO read; `TxEdge` and `RxEdge` say what a clock
  edge does to it, and `AxisBridge.ResumeTx` and `ResumeRx` are proved to do that. At an edge both threads see the signals
  as they were before it. The device between the ports is any in-order queue, a plain wire included.
* A system call moves as many bytes as a list of outcomes says, is interrupted, or fails; when the list has run out, it moves
  everything.

## Where code and documentation differ

* `traffic-gen/inc/tsn/packet_builder.h:60` says an override supplies fields without a hard constraint "(expectedValues /
  range)"; in the code only expected values block it. `Chains.OverrideOutranksRange` states the effect.
* `traffic-gen/inc/tsn/session.h:128` promises that `fromHex` fails on anything but an even-length hex string; pairs such
  as `" 1"` or `"-1"` are accepted. `HexText.DigitsSuffice` gives the exact relation, `HexText.NotOnlyHex` the examples.
* `parser/inc/tsn/var.h:62` speaks of widths up to 64 bits; `parser/src/validator.cpp:180-183` allows 4096, and the codec
  carries the low 64. The model follows the code.
* A context finds a field's width by its short name, first match first. Two references with one short name and different
  widths can therefore spoil a stack's round trip. `WidthAgreement.RoundTripsIffWidthsAgree` is the exact condition for
  loading, packing and decoding one layer with arbitrary values. `StackAgreement.AllFramesArriveIffCodable` is the exact
  condition for the generated frames of a stack whose modules are passthrough and whose fields may all be 0 and may all
  be 1; where a var admits fewer values a disagreeing width may stay without effect. That agreeing widths are enough
  holds for every stack (`StackLaws.StackRoundTrip`), and a list of interfaces without logic modules needs no such
  condition (`ListCodec.ListRoundTrip`). `StackAgreement.SharedNameFails` is a stack that fails.
* `PcapReceiver` never clears its swap flag, so reopening it on a native file after a foreign one misreads lengths.
  `PcapLaws.ReopenedReplays` and, on the object, `Transport.ReplayLast` give the exact condition, `PcapLaws.ReopenFails`
  a family of failing files.
* A record's length field holds the packet size modulo 2^32. `PcapLaws.PcapRoundTrip` states the exact condition.
* The first name of a joined list may start with colons, the others may not. `SplitterLaws.SplitUndoesJoin` is an
  equivalence.

## Model

| member | source | states |
|---|---|---|
| Packing.AppendBits | traffic-gen/src/packet_builder.cpp:26-42 | the loop ORs exactly the field's bits in, most significant first from the given offset, zeros above bit 63, growing the vector only as far as needed |
| Packing.AppendPacks | traffic-gen/src/packet_builder.cpp:26-42 | appending at the end of a packed stream gives the packed longer stream, zero padded to whole octets |
| Packing.ExtractBits | traffic-gen/src/packet_decoder.cpp:25-44 | the loop reads the low 64 bits of the field, zeros past the end, and consumes the full width |
| PackedNumbers.PackedNumber | traffic-gen/src/packet_builder.cpp:26-42 | any packed fields, as one big-endian number: the values modulo 2^width one after the other, then zero padding to whole octets |
| PackedNumbers.ExtractedNumber | traffic-gen/src/packet_decoder.cpp:25-44 | at any offset of any buffer, zeros past its end: the buffer as one big-endian number, shifted down to the field, modulo 2^min(width, 64) |
| FieldCodec.RoundTrip | traffic-gen/src/packet_decoder.cpp:46-73 | fields packed and laid anywhere into a frame are read back, each modulo 2^min(width, 64) |
| FieldCodec.Reencode | traffic-gen/src/packet_decoder.cpp:25-73 | packing what was decoded keeps every bit of the slice that is a field's low 64 and clears padding and higher bits, for any buffer and offset |
| FieldCodec.DecodeStable | traffic-gen/src/packet_decoder.cpp:25-73 | decode after encode after decode equals decode |
| FieldCodec.ReencodeExact | traffic-gen/src/packet_decoder.cpp:75-83 | for whole octets and fields of at most 64 bits re-encoding gives the slice itself |
| FieldCodec.ZeroExtension | traffic-gen/src/packet_decoder.cpp:33-40 | a truncated buffer decodes like the buffer extended with zero octets |
| Layout.SlotsFromRefs | traffic-gen/src/packet_builder.cpp:142-154 | a layout has one field for every reference that resolves to a var of width > 0, one-bit vars included, in the order of the references, named after the last part of the name |
| Layout.ShortNameIs | traffic-gen/src/packet_builder.cpp:100-104 | the short name is what follows the last "::" |
| PacketBuilding.PickedIffSatisfies | traffic-gen/src/packet_builder.cpp:44-80 | the values a pick can give are exactly those the constraint admits: set, else range in either bound order, else width and mask |
| PacketBuilding.PickedValues | traffic-gen/src/packet_builder.cpp:44-80 | the same in plain numbers: the list, or either order of the range bounds, or 0 without a width, or every x < 2^min(width, 64) that a mask other than 0 leaves as it is |
| PacketBuilding.PacketBuilder.PickValue | traffic-gen/src/packet_builder.cpp:44-80 | the picked value as a function of the var and the next draw, and the draws used up |
| PacketBuilding.PacketBuilder.BuildWithOverrides | traffic-gen/src/packet_builder.cpp:82-125 | fields in reference order, unresolved and zero-width references skipped, an override blocked by expected values only; bytes are the packed fields |
| PacketBuilding.PacketBuilder.BuildWithFields | traffic-gen/src/packet_builder.cpp:127-154 | the same without overrides, one draw per field |
| PacketBuilding.FieldBuilt | traffic-gen/src/packet_builder.cpp:100-154 | every built field: its name, and an override cut by a mask other than 0 unless the field has expected values, else a pick from the next draw not yet used |
| PacketLaws.BuiltNumber | traffic-gen/src/packet_builder.cpp:100-154 | the built octets as a big-endian number: all the fields' values in layout order |
| PacketDecoding.LayerBytes | traffic-gen/src/packet_decoder.cpp:14-23 | ceil(bits / 8), the bits being those of all references that resolve |
| PacketDecoding.Decode | traffic-gen/src/packet_decoder.cpp:46-84 | names and values in layout order; the slice is the octets of the layer cut at the end of the buffer |
| PacketLaws.DecodedField | traffic-gen/src/packet_decoder.cpp:46-73 | every decoded field: its name, and the digits behind the fields before it in the zero-extended frame, modulo 2^min(width, 64) |
| Chains.ConstraintReachesWire | traffic-gen/src/packet_builder.cpp:44-80 | when the constraint fits the width, the value decoded from any frame holding the packet satisfies it |
| Chains.OverrideOutranksRange | traffic-gen/src/packet_builder.cpp:105-118 | an overridden field meets its range exactly when the masked override does |
| Chains.ChainPropagation | traffic-gen/src/session.cpp:44-70 | in every round of a chain a bit of the field is set at stage k exactly if it was at stage 0 and lies in every non-zero mask on the way |
| Chains.ChainConstant | traffic-gen/src/session.cpp:44-70 | without masks the field has the same value at every stage of the round |
| Chains.ChainExpected | traffic-gen/src/packet_builder.cpp:106-108 | a field with expected values stays in its set at every stage of every round |
| Chains.ChainBreaks | traffic-gen/src/session.cpp:52-64 | a name missing from one stage carries nothing past it: the next stage's field is a free pick within its constraint |
| Sessions.Session.GenerateChain | traffic-gen/src/session.cpp:44-70 | the round of packets, each built with the fields of the one before as overrides, and the draws used |
| Sessions.Session.GenerateList | traffic-gen/src/session.cpp:72-88 | the concatenated packets of an interface list |
| PacketLaws.ListStacked | traffic-gen/src/session.cpp:72-88 | the list's frame is its layers' bytes in order |
| Sessions.Session.DecodeList | traffic-gen/src/session.cpp:97-116 | every layer decoded at the summed size of those before it |
| Chains.RoundAt | traffic-gen/src/session.cpp:52-67 | layer k of the round is stage k's packet under the stage's name |
| Chains.StageDraws | traffic-gen/src/session.cpp:44-70 | each stage draws from where the one before stopped, one draw for every field it does not take over |
| Chains.StagePicks | traffic-gen/src/session.cpp:44-70 | the fields a stage does not take over are picked from these draws in order |
| ListCodec.ListRoundTrip | traffic-gen/src/session.cpp:72-116 | decoding a generated list frame gives every layer back, values modulo 2^min(width, 64), with no condition on names |
| ListCodec.ListSlices | traffic-gen/src/session.cpp:97-116 | for any frame the slices put together are the covered part of it |
| LayerContexts.LayerContext.GetValue | parser/inc/tsn/layer_context.h:69-78 | the value of the first field of the name, or none |
| LayerContexts.LayerContext.SetValue | parser/inc/tsn/layer_context.h:86-95 | writes the first field of the name; an unknown name changes nothing and is reported |
| LayerContexts.LayerContext.ByteSize | parser/inc/tsn/layer_context.h:100-107 | the packed size of the fields |
| LayerContexts.LayerContext.BytesAfter | parser/inc/tsn/layer_context.h:115-131 | the octets of the fields after the first field of the name, or none |
| LayerContexts.FirstField | parser/inc/tsn/layer_context.h:69-131 | reading, writing and measuring by name are about the first field of the name |
| LayerContexts.NoField | parser/inc/tsn/layer_context.h:69-95 | without a field of the name there is nothing to read and writing changes nothing |
| LayerContexts.LayerContext.BytesAbove | parser/inc/tsn/layer_context.h:134-141 | walking the upper pointers terminates and sums the packed sizes of exactly the layers above |
| LayerContexts.ChainVisits | parser/inc/tsn/layer_context.h:134-141 | k steps up from layer i reach layer i + k, and null past the top |
| LayerContexts.LowerInverts | parser/src/stack.cpp:12-21 | lower inverts upper in a linked stack |
| Stacks.Stack.WireAdjacency | parser/src/stack.cpp:12-21 | afterwards every context points to its neighbours, for a stack of any height |
| Stacks.WiredLinks | parser/src/stack.cpp:12-21 | a wired stack's contexts form both chains |
| StackBuilders.Build | parser/src/stack_builder.cpp:104-158 | the entries bind, or the first that does not decides the error and there is no stack; a built stack is wired, shares nothing, shows the state the entries describe, and has each entry's names and the module its service declares, passthrough when bypassed or undeclared |
| LogicModules.LogicModule.OnEncode | logic/src/aecp_aem_logic.cpp:22-40 | the hook's effect on the fields as a function of them and of what is above, for every kind of module |
| LogicModules.LogicModule.OnDecode | logic/src/aecp_aem_logic.cpp:42-45 | the module records the field it watches, an absent one leaving the record alone |
| LogicModules.LogicModule.NextLayer | logic/src/avtp_control_logic.cpp:44-53 | the predicted upper service: the one above, at the top the common stream for an Ethernet layer, none for a passthrough |
| LogicModules.LogicModule.EthernetOnEncode | logic/src/ethernet_frame_logic.cpp:15-25 | an absent or zero ethertype becomes 0x22F0, another is kept; the call is counted |
| LogicModules.LogicModule.AvtpControlOnEncode | logic/src/avtp_control_logic.cpp:14-37 | subtype of the family above, and the three invariants |
| LogicModules.EncodeKeepsShape | traffic-gen/src/session.cpp:201-205 | no hook changes field names, order or widths |
| LogicModules.EncodeIdempotent | traffic-gen/src/session.cpp:201-205 | running a hook twice is running it once |
| LogicModules.OthersKept | traffic-gen/src/session.cpp:201-205 | a hook leaves every field alone but the first of the names its kind writes |
| EncodePassLaws.PassOrderFree | traffic-gen/src/session.cpp:201-205 | two encode passes over the same layers, in any order and with any repetitions, leave the same fields |
| EncodePassLaws.LengthDerivation | logic/src/aecp_aem_logic.cpp:22-31 | in every generated frame control_data_length is ceil(bits after it / 8) plus all octets above, modulo 2^64, and frame length = bytes below + d + those octets, d within the octet the field ends in (IEEE 1722.1 section 9.2.1.1.7) |
| EncodePassLaws.CommandStatus | logic/src/aecp_aem_logic.cpp:33-39 | in every generated frame the status is 0 for an even message type and the drawn one for any other |
| EncodePassLaws.AvtpInvariants | logic/src/avtp_control_logic.cpp:27-37 | sv, version and reserved are 0, and the subtype is that of the family above or, for neither family, the drawn one, in every generated frame |
| EncodePassLaws.EthertypeFilled | logic/src/ethernet_frame_logic.cpp:15-25 | in every generated frame an ethertype drawn as 0 is 0x22F0 and any other is the one drawn |
| EncodePassLaws.DrawnFieldsKept | traffic-gen/src/session.cpp:180-205 | in every generated frame every field but the first of the names its module writes is as drawn |
| EncodePassLaws.HooksRunOnce | traffic-gen/src/session.cpp:201-205 | generating a frame counts one call of every Ethernet module and leaves the rest of every module alone |
| EncodePassLaws.PackedSize | traffic-gen/src/session.cpp:207-218 | a layer's packed bytes are as many as its context's byteSize |
| Sessions.Session.PopulateContext | traffic-gen/src/session.cpp:154-178 | the context holds the given values with the width of the first reference of that short name, zero widths dropped |
| StackLaws.WidthOfIs | traffic-gen/src/session.cpp:160-173 | the width found for a short name is that of the first reference with it, 0 when that does not resolve |
| StackLaws.LoadedFields | traffic-gen/src/session.cpp:154-178 | the context holds exactly the values whose names lead to a width other than 0, in order, with that width |
| Sessions.Session.GenerateStack | traffic-gen/src/session.cpp:180-221 | the frame, the new state of every context and module, and the draws used, on the heap |
| PacketLaws.GeneratedStacked | traffic-gen/src/session.cpp:207-218 | the frame is the reported layers' bytes, bottom-up, and nothing else |
| PacketLaws.GeneratedReports | traffic-gen/src/session.cpp:207-218 | layer i is reported under its service with the names and untruncated values of its context and the packed bytes |
| Sessions.Session.DecodeStack | traffic-gen/src/session.cpp:223-267 | the decoded layers and the new state of every context and module; in a wired stack no prediction diverges |
| StackLaws.DistinctNamesAgree | traffic-gen/src/session.cpp:160-173 | distinct short names make every lookup find the field's own width |
| StackLaws.StackRoundTrip | traffic-gen/src/session.cpp:180-267 | for any bound stack, draws and module states, decoding a generated frame on any state of the stack gives the same layer names, slices and field names, values modulo 2^min(width, 64) |
| StackLaws.NoInterfaceNoBytes | traffic-gen/src/session.cpp:191-195 | a layer without an interface takes no bytes in either direction |
| StackLaws.StackSlices | traffic-gen/src/session.cpp:223-267 | for any frame the reported slices put together are its first min(length, layout) octets |
| StackLaws.TruncatedFrame | traffic-gen/src/session.cpp:223-267 | a truncated frame decodes to the values of the zero-extended one |
| StackLaws.HistoryIndependence | traffic-gen/src/session.cpp:154-267 | after any run of generates and decodes a stack gives the frame a fresh one gives for the same draws |
| DecodePassLaws.ContextsCarryOver | traffic-gen/src/session.cpp:244-249 | after decoding a generated frame every context holds the generated fields, values modulo 2^min(width, 64) |
| DecodePassLaws.ModulesRemember | traffic-gen/src/session.cpp:248-249 | each module then remembers, of the field it watches, what was sent as the wire carries it |
| DecodePassLaws.LengthIsLearnt | logic/src/aecp_aem_logic.cpp:42-45 | the length learnt from a frame is the one derived when it was generated, modulo 2^width |
| WidthAgreement.RoundTripsIffWidthsAgree | traffic-gen/src/session.cpp:160-177 | loading a layer by short name, packing and decoding it keeps all values if and only if every short name leads to the field's own width |
| StackAgreement.CodableArrives | traffic-gen/src/session.cpp:180-267 | agreeing widths make every generated frame of any stack arrive: layer names, slices, field names, values modulo 2^min(declared width, 64) |
| StackAgreement.AllFramesArriveIffCodable | traffic-gen/src/session.cpp:160-221 | for a stack of passthrough modules whose fields admit 0 and 1, every frame arrives for all draws if and only if every short name leads to the field's own width |
| StackAgreement.SharedNameFails | traffic-gen/src/session.cpp:160-173 | a one-layer stack with two references of one short name and widths 8 and 16 sends frames that do not arrive |
| SessionRuns.GenerateThenDecode | traffic-gen/src/session.cpp:180-267 | the round trip on the heap: generate and decode on one stack object |
| SessionRuns.FrameAfter | traffic-gen/src/session.cpp:180-267 | history independence on the heap: after any mix of operations the next frame is a fresh stack's for the draws that follow those the generated frames used |
| AxiStream.PackBeat | sim/src/axis_bridge.cpp:34-46 | the OR loop builds the little-endian word of the next up to eight octets, with TKEEP and TLAST |
| AxiStream.BeatOctets | sim/src/axis_bridge.cpp:34-46 | octet i of TDATA is the packet's next octet but i, zero past its end; bit i of TKEEP says whether there is one; TLAST whether none is left |
| AxiStream.UnpackBeat | sim/src/axis_bridge.cpp:80-88 | appends exactly the octets TKEEP marks |
| AxiStream.PayloadOctets | sim/src/axis_bridge.cpp:80-88 | unpacking any beat gives exactly the octets whose TKEEP bit is set, lowest first |
| AxiStream.PayloadOfBeat | traffic-gen/src/verilator_receiver.cpp:86-91 | unpacking a beat gives the octets it was made of |
| AxiStream.BeatsShape | traffic-gen/src/verilator_sender.cpp:86-113 | ceil(n/8) beats, TLAST on the last only, TKEEP 0xFF on all others |
| AxiStream.FeedPackets | traffic-gen/src/verilator_receiver.cpp:74-98 | reassembling the beats of a list of packets gives its non-empty packets in order |
| AxisBridges.AxisBridge.PushTxPacket | sim/inc/axis_bridge.h:75-77 | the packet goes behind the others exactly when fewer than four are waiting, and is otherwise refused |
| AxisBridges.AxisBridge.ResumeTx | sim/src/axis_bridge.cpp:18-59 | one resumption of the transmit thread at an edge, from any point it can be suspended at |
| AxisBridges.AxisBridge.WakeTx | sim/src/axis_bridge.cpp:26-28 | the blocked FIFO read returns between edges |
| BridgeLaws.WakeTakes | sim/src/axis_bridge.cpp:26-28 | a blocked read takes the first packet at once; no packet is left beside a blocked thread |
| AxisBridges.AxisBridge.ResumeRx | sim/src/axis_bridge.cpp:69-98 | one resumption of the receive thread: a completed packet is delivered, then a valid beat is sampled |
| BridgeLaws.Conservation | sim/src/axis_bridge.cpp:18-98 | after any interleaving of pushes and edges: accepted = reassembled from transferred beats + in flight + FIFO, in order, the FIFO at most 4; the receiver holds what it sampled |
| BridgeLaws.DeliveredInOrder | sim/src/axis_bridge.cpp:69-98 | through any in-order device, on_rx has been given a prefix of the accepted non-empty packets |
| BridgeLaws.DeliveredAtEdge | sim/src/axis_bridge.cpp:69-98 | at every edge on_rx has been given exactly the packets completed by beats sampled at earlier edges |
| BridgeLaws.DirectTransfer | sim/src/axis_bridge.cpp:48-51 | wired straight across, after every edge the beats transferred are the beats sampled |
| BridgeLaws.DirectDelivers | sim/src/axis_bridge.cpp:69-98 | wired straight across, the accepted packets are those received, in flight and in the FIFO, at most the last complete one not yet handed over |
| BridgeLaws.SignalsHold | sim/src/axis_bridge.cpp:43-49 | once TVALID is high it and TDATA, TKEEP, TLAST hold until an edge samples TREADY (section 2.2 of ARM IHI 0051) |
| BridgeLaws.PortsIdle | sim/src/axis_bridge.cpp:53-57 | TVALID is high exactly while a beat is offered, and TLAST is low whenever TVALID is |
| BridgeLaws.Draining | sim/src/axis_bridge.cpp:33-52 | while a packet is out, the beats sent are its first ones, one for each edge that saw TREADY |
| BridgeLaws.BoundedProgress | sim/src/axis_bridge.cpp:30-57 | with TREADY high at least once in every k edges, an n-octet packet goes out in exactly ceil(n/8) transfers and the thread is back at the FIFO within k * ceil(n/8) + 1 edges |
| BridgeDelivery.RunAccounted | sim/src/axis_bridge.cpp:18-59 | after every run the beats sent and those still to go are exactly the beats of the accepted packets |
| BridgeDelivery.AllDelivered | sim/src/axis_bridge.cpp:18-98 | from any reachable state, with TREADY at one of every k edges and a device that hands on a beat at one of every j, everything accepted so far has reached on_rx within k edges a beat to go, one a packet in the FIFO, j a beat not sampled, and one; pushes may go on meanwhile |
| BridgeDelivery.ExactlyDelivered | sim/src/axis_bridge.cpp:18-98 | when nothing more is pushed, on_rx has then been given exactly the accepted non-empty packets |
| BridgeRuns.Simulate | sim/src/axis_bridge.cpp:18-98 | the bridge object driven through any run behaves as the step relation and delivers a prefix of what it accepted |
| VerilatorSockets.VerilatorSender.WriteAll | traffic-gen/src/verilator_sender.cpp:57-74 | everything is written whatever the partial writes and interruptions; on failure a prefix |
| VerilatorSockets.VerilatorSender.Send | traffic-gen/src/verilator_sender.cpp:76-116 | appends the packet's beats in their ten-byte form, nothing for an empty packet, a prefix on failure |
| SocketLaws.SentOctets | traffic-gen/inc/tsn/axi_stream_beat.h:25-31 | every octet a send writes, from the packet alone: eight of data, zeros past the end, then TKEEP, then TLAST |
| VerilatorSockets.VerilatorReceiver.ReadAll | traffic-gen/src/verilator_receiver.cpp:55-72 | exactly the next len bytes, or the end when there are fewer |
| VerilatorSockets.VerilatorReceiver.Receive | traffic-gen/src/verilator_receiver.cpp:74-98 | without read errors the outcome is a function of the unread bytes alone |
| SocketLaws.BeatReadLayout | traffic-gen/inc/tsn/axi_stream_beat.h:25-31 | the beat a receiver makes of ten octets |
| SocketLaws.ReceiveTakes | traffic-gen/src/verilator_receiver.cpp:74-98 | a receive takes the beats up to the first whose tenth octet is not 0 and returns what they carry |
| SocketLaws.ReceiveEnds | traffic-gen/src/verilator_receiver.cpp:74-98 | without such a beat it reports the end |
| SocketLaws.BeatRoundTrip | traffic-gen/inc/tsn/axi_stream_beat.h:25-31 | a beat survives its packed ten-byte form |
| SocketLaws.SocketRoundTrip | traffic-gen/src/verilator_receiver.cpp:74-98 | repeated receives return exactly the non-empty packets sent, in order, then the end |
| SocketLaws.SocketCut | traffic-gen/src/verilator_receiver.cpp:74-98 | a stream cut anywhere gives a prefix of them, with at least every packet that lies before the cut |
| SocketLaws.UnfinishedPacket | traffic-gen/src/verilator_receiver.cpp:74-98 | a stream that stops within a packet gives exactly the packets before it |
| Transport.SendLoop | traffic-gen/tools/packet_gen_main.cpp:506-518 | the packets before the first failed send lie whole on the stream, the failed one in part only; without an error other than EINTR all are sent |
| Transport.ReceiveLoop | traffic-gen/tools/packet_gen_main.cpp:476-489 | the receive loop takes the non-empty packets in order, all of them up to the end or exactly the count |
| Transport.OverSocket | traffic-gen/src/verilator_sender.cpp:57-116 | packets to packets for any outcomes of the system calls and any cut: only non-empty packets whose send succeeded arrive, in order, and when no read fails at least those before the cut, then the end |
| Transport.RecordLoop | traffic-gen/tools/packet_gen_main.cpp:506-518 | the packets before the first failed send lie in the file as whole records, the failed one in part only; a write that is interrupted, fails or moves nothing is such a failure |
| Transport.TakeLoop | traffic-gen/tools/packet_gen_main.cpp:476-489 | the receive loop over a capture file: the non-empty packets in order, all of them up to the call that returns none, or exactly the count |
| Transport.OverFile | traffic-gen/tools/packet_gen_main.cpp:476-518 | packets to packets through a capture file between machines of any byte order and for any outcomes of the system calls: of packets under 2^32 octets exactly the non-empty ones whose send succeeded arrive, a front of them when a read fails; when all were sent, exactly the non-empty packets and then the end, if and only if all are under 2^32 octets |
| PcapFiles.PcapSender.Open | traffic-gen/src/pcap_sender.cpp:69-84 | the new file holds the 24-byte header, or opening failed and no file is held |
| PcapLaws.FileHeaderOctets | traffic-gen/src/pcap_sender.cpp:22-31 | the 24 octets a capture file starts with, in either byte order |
| PcapFiles.PcapSender.Send | traffic-gen/src/pcap_sender.cpp:86-107 | appends one record, or a prefix of it on failure |
| PcapLaws.CaptureHeader | traffic-gen/src/pcap_sender.cpp:33-39 | the sixteen octets before a packet: seconds, microseconds, and twice the size modulo 2^32 |
| PcapFiles.PcapSender.WriteAll | traffic-gen/src/pcap_sender.cpp:41-51 | all bytes, or a prefix when a write is interrupted, fails or moves nothing |
| PcapFiles.PcapReceiver.Open | traffic-gen/src/pcap_receiver.cpp:59-89 | succeeds exactly on a full header with either magic number; the swap flag is set for the other order and otherwise left |
| PcapLaws.MagicOctets | traffic-gen/src/pcap_receiver.cpp:18-19 | the two magic numbers as the first four octets of a file, for a reader of either order |
| PcapFiles.PcapReceiver.ReadAll | traffic-gen/src/pcap_receiver.cpp:30-45 | the next len bytes whatever the partial reads and interruptions, or failure |
| PcapFiles.PcapReceiver.Receive | traffic-gen/src/pcap_receiver.cpp:91-114 | the outcome as a function of the unread bytes, the machine's order and the swap flag |
| PcapLaws.AnnouncedOctets | traffic-gen/src/pcap_receiver.cpp:97-101 | the length taken from a record header is octets 8 to 11, lowest or highest first according to the machine and the swap flag |
| PcapLaws.SwapReverses | traffic-gen/src/pcap_receiver.cpp:24-28 | swap32 reverses the octets of a word |
| PcapLaws.PcapRoundTrip | traffic-gen/src/pcap_receiver.cpp:91-114 | in the receiver's order or the other: the packets recorded and then the end if and only if all are under 2^32 octets, and the same when empty packets are passed over |
| PcapLaws.PcapCut | traffic-gen/src/pcap_receiver.cpp:91-114 | a file cut in record k gives the k packets before it, then the end when the cut is in the header and a receive error when it is in the packet |
| PcapLaws.ReplaysIffLengthsKept | traffic-gen/src/pcap_receiver.cpp:91-114 | whatever the header formats, a file replays exactly if and only if every length is read as written |
| PcapLaws.ShownIffLengthsKept | traffic-gen/tools/packet_gen_main.cpp:486 | that condition does not change when empty packets are passed over, given that a header announces 0 only for an empty packet or one too large to announce |
| PcapLaws.SwapSticks | traffic-gen/src/pcap_receiver.cpp:78-80 | after several opens the flag is set if and only if some file was foreign |
| PcapLaws.ReopenedReplays | traffic-gen/src/pcap_receiver.cpp:59-114 | the file opened last replays exactly, empty packets passed over or not, if and only if all packets are under 2^32 octets when the flag is right (the file is foreign or all were native), and every length is symmetric when it is wrong |
| Transport.ReplayLast | traffic-gen/src/pcap_receiver.cpp:59-114 | the same for one receiver object that opens several files in turn and takes the non-empty packets of the last |
| PcapLaws.ReopenFails | traffic-gen/src/pcap_receiver.cpp:59-114 | a native file with one short packet, opened after a foreign one, ends in a receive error |
| FrameRuns.RunRoundTrip | traffic-gen/src/session.cpp:180-267 | decoding the frames of a run, on any stack bound alike, reports every layer as generated |
| EndToEnd.AcrossSocket | traffic-gen/tools/packet_gen_main.cpp:476-518 | frames of one stack over the socket to a second stack bound alike, for any outcomes of the system calls: exactly the frames whose send succeeded are reported, as generated and in order, then the end (a front of them when a read fails); a layout of no octets shows nothing |
| EndToEnd.AcrossFile | traffic-gen/tools/packet_gen_main.cpp:476-518 | the same through a capture file between machines of any byte order, for frames under 2^32 octets; and when all were sent, all that must be shown is shown and then the end, if and only if a frame is under 2^32 octets or there is none |
| EndToEnd.BuiltAcrossSocket | parser/src/stack_builder.cpp:104-158 | from layer entries to reports: whenever the entries bind and the widths agree, the two stacks built from them meet all that the theorems ask for |
| FramesOverBridge.AcrossBridge | sim/src/axis_bridge.cpp:18-98 | frames of one stack pushed into the clocked bridge and decoded by a second: when every push was accepted, nothing else is reported, in order, and all of them after the bound of clock edges |
| FramesOverBridge.BurstAccepted | sim/inc/axis_bridge.h:75-77 | up to four frames offered at once are all accepted |
| ListSplitter.ReplaceAll | traffic-gen/tools/packet_gen_main.cpp:273-274 | the find and replace loop terminates and replaces every occurrence from the left without overlaps |
| ListSplitter.Split | traffic-gen/tools/packet_gen_main.cpp:265-288 | the three loops terminate and append the restored non-empty pieces |
| SplitterLaws.SplitIsScan | traffic-gen/tools/packet_gen_main.cpp:265-288 | for any text the three loops do what one pass does: "::" belongs to the name, any other colon ends it, \x01 stands for "::", empty names are left out |
| SplitterLaws.SplitUndoesJoin | traffic-gen/tools/packet_gen_main.cpp:265-288 | splitting undoes joining if and only if all names are non-empty, free of \x01 and of odd colon runs, and none but the first starts with a colon |
| SplitterLaws.SplitIsSplittable | traffic-gen/tools/packet_gen_main.cpp:265-288 | from any text without \x01 the splitter yields such a list |
| HexText.ToHex | traffic-gen/src/session.cpp:269-279 | two lower-case digits per octet, high half first |
| HexText.TextDigits | traffic-gen/src/session.cpp:269-279 | the two characters of every octet, in lower case |
| HexText.PairParsed | traffic-gen/src/session.cpp:288-295 | strtoul consumes exactly the pairs digit-digit, space-digit and sign-digit, with that low octet |
| HexText.Characters | traffic-gen/src/session.cpp:288-295 | which characters are digits, spaces and signs, and what a digit is worth |
| HexText.PairOctet | traffic-gen/src/session.cpp:288-296 | the octet of a taken pair |
| HexText.FromHex | traffic-gen/src/session.cpp:281-298 | accepts exactly an even number of characters in such pairs, and returns their octets |
| HexText.HexRoundTrip | traffic-gen/src/session.cpp:269-298 | fromHex accepts what toHex writes and reads it back |
| HexText.DigitsSuffice | traffic-gen/src/session.cpp:281-298 | only hex digits is the same as accepted with no pair starting with a space or a sign |
| HexText.NotOnlyHex | traffic-gen/src/session.cpp:288-295 | a space or a sign before a digit is accepted although it is no hex digit |

## Left out

- LogicModules.LogicModule.OnEncode: models the passthrough, Ethernet, AVTP control and AECP AEM modules; user-written modules are not part of the model.
- PcapFiles.PcapReceiver.Receive: does not model what is left in the caller's packet after a failed receive.
- VerilatorSockets.VerilatorReceiver.ReadAll: does not model waiting for a peer; the stream is complete, or cut, before it is read.
- HexText.FromHex: does not state which octets are left in the output after a malformed pair.
- `interfaceForLayer` is a fixed function of a layer's three names; its search of the interface database is not modelled.
- The Mersenne Twister and the distributions' algorithms: a pick is a function of a raw draw.
- Widths of 2^31 bits and more, which the codec's loops convert to a negative number, and `size_t` overflow of frame sizes; the 64-bit wrap of a derived length is modelled.
- SystemC delta cycles: a signal or a FIFO slot written in one step is visible in the next. The device takes and hands on beats in order; a device that drops or invents beats is outside the claims.
- Beats travel between programs on one little-endian machine; capture files are modelled for both byte orders.
- Opening, connecting and closing descriptors, raw sockets, the memory-mapped parser input and logging.
- YAML parsing, the validator and the databases' construction: the model starts from a database of vars, the names services declare, the registered modules and a list of layer entries.
- The command line sends each frame as soon as it is generated; `EndToEnd` generates all n first. What a frame holds does not depend on sending, but the command line stops generating at a failed send.
- In the bridge's delivery bound the FIFO is taken to wake the blocked transmit thread before the next clock edge, as SystemC does.
- JSON output, usage text, the command line other than the list splitter and the send and receive loops, `TrafficGenerator`, `VerilatorNetDevice` and the ns-3 side.
