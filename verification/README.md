# A verified model of the CADR evidence tools

The repository checks a CADR emulator against oracles. Its scripts and two small C programs carry the
algorithms that decide whether evidence is believed: binary trace formats with hash chains, a scheduler
transcript, an audio renderer, a key schedule, a clock, SHA-256, and the outline tracer of the
documentation build. This project models those algorithms in Dafny and proves what they are for.
`dafny verify dfyconfig.toml` checks everything.

Functions model code that computes values; methods with loops, arrays and classes model code that changes
things step by step, and each such method is proved against a function or a predicate. Hash functions of
the trace formats are parameters (`Hash`): every statement about them holds for any function, and binding
theorems read "equal, or here are two different strings that hash alike". Python exceptions and error
returns are `Result.Err`, without their message texts.

The modules named `...Reference`, `GeneralTracePayloads`, `Fips180Words` and `AudioSine` say each format and function a
second time, from its definition and in other words: fields by byte offset, kinds, classes and flags by number, registers bit
by bit, the sine by its half-angle formulas. Each ends in an equivalence with the model, for all inputs.

| files | what they model |
|---|---|
| `FiniteSums`, `OutlineGeometry`, `OutlinePolygon`, `OutlineWalks`, `OutlineTracer` | the bitmap outline tracer |
| `WordOperators`, `Fips180Constants`, `Fips180`, `Fips180Words`, `Sha256Block`, `HostDropperSha256`, `PeerConnectSha256`, `Sha256Agreement` | two streaming SHA-256 implementations in C, and FIPS 180-4 |
| `Crc32c`, `TlvFraming`, `RecordFraming`, `Bytes`, `Arithmetic` | what both trace formats share |
| `GeneralTrace*` | CDRGTRC1: codec, rules, parser and grammar, builders, stripping and rebuilding, comparison |
| `OracleTrace*` | CDRTRC1: codec, parser and grammar, shape of accepted traces, file chain, builders |
| `UpstreamReader`, `UpstreamNormalizer`, `UpstreamAgreement`, `UpstreamGrammar`, `UpstreamConverse`, `UpstreamCaptures` | the second, separately written decoder of CDRTRC1, its own grammar, and both directions of its agreement with the first |
| `SchedulerEvents`, `SchedulerTranscript`, `SchedulerBytes`, `SchedulerReference` | the CDRM5TR1 scheduler transcript |
| `AudioRenderer`, `AudioSine`, `AudioPackets`, `AudioReference` | the fixed-table beeper renderer, its table and its packets |
| `CadetFrames`, `CadetPacing`, `CadetSchedule`, `CadetReference` | the raw-Cadet key schedule and the witness's check of it |
| `WitnessClock` | the witness's clock deadlines and the chronology of captured rows |

## Main results

- The outline of any finite set of pixels winds once around exactly the pixels of the set, traces each exposed
  unit edge exactly once, has as area the number of pixels, keeps only corners, and lets each contour border
  one four-connected component. Contours come in the order of their least vertices. The walk never meets an open boundary (`OutlineTracer.BitmapUnionContours`).
- Both trace parsers, with all their running flags, accept exactly a declarative grammar, which is the one the format
  gives by offsets and numbers alone, and printer and parser undo each other both ways up to the whole file.
- Comparing two accepted CDRGTRC1 traces succeeds exactly when they are logically equal, up to an explicit
  hash collision; the final digest alone binds everything but the terminal's reason.
- The second CDRTRC1 decoder accepts exactly a grammar of its own. Of what the codec accepts it takes exactly the
  limit runs whose cycles are their ordinals, with the same semantic hashes; of what it accepts the codec takes
  exactly the files that pass the checks it leaves out.
- Equal final chains of any two accepted CDRTRC1 files mean equal files, up to an explicit hash collision.
- Both C programs compute SHA-256 of FIPS 180-4 for every way of cutting up the input.
- A CDRM5TR1 transcript is strictly sorted by due tick, priority and insertion; a due group is a run of the
  machine's own step, and carries the 60 Hz clock without drift.
- Beeper packets tile their job, any consecutive pieces render to one continuous stream, and the table index
  is never more than one entry behind the exact phase while a job plays. Beyond that the lag is an exact number of
  entries, and an exact condition says where it stays at one.
- The key schedule is accepted by the separate validator exactly when all its keys can be typed, and it is
  then uniquely decodable; deadlines strictly increase under an exact condition on the start of form A,
  which the release meets for every key mapping.

## Where the code and its comments, or two programs, disagree

- `scripts/cadr_general_trace.py:313-316` says that device event codes run from 1 to 5; the schema check at
  lines 198 and 208 admits code 6 as well. The model follows the code: device codes run from 1 to 6 and only
  code 5 has a place in the slot (`GeneralTraceBuilders.DeviceEventPosition`), and a record with code 6 that passes
  every check is built as a host lifecycle event (`GeneralTraceBuilders.CodeSixIsLifecycle`).
- The normalizer (`scripts/cadr-m3-upstream-native-oracle.py:441-604`) reads the codec's format but makes fewer checks, so
  the two do not accept the same files. `UpstreamConverse.CodecAgreesWithNormalizer` says which checks are left out, and
  `UpstreamCaptures.NormalizerTakesMore` is a capture with an unknown flag bit that it takes and the codec refuses.
- The normalizer's default of 1,000,000 slots (`scripts/cadr-m3-upstream-native-oracle.py:32`) needs 1,000,002 records,
  two more than the codec admits (`scripts/cadr_oracle_trace.py:24`), so no trace satisfies both decoders at the
  default (`UpstreamAgreement.CodecLimitBarsLongRuns`).
- `semantic_boundary_hash` (`scripts/cadr_oracle_trace.py:245-252`) re-encodes a parsed payload to see that it is canonical.
  `TlvFraming.PrintParsedTlvs` shows that this check cannot fail once the payload has been parsed.
- The key-before-clock check of the witness (`scripts/cadr-m6-native-witness.py:653-658`) never refuses a capture: it could
  fail only for an event beyond the horizon (`WitnessClock.CoincidenceOnlyBeyondHorizon`), and the checks before it put
  every event before boundary B (`WitnessClock.CoincidenceNeverFails`).

## Model

| member | source | states |
|---|---|---|
| OutlineGeometry.ExposedIff | scripts/build-docs-site.py:295-305 | the collected edges are exactly the unit edges with ink on the left and none on the right |
| OutlineGeometry.SuccExposed | scripts/build-docs-site.py:336-348 | the leftmost-turn successor of an exposed edge is exposed: the boundary never ends |
| OutlineGeometry.SuccInjective | scripts/build-docs-site.py:336-348 | no two exposed edges have the same leftmost successor, so walks cannot merge |
| OutlineGeometry.SuccIsLeftmost | scripts/build-docs-site.py:311-326 | the successor has a strictly higher turn score than every other exposed edge leaving the vertex |
| OutlineGeometry.TwoWaysOut | scripts/build-docs-site.py:331-333 | two edges leave a vertex only in opposite directions at a diagonal contact of ink, with the other two cells blank, and one of them points to a smaller vertex |
| OutlineGeometry.SuccKeepsComponent | scripts/build-docs-site.py:287-293 | a leftmost turn stays beside the same four-connected ink |
| OutlineGeometry.Green | scripts/build-docs-site.py:287-305 | an antisymmetric edge weight summed over the exposed edges is its sum around every pixel: inner edges cancel |
| OutlinePolygon.AtLeastFourPoints | scripts/build-docs-site.py:350-363 | a closed rectilinear polygon that never runs back over itself has at least four points |
| OutlinePolygon.LeastIsCorner | scripts/build-docs-site.py:350-363 | the least point of a polygon is a corner, so simplifying keeps a contour's first point |
| OutlinePolygon.WithoutKeepsSum | scripts/build-docs-site.py:357-361 | dropping a point between its neighbours changes no additive weight summed along the polygon |
| OutlinePolygon.Simplify | scripts/build-docs-site.py:350-363 | leaves at least four points, all of them corners and all from the input, with the same trace for every additive weight |
| OutlineWalks.LeastLeavesAlone | scripts/build-docs-site.py:331-333 | no second unused edge leaves the start of the least unused edge |
| OutlineTracer.LeastStartsFirst | scripts/build-docs-site.py:330-333 | the least unused edge starts strictly before every other unused edge, so each contour starts at its least vertex and after the contours before it |
| OutlineWalks.WalkGoesOn | scripts/build-docs-site.py:336-348 | until it is back at its start, a walk's leftmost continuation is still unused |
| OutlineWalks.WalkCloses | scripts/build-docs-site.py:336-348 | a walk that comes back to its start vertex has closed a cycle of leftmost turns |
| OutlineWalks.CycleRemoved | scripts/build-docs-site.py:330-348 | taking a closed walk away leaves an edge set that is still a union of cycles |
| OutlineWalks.CycleIsRectilinear | scripts/build-docs-site.py:334-348 | a closed walk is a rectilinear polygon that never reverses |
| OutlineWalks.OutlineSum | scripts/build-docs-site.py:328-365 | the simplified contours sum an additive weight over exactly the edges they were walked off |
| OutlineWalks.WindingIsMembership | scripts/build-docs-site.py:287-293 | the outline winds once around every pixel of the set and not at all around any other |
| OutlineWalks.AreaIsPixelCount | scripts/build-docs-site.py:350-365 | the signed areas of the contours add up to the number of pixels |
| OutlineWalks.TracedOnce | scripts/build-docs-site.py:295-365 | every exposed edge is traced once in its own direction, and nothing else is traced |
| OutlineWalks.ContourBordersOneComponent | scripts/build-docs-site.py:287-293 | all ink along one contour is four-connected: diagonal contacts stay separate |
| OutlineTracer.CollectEdges | scripts/build-docs-site.py:295-305 | the loop collects the exposed edges of all pixels and no others |
| OutlineTracer.LeftmostOf | scripts/build-docs-site.py:343-346 | no candidate has a higher key of turn score and vertex than the one chosen |
| OutlineTracer.WalkContour | scripts/build-docs-site.py:331-348 | never fails, terminates, and takes exactly one cycle of leftmost turns out of the unused edges |
| OutlineTracer.BitmapUnionContours | scripts/build-docs-site.py:284-365 | succeeds for every finite set, with winding numbers, traced edges, area, corners and components as the results above say; contours come in the order of their least vertices, each starting with its own |
| Fips180Constants.RoundConstant | scripts/cadr-m7-p4-host-dropper.c:154-171 | each round constant is the fraction of the cube root of its prime, as section 4.2.2 of FIPS 180-4 defines it |
| Fips180Constants.InitialValue | scripts/cadr-m7-p4-host-dropper.c:203-206 | each initial word is the fraction of the square root of its prime (section 5.3.3) |
| WordOperators.OperatorBits | scripts/cadr-m6-systemd-peer-connect.c:130-166 | and, or, exclusive or and complement do to each bit what they should |
| WordOperators.RotrBits | scripts/cadr-m7-p4-host-dropper.c:172-195 | rotating right by n puts bit i + n, around the word, at i |
| Fips180Words.ChoiceBits | scripts/cadr-m7-p4-host-dropper.c:184-195 | bit by bit, Ch chooses by its first argument and Maj takes the bit two of three have |
| Fips180Words.BigSigmaBits | scripts/cadr-m7-p4-host-dropper.c:184-195 | bit by bit, the large sigmas add the rotations by 2, 13, 22 and 6, 11, 25 |
| Fips180Words.SmallSigmaBits | scripts/cadr-m7-p4-host-dropper.c:172-183 | bit by bit, the small sigmas add the rotations by 7, 18 and 17, 19 and the shifts by 3 and 10 |
| Fips180Words.StoredWord | scripts/cadr-m7-p4-host-dropper.c:142-149 | a word is stored most significant byte first |
| Fips180Words.LoadedWord | scripts/cadr-m7-p4-host-dropper.c:135-140 | a word is loaded most significant byte first |
| Fips180Words.ScheduleStarts | scripts/cadr-m7-p4-host-dropper.c:172-176 | the first sixteen scheduled words are the block read four bytes at a time, most significant first |
| Fips180Words.DigestWords | scripts/cadr-m6-systemd-peer-connect.c:185-193 | every four bytes of a digest are, most significant first, a word of the final hash value |
| Fips180Words.ConstantsInPlace | scripts/cadr-m7-p4-host-dropper.c:154-206 | constant t and initial word i are the fractions of the roots of prime t and prime i |
| Fips180.PaddingIsStandard | scripts/cadr-m7-p4-host-dropper.c:226-235 | the padded message is the one section 5.1.1 defines, with the bit length in the last eight bytes |
| Fips180.PaddingInjective | scripts/cadr-m7-p4-host-dropper.c:226-235 | no two messages share a padded form |
| Sha256Block.Expand | scripts/cadr-m7-p4-host-dropper.c:172-183 | filling the word array in place gives the message schedule of section 6.2.2, though its terms are added in another order |
| Sha256Block.Mix | scripts/cadr-m7-p4-host-dropper.c:184-195 | rotating eight variables through 64 rounds computes the standard's working variables |
| Sha256Block.Transform | scripts/cadr-m6-systemd-peer-connect.c:130-166 | the state words are updated in place to the next intermediate hash value |
| HostDropperSha256.Sha256State.Update | scripts/cadr-m7-p4-host-dropper.c:211-224 | appends any piece to the message hashed, across block boundaries |
| HostDropperSha256.Sha256State.PadToLength | scripts/cadr-m7-p4-host-dropper.c:226-234 | the byte-by-byte padding loop ends at byte 56 after exactly the standard number of zeros |
| HostDropperSha256.Sha256State.Final | scripts/cadr-m7-p4-host-dropper.c:226-237 | writes the SHA-256 of everything passed to the update calls |
| PeerConnectSha256.Sha256State.Update | scripts/cadr-m6-systemd-peer-connect.c:174-183 | appends any piece to the message hashed, across block boundaries |
| PeerConnectSha256.Sha256State.PadToLength | scripts/cadr-m6-systemd-peer-connect.c:185-190 | padding written into the block, with a second block when it does not fit, is the standard's |
| PeerConnectSha256.Sha256State.Final | scripts/cadr-m6-systemd-peer-connect.c:185-193 | writes the SHA-256 of everything passed to the update calls |
| Sha256Agreement.Agree | scripts/cadr-m6-systemd-peer-connect.c:168-193 | both programs give the same digest for the same bytes, however each input is cut into pieces |
| Crc32c.LookupIsEightSteps | scripts/cadr_general_trace.py:91-97 | one table lookup does the work of eight steps of the shift register |
| Crc32c.GeneratorIs | scripts/cadr_general_trace.py:87-98 | the register starts with all ones and its polynomial has the exponents of the generator in appendix B of RFC 4960 |
| Crc32c.Compute | scripts/cadr_general_trace.py:87-98 | the table-driven loop computes the bit-serial CRC-32C of appendix B of RFC 4960 |
| Crc32c.BurstDetected | scripts/cadr_oracle_trace.py:93-111 | strings of equal length that differ only within four consecutive bytes have different CRCs |
| TlvFraming.ParsePrintedTlvs | scripts/cadr_general_trace.py:130-153 | parsing an encoded item list gives the list back |
| TlvFraming.PrintParsedTlvs | scripts/cadr_oracle_trace.py:188-210 | re-encoding the items of any accepted payload reproduces its bytes, so the canonical form is unique |
| TlvFraming.EncodeTlvsInjective | scripts/cadr_general_trace.py:136-141 | different ordered item lists never print alike |
| TlvFraming.EncodeAll | scripts/cadr_oracle_trace.py:200-210 | the loop over items prints ordered lists and refuses all others |
| TlvFraming.ParseAll | scripts/cadr_oracle_trace.py:362-384 | the loop over offsets reads exactly the well-formed item lists |
| RecordFraming.ParseFrameBytes | scripts/cadr_general_trace.py:220-225 | a length-prefixed, padded, CRC-sealed frame is read back whatever follows it |
| RecordFraming.FrameBytesParsed | scripts/cadr_general_trace.py:245-253 | the frame read from any accepted bytes prints as those bytes |
| GeneralTraceCodec.ParseEncodedHeader | scripts/cadr_general_trace.py:113-129 | an encoded header is read back with its computed seed |
| GeneralTraceCodec.EncodeParsedHeader | scripts/cadr_general_trace.py:113-129 | any accepted header bytes are the encoding of what was read |
| GeneralTraceCodec.ParseEncodedRecord | scripts/cadr_general_trace.py:220-225 | an encoded record is read back field by field, whatever follows it |
| GeneralTraceCodec.EncodeParsedRecord | scripts/cadr_general_trace.py:245-253 | any accepted record bytes are the encoding of what was read |
| GeneralTraceBytesReference.HeaderIs | scripts/cadr_general_trace.py:113-129 | header bytes are accepted exactly when every fixed field, bound, seed and CRC stands at its offset, and hold the fields at theirs |
| GeneralTraceBytesReference.RecordIs | scripts/cadr_general_trace.py:245-253 | record bytes are accepted exactly when length, payload, padding, CRC and item types are right by offset, and hold the fields at theirs |
| GeneralTraceParser.ParserDecidesGrammar | scripts/cadr_general_trace.py:320-378 | the parser with its running flags accepts exactly the grammar: one initial record, contiguous boundaries, events in slot order then lifecycle, halt rules, one matching terminal |
| GeneralTracePayloads.PayloadIs | scripts/cadr_general_trace.py:178-211 | the event schemas, byte by byte, with the source's octal masks as byte bounds |
| GeneralTracePayloads.SelectorIs | scripts/cadr_general_trace.py:159-186 | the schemas of the twelve selected values, byte by byte |
| GeneralTraceReference.RuleIs | scripts/cadr_general_trace.py:254-301 | the rule for one record is one with kinds, classes, item types and flag words by number and the hashed bytes spelled out |
| GeneralTraceReference.PlacedIs | scripts/cadr_general_trace.py:303-318 | an event may stand where it does exactly when slot events after its boundary rise in class number and precede all host observations |
| GeneralTraceReference.SlotEventsInOrder | scripts/cadr_general_trace.py:340-368 | in every accepted trace the slot events after one boundary have rising class numbers |
| GeneralTraceReference.GrammarIs | scripts/cadr_general_trace.py:320-378 | the grammar is the one said by numbers alone |
| GeneralTraceBytes.Parse | scripts/cadr_general_trace.py:320-378 | the loop over bytes accepts and returns exactly what the specification of parsing says |
| GeneralTraceBytes.ParsePrintedTrace | scripts/cadr_general_trace.py:320-378 | a printed trace is read back exactly when it meets the grammar |
| GeneralTraceBytes.PrintParsedTrace | scripts/cadr_general_trace.py:320-378 | an accepted byte string is the printed form of its contents, which meet the grammar |
| GeneralTraceReference.FileIs | scripts/cadr_general_trace.py:320-378 | a byte string is accepted exactly when its header bytes, what the caller insists on and its records are as said by offsets and numbers |
| GeneralTraceBuilders.MadeRecordRule | scripts/cadr_general_trace.py:226-244 | what each record builder makes passes all checks on one record, digests included |
| GeneralTraceBuilders.BuiltTracesAreAccepted | scripts/cadr_general_trace.py:226-244 | every well-ordered list of builder-made records is accepted |
| GeneralTraceBuilders.BuiltBytesAreAccepted | scripts/cadr_general_trace.py:220-244 | printed under a valid header, such a list is accepted as bytes and read back as it was made |
| GeneralTraceBuilders.DeviceEventPosition | scripts/cadr_general_trace.py:303-318 | a device event has a code from 1 to 6, and a place in the slot exactly when the code is 5 |
| GeneralTraceBuilders.CodeSixIsLifecycle | scripts/cadr_general_trace.py:198-211 | wherever device events are enabled a record with code 6 passes all checks and counts as lifecycle |
| GeneralTraceRebuild.GrammarIgnoresExtensions | scripts/cadr_general_trace.py:295-300 | acceptance and every digest depend only on the envelope and the items below type 2000 |
| GeneralTraceRebuild.StrippingPreservesAcceptance | scripts/cadr_general_trace.py:295-300 | leaving any extension items out of any records and printing again keeps acceptance and every digest |
| GeneralTraceRebuild.RebuildingPreservesRecords | scripts/cadr_general_trace.py:379-384 | rebuilding an accepted trace from its pieces fixes the header count and changes nothing else |
| GeneralTraceCompare.Compare | scripts/compare-cadr-general-trace.py:42-79 | reports sameness exactly when headers, all digests and the terminals agree, and otherwise the first divergence by name: of seven header fields, records, count, four terminal fields; the final digest alone never differs |
| GeneralTraceCompare.CompareBytes | scripts/compare-cadr-general-trace.py:20-79 | rejects exactly when one side does not parse, and otherwise reports the first divergence of the parsed traces |
| GeneralTraceCompare.LogicallyEqualIs | scripts/compare-cadr-general-trace.py:42-79 | traces are logically equal exactly when seven header fields, and every record's envelope and items below type 2000, are |
| GeneralTraceCompare.EqualContentSameDigests | scripts/cadr_general_trace.py:295-301 | logically equal traces have the same digests |
| GeneralTraceCompare.SameDigestsEqualContent | scripts/cadr_general_trace.py:215-219 | accepted traces that compare as the same are logically equal, or a record's digest is a spelled-out collision |
| GeneralTraceCompare.ComparisonIsSound | scripts/compare-cadr-general-trace.py:42-79 | for two accepted byte strings, comparing as the same means being logically equal, up to a collision |
| GeneralTraceBinding.ChainBinds | scripts/cadr_general_trace.py:109-112 | equal digests anywhere in two chains come from equally long chains over equal headers and records, or a collision |
| GeneralTraceBinding.FinalDigestBinds | scripts/cadr_general_trace.py:285-294 | the final digests agree exactly when everything but the terminals agrees; with equal reasons the traces are logically equal |
| OracleTraceCodec.ParseEncodedHeader | scripts/cadr_oracle_trace.py:151-179 | an encoded header is read back |
| OracleTraceCodec.EncodeParsedHeader | scripts/cadr_oracle_trace.py:151-179 | any accepted header bytes are the encoding of what was read |
| OracleTraceCodec.ParseEncodedRecord | scripts/cadr_oracle_trace.py:213-229 | an encoded record is read back, whatever follows it |
| OracleTraceCodec.EncodeParsedRecord | scripts/cadr_oracle_trace.py:566-598 | any accepted record bytes are the encoding of what was read |
| OracleTraceReference.HeaderIs | scripts/cadr_oracle_trace.py:151-179 | header bytes are accepted exactly when every fixed field, bound and CRC stands at its offset, and hold the fields at theirs |
| OracleTraceReference.RecordIs | scripts/cadr_oracle_trace.py:566-598 | record bytes are accepted exactly when length, kind, payload, padding and CRC are right by offset, and hold the fields at theirs |
| OracleTraceParser.ParserDecidesGrammar | scripts/cadr_oracle_trace.py:537-645 | the parser with its running state accepts exactly the grammar of boundaries, events and terminal |
| OracleTraceReference.GrammarIs | scripts/cadr_oracle_trace.py:387-534 | for records as they come from bytes the grammar is one with kinds, items, flag words and endings by number and the hashed bytes spelled out |
| OracleTraceReference.FileIs | scripts/cadr_oracle_trace.py:537-658 | a byte string is accepted exactly when its header, its records and what the caller insists on are as said by offsets and numbers |
| OracleTraceReference.HaltEndsTrace | scripts/cadr_oracle_trace.py:608-625 | nothing but the terminal follows an accepted boundary whose flags word is 16 or more |
| OracleTraceReference.CompleteReason | scripts/cadr_oracle_trace.py:500-534 | a complete trace gives reason 0 exactly when its last boundary's flags word is 16 or more, and has no event |
| OracleTraceShape.BoundariesAreConsecutive | scripts/cadr_oracle_trace.py:450-497 | in every accepted trace boundary ordinals count from 0, slots follow them, and mutation ranges tile an interval from 0 |
| OracleTraceShape.HaltIsFollowedByTerminal | scripts/cadr_oracle_trace.py:608-625 | nothing but the terminal follows a halting boundary |
| OracleTraceShape.CompleteTraces | scripts/cadr_oracle_trace.py:500-534 | a complete trace has no external event and says truly whether it halted |
| OracleTraceShape.ParsePrintedTrace | scripts/cadr_oracle_trace.py:352-359 | a printed trace is read back exactly when it meets the grammar |
| OracleTraceShape.PrintParsedTrace | scripts/cadr_oracle_trace.py:537-658 | an accepted byte string is the printed form of its contents, which meet the grammar |
| OracleTraceShape.ChainBindsPrefix | scripts/cadr_oracle_trace.py:626-629 | equal chain values at any steps of two chains come from equally many equal records under equal headers, unless inputs collide |
| OracleTraceShape.FinalChainBindsTheFile | scripts/cadr_oracle_trace.py:626-629 | any two accepted files with the same final chain hash are the same bytes, or two steps of their chains are a collision |
| OracleTraceBytes.Parse | scripts/cadr_oracle_trace.py:537-658 | the loop over bytes returns the trace exactly when the specification does, with the chain hash over all its records |
| OracleTraceBuilders.OpeningIdentity | scripts/cadr_oracle_trace.py:140-148 | the S0 builder's identity block is complete and derives the trace's own name |
| OracleTraceBuilders.BoundaryItems | scripts/cadr_oracle_trace.py:255-299 | every argument of the boundary builder, the state digest among them, is found again under its item type |
| OracleTraceBuilders.EventItemsIff | scripts/cadr_oracle_trace.py:317-324 | an external event passes the item checks exactly when none of its further items is critical or an identity item |
| OracleTraceBuilders.TerminalItems | scripts/cadr_oracle_trace.py:327-349 | every argument of the terminal builder is found again under its item type |
| OracleTraceCaptures.CaptureAcceptedIff | scripts/cadr_oracle_trace.py:255-349 | a run of slots and external events made with the builders is accepted exactly when its steps keep the flag, cycle, halt, mutation and item rules and its end, whatever its status, is truthful |
| OracleTraceCaptures.CaptureRoundTrip | scripts/cadr_oracle_trace.py:352-359 | such a run prints, and its bytes are read back exactly when it keeps the rules |
| OracleTraceCaptures.CheckpointGoesOn | scripts/cadr_oracle_trace.py:35-36 | a run goes on after a slot with flags 10, executed and checkpoint: it prints and is read back |
| UpstreamReader.ParseDictionary | scripts/cadr-m3-upstream-native-oracle.py:383-400 | the dictionary reader accepts what the codec's item parser accepts and holds the same items |
| UpstreamReader.IndexedHolds | scripts/cadr-m3-upstream-native-oracle.py:398-410 | the dictionary holds every item of an accepted list under its type |
| UpstreamReader.ReadersAgree | scripts/cadr-m3-upstream-native-oracle.py:413-438 | wherever the codec reads a record the second reader yields the same, exactly when sequence and cycle are in order |
| UpstreamReader.RawIsRecord | scripts/cadr-m3-upstream-native-oracle.py:413-438 | wherever the second reader yields a record of a known kind whose items parse, the codec reads that record |
| UpstreamNormalizer.Normalize | scripts/cadr-m3-upstream-native-oracle.py:441-604 | the loop writes the lines the step-by-step specification gives, and refuses when that refuses |
| UpstreamAgreement.NormalizedLines | scripts/cadr-m3-upstream-native-oracle.py:486-531 | whatever bytes it accepts, line k is boundary k at cycle k after slot k - 1, with mutation ranges that tile |
| UpstreamAgreement.NormalizerAgreesWithCodec | scripts/cadr-m3-upstream-native-oracle.py:441-604 | on traces the codec accepts, the normalizer accepts exactly those with an exact count of slots + 2, boundaries at their own cycles, no events and a limit end, with the codec's semantic hashes |
| UpstreamAgreement.CodecLimitBarsLongRuns | scripts/cadr_oracle_trace.py:566-571 | beyond the codec's record limit no trace satisfies both decoders |
| UpstreamGrammar.NormalizerDecidesGrammar | scripts/cadr-m3-upstream-native-oracle.py:441-604 | the normalizer accepts exactly the files whose header it reads and whose records meet a grammar without running state, and writes one line per boundary |
| UpstreamConverse.CodecAgreesWithNormalizer | scripts/cadr_oracle_trace.py:387-534 | of the files the normalizer accepts, the codec accepts exactly those that pass the checks left to it: item widths and critical bits, identity only on S0, S0 without mutations, known flags and no halt |
| UpstreamCaptures.NormalizerTakesCapture | scripts/cadr-m3-upstream-native-oracle.py:441-604 | the normalizer takes the bytes of a capture exactly when the header counts its records and it is a run of clock slots at their own cycles up to its limit |
| UpstreamCaptures.FlagsDecide | scripts/cadr_oracle_trace.py:450-497 | of the captures the normalizer takes, the codec accepts exactly those whose slots have known flags, do not claim to be S0 and do not halt |
| UpstreamCaptures.NormalizerTakesMore | scripts/cadr-m3-upstream-native-oracle.py:441-604 | a capture of one slot with an unknown flag bit, which the normalizer takes and the codec refuses |
| SchedulerEvents.BitOfSet | scripts/cadr-m5-transcript.py:77-85 | setting a register bit sets that bit and leaves all others |
| SchedulerEvents.BitOfMerge | scripts/cadr-m5-transcript.py:80-83 | replacing a bit field takes those bits from the other register and leaves the rest |
| SchedulerEvents.TransitionIsStep | scripts/cadr-m5-transcript.py:77-139 | the field-by-field checks leave exactly one after-state for each before-state and event |
| SchedulerReference.EventRuleIs | scripts/cadr-m5-transcript.py:77-180 | the checks on one event are exactly these on kinds and values by number, registers bit by bit and the clock in microseconds |
| SchedulerTranscript.ValidateEvent | scripts/cadr-m5-transcript.py:142-191 | accepts exactly the events that fit their predecessor, the generation and the two sets, and extends the sets |
| SchedulerTranscript.OneMore | scripts/cadr-m5-transcript.py:142-191 | passing the checks against the predecessor and the sets is being in strict order, apart and ranked among all events before |
| SchedulerReference.BeforeIs | scripts/cadr-m5-transcript.py:57-58 | the order is by due tick, then clock, key, sequence break, then insertion |
| SchedulerReference.KindsInOrder | scripts/cadr-m5-transcript.py:180-185 | in a transcript no clock follows a key or a sequence break due with it, and no key a sequence break |
| SchedulerTranscript.GroupIsRun | scripts/cadr-m5-transcript.py:61-68 | the state after a due group is what the machine's step makes of the state before it |
| SchedulerTranscript.NoDrift | scripts/cadr-m5-transcript.py:90-98 | within a due group the clock, its phase and the cycle counter move by exactly the periods of its clock events, computed in one go |
| SchedulerBytes.Parse | scripts/cadr-m5-transcript.py:194-220 | accepts exactly the well-headed files whose events are strictly sorted, ranked, unique and continuous transcripts |
| SchedulerReference.EventFields | scripts/cadr-m5-transcript.py:33-43 | every field of a record is the number at its offset |
| SchedulerReference.FileIs | scripts/cadr-m5-transcript.py:194-210 | a file is well-headed exactly when magic, version 4, a count of at most 256 and the length fit, byte by byte |
| SchedulerBytes.SameEventsSameFile | scripts/cadr-m5-transcript.py:194-220 | no two accepted files decode to the same events |
| AudioRenderer.TotalFrames | scripts/cadr-m11-fixed-table-oracle.py:326-327 | the least number of frames that covers the duration |
| AudioReference.FramesCover | scripts/cadr-m11-fixed-table-oracle.py:326-327 | at 125 microseconds a frame, the frames cover the duration and one frame fewer would not |
| AudioSine.TableIsNearest | scripts/cadr-m11-fixed-table-oracle.py:37-40 | each of the 32 table entries is the integer nearest to 32767 times the sine of its place in the turn |
| AudioReference.StepIs | scripts/cadr-m11-fixed-table-oracle.py:359-360 | the phase step is the whole part of 1,000,000 times 2^32 over 16,000 half wavelengths |
| AudioReference.IndexIs | scripts/cadr-m11-fixed-table-oracle.py:361-365 | the table index is the phase over 2^27, around the table |
| AudioRenderer.IndexWithoutWrap | scripts/cadr-m11-fixed-table-oracle.py:358-366 | wrapping frame, step and product at 32 bits loses nothing but whole periods |
| AudioRenderer.LagIsRounding | scripts/cadr-m11-fixed-table-oracle.py:349-366 | at every position the table index is behind the exact oscillator by exactly the accumulated rounding and the phase's place in its entry, in whole entries |
| AudioRenderer.OneEntryBehindIff | scripts/cadr-m11-fixed-table-oracle.py:349-366 | at every position, the lag is at most one entry exactly when the accumulated rounding is short of the end of the next entry |
| AudioRenderer.ShownEntryIff | scripts/cadr-m11-fixed-table-oracle.py:358-366 | on the circular table the sample shown is the exact one or its predecessor exactly when the lag is 0 or 1 up to whole periods |
| AudioRenderer.AtMostOneEntryBehind | scripts/cadr-m11-fixed-table-oracle.py:349-366 | in particular up to 2^27 frames, for every wavelength, the table index is the exact oscillator's entry or the one before |
| AudioRenderer.TwoEntriesBehindLater | scripts/cadr-m11-fixed-table-oracle.py:349-366 | an admitted offset that fails that condition: the index is two entries behind |
| AudioRenderer.FixedSine32Pcm | scripts/cadr-m11-fixed-table-oracle.py:346-366 | the loop renders the table samples of consecutive frames and refuses bad arguments |
| AudioRenderer.RenderedSample | scripts/cadr-m11-fixed-table-oracle.py:361-366 | the 16-bit little-endian pair at frame i of a render is the signed table sample at that frame's absolute position |
| AudioRenderer.AdjacentStretches | scripts/cadr-m11-fixed-table-oracle.py:346-366 | rendering two adjacent stretches is rendering their union |
| AudioPackets.EventReads | scripts/cadr-m11-fixed-table-oracle.py:330-377 | the timing a renderer decodes from an event's bytes is what the event was made with |
| AudioReference.EventLayout | scripts/cadr-m11-fixed-table-oracle.py:330-335 | every field of an event stands at its offset |
| AudioReference.JobPackets | scripts/cadr-m11-fixed-table-oracle.py:453-462 | packet k of a job holds the frames from 512 k on, 512 or as many as are left |
| AudioReference.WitnessInputs | scripts/cadr-m11-fixed-table-oracle.py:338-343 | what the witness chain hashes, byte by byte |
| AudioPackets.ReferenceJob | scripts/cadr-m11-fixed-table-oracle.py:453-467 | the loop makes the packets of the job in order and chains their witness; it fails exactly when a field would overflow |
| AudioPackets.PacketsTile | scripts/cadr-m11-fixed-table-oracle.py:453-467 | each packet starts where those before it end, holds 1 to 512 frames, and together they hold the duration's frames |
| AudioPackets.PiecesJoin | scripts/cadr-m11-fixed-table-oracle.py:380-385 | any consecutive pieces, inside packets and across them, render to the bytes of one render of the whole stretch |
| AudioPackets.PhaseWhilePlaying | scripts/cadr-m11-fixed-table-oracle.py:346-366 | while a job with a 32-bit duration plays, the table index never falls more than one entry behind |
| AudioPackets.WitnessBindsEvents | scripts/cadr-m11-fixed-table-oracle.py:338-343 | equal witnesses, of any generations and any numbers of events, come from equal generations and equal events, or two steps are a collision |
| CadetFrames.Transitions | scripts/cadr-m6-witness-schedule.py:60-71 | the loop types the frames of a text, and fails exactly when a character has no key or a key no frames, however characters are put in lower case |
| CadetReference.NamesOfSpecials | scripts/cadr-m6-witness-schedule.py:43-43 | ten characters go by the names of their keys |
| CadetReference.NamesOfOthers | scripts/cadr-m6-witness-schedule.py:60-65 | any other character goes by itself if it has a key, else in lower case |
| CadetReference.FramesOfStroke | scripts/cadr-m6-witness-schedule.py:44-71 | the frames of a stroke on each plane, code by code |
| CadetFrames.ValidateGroup | scripts/cadr-m6-native-witness.py:309-337 | the index loop accepts exactly the non-empty groups of held-mask and all-up strokes |
| CadetFrames.AcceptedIffTypable | scripts/cadr-m6-native-witness.py:309-337 | what the encoder writes is accepted exactly when every key code is at most 0x7f and no unshifted key is a modifier |
| CadetFrames.EncodeDecoded | scripts/cadr-m6-native-witness.py:309-337 | every accepted wire is the encoding of the typable keys it decodes to |
| CadetFrames.DecodeEncoded | scripts/cadr-m6-witness-schedule.py:60-71 | a text's frames decode back to its keys and shifts and to nothing else |
| CadetPacing.ChunkedBatch | scripts/cadr-m6-witness-schedule.py:85-112 | the loop with its burst counter paces characters by their number modulo the burst length |
| CadetReference.SpacingIs | scripts/cadr-m6-witness-schedule.py:79-82 | the n-th frame is due at the first boundary not before n sixtieths of 1,000,000 |
| CadetPacing.StrokesJoin | scripts/cadr-m6-witness-schedule.py:74-76 | typing character by character gives the frames of the whole text |
| CadetPacing.BurstsPaced | scripts/cadr-m6-witness-schedule.py:85-112 | every gap is one 60 Hz period, rounded either way, or the pause, and the codes are the text's frames |
| CadetPacing.ChunkedBatchIncreases | scripts/cadr-m6-witness-schedule.py:85-112 | deadlines strictly increase for every text, burst length and pause |
| CadetPacing.ChunksPartition | scripts/cadr-m6-witness-schedule.py:115-117 | batches hold 1 to 64 events, all but the last are full, and end to end they are the events |
| CadetReference.BatchesHold64 | scripts/cadr-m6-witness-schedule.py:115-117 | all batches but the last hold 64 events |
| CadetSchedule.AssignIndices | scripts/cadr-m6-witness-schedule.py:155-158 | the nested loops number each group on from the groups before it |
| CadetSchedule.NumbersRunThrough | scripts/cadr-m6-witness-schedule.py:155-161 | batch after batch the events carry the numbers 0, 1, 2, ... without a gap, and the count is theirs |
| CadetSchedule.Schedule | scripts/cadr-m6-witness-schedule.py:120-161 | builds the plan of the four groups, and fails exactly when a text cannot be typed or an argument is bad |
| CadetReference.BootStarts | scripts/cadr-m6-witness-schedule.py:134-154 | the four groups start at 25 and 27 million, at the given start, and a hold after form A, each in its phase |
| CadetSchedule.DeadlinesIncrease | scripts/cadr-m6-witness-schedule.py:134-154 | the deadlines of the whole schedule strictly increase exactly when form A starts after the second boot text, whose end its start and frame count give |
| CadetSchedule.ReleaseIncreases | scripts/cadr-m6-witness-schedule.py:120-154 | the release's start of form A meets that condition for every key mapping, text and pacing |
| CadetSchedule.EarlyStartOverlaps | scripts/cadr-m6-witness-schedule.py:120-207 | a start of form A that the builder takes, as the command line would not, and with which the deadlines do not increase |
| CadetSchedule.ScheduleAcceptedIffTypable | scripts/cadr-m6-native-witness.py:295-337 | the witness reads back the four groups and accepts them exactly when every key of every text is typable |
| CadetSchedule.ValidateSchedule | scripts/cadr-m6-native-witness.py:295-337 | accepts exactly the plans whose four groups are non-empty and well-formed |
| WitnessClock.DueByIff | scripts/cadr-m6-native-witness.py:149-150 | tick n is due by a boundary exactly when n is at most 60 times the boundary divided by 1,000,000 |
| WitnessClock.ClockDueIs | scripts/cadr-m6-native-witness.py:149-150 | a tick is due at the first boundary not before its number of sixtieths of 1,000,000 |
| WitnessClock.CoincidentIffTick | scripts/cadr-m6-native-witness.py:653-658 | the coincidence test finds a tick exactly when one falls on the deadline, and that tick is the only one |
| WitnessClock.ScanChronology | scripts/cadr-m6-native-witness.py:535-556 | comparing neighbours decides whether all rows have 64-bit boundaries and are in order of boundary and priority |
| WitnessClock.NotAfterIs | scripts/cadr-m6-native-witness.py:535-556 | at one boundary rows come as clock, event, write, boundary, settled |
| WitnessClock.CheckClocks | scripts/cadr-m6-native-witness.py:641-652 | accepts exactly when the clock rows are all ticks up to the horizon at their deadlines, with a colour flag, the one policy and fields in range |
| WitnessClock.ClockRowIs | scripts/cadr-m6-native-witness.py:645-652 | a clock row is right exactly when its number, deadline, flag and policy text are |
| WitnessClock.CheckCoincidence | scripts/cadr-m6-native-witness.py:653-658 | accepts exactly when every event on a tick comes after that tick's row |
| WitnessClock.CoincidenceOnlyBeyondHorizon | scripts/cadr-m6-native-witness.py:653-658 | given chronological rows and complete clocks, that check fails exactly for events on a tick beyond the horizon |
| WitnessClock.CoincidenceNeverFails | scripts/cadr-m6-native-witness.py:557-658 | after the checks of events, writes and boundaries that check holds for every row: the last event is due before boundary B, hence before the horizon |
| WitnessClock.CheckOrder | scripts/cadr-m6-native-witness.py:535-658 | running all these checks with the coincidence check at the end accepts exactly what the checks before it accept |
| WitnessClock.PointsAre | scripts/cadr-m6-native-witness.py:575-640 | the check of points accepts exactly nine writes in three triples before A, B and C, 67 boundaries and one settled point, with holds of 20 million and 1 million and a timeout of 100 million boundaries |
| WitnessClock.WritesInOrderIs | scripts/cadr-m6-native-witness.py:583-586 | the nine writes never go back, and the triples are strictly apart |
| WitnessClock.ClockTranscript | scripts/cadr-m6-native-witness.py:153-161 | fills the buffer in place with the count and every tick's deadline |
| WitnessClock.EntryAt | scripts/cadr-m6-native-witness.py:153-161 | tick n stands at byte 16 n of the transcript, its deadline behind it |

## Left out

- Reading and writing files, command lines, JSON and NDJSON shape checks, exception texts, exit codes and checks of Python argument types.
- The strength of SHA-256: the trace formats take an arbitrary hash function, and the concrete one appears only where it is implemented.
- The decoding of BDF glyph rows into pixels, and the rest of the documentation build; sets are iterated in arbitrary order, as in Python.
- Launchers, guards, sockets and process handling in the C programs; the data passed to their hash functions are sequences, so a caller's aliasing of input and state is not captured.
- The beeper's snapshot encoder and its reader (`scripts/cadr-m11-fixed-table-oracle.py:405-450`): a fixed layout of numbers, with no rule between them.
- The frozen schedule, boundary numbers, write values and identity hashes of the witness: equality checks against constants.
- UpstreamNormalizer.Normalize: writing the lines as JSON, comparing them with an earlier baseline and the identity fields of the returned report are not modelled.
- CadetFrames.Transitions: the key mapping and the lower-casing of characters are parameters; l/usim/cadet.defs and Unicode tables are not part of this model.
- WitnessClock.CheckOrder: the events' numbers, codes and phases, the written values and the machine states at the boundaries are not modelled; leaving them out lets it accept more captures.
- CadetSchedule.Schedule: deadlines are integers rather than decimal strings, the schedule's hash is not modelled, and the forms' texts are parameters.
- CadetSchedule.ValidateSchedule: types of JSON values and equality with the frozen schedule are not modelled.
