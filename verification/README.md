# Polyguard: a verified model of the protocol core

Polyguard is an HTTP/1.1 reverse proxy. Each step of its protocol is written several times in structurally different
ways, and an agreement runs them side by side and demands equal results. This project models those steps and proves
that the forms agree, and what they compute.

Every step has one functional specification, and each form is a method (loops, arrays, classes, in the shape of the
source) whose contract equates it with that specification. What the step is for is then proved about the specification,
for all inputs, in the literal texts and fields of those inputs.

| files | what they hold |
|---|---|
| `Bytes`, `ByteClasses`, `Http`, `Words`, `Decimals`, `Streams`, `Sorting`, `NameLists` | bytes, byte classes and their digits and letters, the data model and errors, machine words, decimal text, streams cut into reads, sorting by any ranking, ordered lists of names |
| `PercentEncoding`, `EscapeSpelling`, `DotSegments`, `RequestTarget`, `TargetForms`, `Authorities` | percent-encoding, dot segments and section 5.2.4 of RFC 3986, the normalised target, what each form of target and an authority mean |
| `TargetRules`, `TargetPipeline`, `TargetOffsets`, `TargetTokens` | the four forms of target normalisation |
| `HeaderSection`, `HeaderFacts`, `HeaderDecisionTable`, `HeaderAlgebraic`, `HeaderPhases`, `HeaderReducer`, `HeaderPrinting`, `HeaderGrammar` | the header section, its five parsers, printed fields read back, the grammar both ways |
| `RequestLineDirect`, `BodyFraming`, `FramingMeaning` | the request line and the body framing, two forms, and what it means |
| `Chunks`, `ChunkSpans`, `Utf8`, `ChunkLines` | chunk metadata, two forms, and the grammar of its line both ways |
| `BufferedInput`, `ChunkedBody`, `ChunkedRoundTrip`, `ChunkedSpelling` | the chunked decoder over a buffered stream, and the messages it decodes |
| `RadixOrder`, `Trailers`, `TrailerGrammar` | the radix sort, the trailer section and its grammar both ways |
| `DeclarationOrders`, `RouteMatch`, `RulePrefixes`, `RouteSelection` | the probing set, route matching and its prefixes, fold against sort |
| `HopByHop`, `HopByHopTrie`, `HopByHopScanner`, `HopByHopMeaning` | hop-by-hop removal, three forms, and what it means |
| `CanonicalHead`, `CanonicalHeadPath`, `HeadLengths`, `HeadValidation`, `HeadReverseFill`, `HeadForward`, `HostSpelling` | the canonical upstream head, its three printers and the hosts they accept |
| `HeadRoundTrip`, `HeadReading`, `PrintedBlock`, `HeadWire`, `OversizeHeads` | printed heads read back, from the parsers and from the wire, and those that are not |
| `PrintableRequests`, `UpstreamTarget`, `UpstreamHeaders`, `UpstreamRequests` | from a request that was read to the head that goes upstream: removal, rewriting, configured headers, and what the printers can object to |
| `Agreement`, `MemoryBudget`, `ReadHead`, `Wildcard` | the agreement, the memory budget as a step system, reading a head, the glob matcher |

## Findings

Properties that one might expect of the code and that do not hold, each proved with its exact condition:

- `wildcard_matches` (src/nginx.rs:314-319) compares bytes before it looks for `*`; it decides the glob relation for
  every pattern if and only if the value has no `*` byte (`Wildcard.CorrectExactlyWithoutStars`).
- Hop-by-hop removal accepts nominated names of any length, the printers only names of up to 128 bytes: the headers of
  an accepted section can be printed if and only if no nominated name is longer
  (`PrintableRequests.SanitizedIsPrintable`, `PrintableRequests.LongNominationUnprintable`).
- The printers allow heads of up to 49152 bytes, which the readers refuse beyond 8192 bytes of request line, 128 fields
  or 32768 bytes of header section: a printed head is parsed back if and only if it keeps those limits
  (`HeadReading.PrintedHeadReadsBack`; witnesses `OversizeHeads.LongTargetUnreadable` and
  `OversizeHeads.ManyFieldsUnreadable`), and comes off the wire if and only if it keeps the reading limit, 40960 bytes in
  src/proxy.rs, which is two bytes less than a longest line and a longest section together
  (`HeadWire.PrintedHeadOnTheWire`; witness `OversizeHeads.LongHeadRefused`).
- The printers accept an origin target for `connect`, the normaliser does not: a printed target normalises again if and
  only if the method is another (`HeadReading.PrintedTargetNormalizes`; witness `OversizeHeads.ConnectWithPath`).
- Replacing the matched prefix of a path (src/proxy.rs:3353-3385) can make a path that no printer accepts: with a
  replacement that is itself printable, if and only if the whole gets too long or the replacement ends in a slash where
  the rest begins with a dot part, which only prefix routes allow (`UpstreamTarget.PrintableReplacement`,
  `UpstreamTarget.WholePartsRewriteWell`, `UpstreamTarget.RewrittenIntoDots`); for any replacement
  `UpstreamTarget.RewrittenIsPrintable` has the condition.
- Configuration accepts request headers that every printer refuses, such as `proxy-authorization`: the configured headers
  leave a head printable if and only if no applied one has such a name, a control byte or outer whitespace in its value,
  and there are at most 128 fields in the end (`UpstreamHeaders.AppliedPasses`, `UpstreamHeaders.CredentialsRefused`,
  `UpstreamRequests.UpstreamIsTrusted`).
- A route that sends `$host` upstream drops the port of the authority, and an absolute target keeps it: the two agree if
  and only if the target is rewritten, has no authority, or had no port to drop (`UpstreamRequests.DroppingThePort`,
  `UpstreamRequests.DroppedPortUnprintable`).
- Route rules accept a prefix with an escaped slash, and it never serves a request, because no normalised path has one: a
  prefix is a path that a request can have if and only if it has no escaped slash (`RulePrefixes.PrefixMeans`,
  `RulePrefixes.EscapedSlashNeverMatches`, `RulePrefixes.EscapedSlashIsAccepted`).

## Model

| member | source | states |
|---|---|---|
| `Wildcard.WildcardMatches` | src/nginx.rs:308-335 | the loop over pattern offset, value offset, latest star and checkpoint ends, and for a value without `*` answers the declarative meaning of `*` and `?` |
| `Wildcard.ScanIsGlob` | src/nginx.rs:308-335 | the greedy scan and the glob relation agree for every pattern and every value without `*` |
| `Wildcard.NewestStarSuffices` | src/nginx.rs:319-326 | keeping only the latest star as backtrack point loses no match |
| `Wildcard.CorrectExactlyWithoutStars` | src/nginx.rs:314-319 | for a given value the scan is right on all patterns if and only if the value holds no `*` byte: bytes are compared before `*` is looked for |
| `Wildcard.StarAgainstStar` | src/nginx.rs:314-319 | the witness: pattern `*?` should match value `*`, and the scan refuses it |
| `Wildcard.MisjudgedPattern` | src/nginx.rs:314-319 | the family of such pairs: the value up to its first star, a star, and a question mark for each byte from there on, should match and are refused |
| `MemoryBudget.StepKeepsInv` | src/proxy.rs:1348-1413 | every step of the budget, the compare-and-swap with spurious failure and the half-finished grow or absorb included, keeps the accounting invariant |
| `MemoryBudget.UsedIsOwned` | src/proxy.rs:1348-1413 | after every interleaving of loads, swaps, limit stores, grows, absorbs and drops, `used` is the bytes owned by live permits, a transfer in progress counted once, and is at most some limit that was stored |
| `MemoryBudget.UsedAtRest` | src/proxy.rs:1409-1413 | when no thread is inside an operation, `used` is the sum of the live permits, and zero when there are none |
| `MemoryBudget.NeverWraps` | src/proxy.rs:1391-1413 | no reachable addition of a permit overflows and no reachable `fetch_sub` goes below zero |
| `Agreement.Agreement.Run` | src/proxy.rs:1178-1235 | a value or error is returned only when `width` distinct, non-quarantined implementations of the function all gave it; the calls made are a prefix of the selection, all of it unless they disagree |
| `Agreement.Agreement.SelectedIds` | src/proxy.rs:1237-1289 | the listed ids are those of the implementations that `run` calls |
| `Agreement.Agreement.UpdatePrimary` | src/proxy.rs:1174-1176 | changing the primaries never changes how many implementations are selected for a function |
| `Agreement.WidthIndependentOfPrimary` | src/proxy.rs:1725-1735 | with unique ids the size of a selection does not depend on the primary, so the check made at start-up holds for every later primary |
| `Agreement.RunAfterUpdates` | src/proxy.rs:1725-1735 | once the start-up check has passed, no sequence of later updates makes a run fall short of implementations: it fails exactly when an outcome dissents |
| `Agreement.FirstDissent` | src/proxy.rs:1211-1224 | where the outcomes first differ from the first one |
| `Agreement.SelectionMembers` | src/proxy.rs:1188-1208 | selected implementations are distinct, registered, usable and not quarantined |
| `Agreement.SelectionMeans` | src/proxy.rs:1188-1208 | a selection has at most `width` members and leaves a usable implementation out only when it is full; a usable primary comes first, the others in the order of the registry |
| `ReadHead.ReadHead` | src/proxy.rs:3972-3999 | for every division of a stream into reads: the head and the verdict are those of the whole stream, the head is at most the limit, and head, remainder and unread bytes are the stream |
| `ReadHead.AcceptedHeads` | src/proxy.rs:3972-3999 | a head is accepted exactly when the first CRLFCRLF ends it within the limit, and bytes that follow do not change that |
| `Streams.Stream.Read` | src/proxy.rs:3972-3980 | a read delivers some bytes of what is pending, none only at the end |
| `RouteSelection.CompileRuntimeRoutes` | src/proxy.rs:2044-2154 | the compiled table numbers its routes by their index, so declaration orders are distinct |
| `RouteSelection.TableEntries` | src/proxy.rs:2044-2154 | where each entry stands and what it holds: for every site, name and route of it that name, that path and kind, and its methods and schemes in lower case; and there are no others |
| `RouteSelection.SelectRouteFold` | src/proxy.rs:2594-2643 | the fold returns the best eligible route by host specificity, exactness, path length and declaration order, or none when none is eligible |
| `RouteSelection.SelectRouteSorted` | src/proxy.rs:2645-2675 | filtering and an unstable sort return a best eligible route under the same order |
| `RouteSelection.SelectRuntimeRoute` | src/proxy.rs:2677-2692 | the disagreement branch is unreachable; the selected route serves the request by host, path, method and scheme and is ahead of every other one that does, and none is selected exactly when none serves it |
| `RouteSelection.ChoiceMeans` | src/proxy.rs:2541-2640 | what fold and sort compute, in the fields of route and request: which hosts, paths, methods and schemes a route serves, and a plain host before a subdomain pattern before any host, then the longer pattern, an exact path, the longer path, the earlier declaration |
| `RouteSelection.BelowIsProper` | src/proxy.rs:2546-2555 | a subdomain pattern leaves something in front of its dot for every host name; only a text that begins with a dot would not |
| `BodyFraming.DetermineBodyFraming` | src/implementations/body_framing_transition.rs:8-35 | the two-pass, short-circuiting form computes the framing, with the same first error |
| `BodyFraming.DetermineByMachine` | src/implementations/body_framing_stream_machine.rs:24-34 | latching the first fault and scanning on gives the same framing and the same error on every header block |
| `BodyFraming.FramingMachine.TransitionField` | src/implementations/body_framing_stream_machine.rs:36-55 | each field adds its members to the machine, whose latched state stays that of the fold |
| `BodyFraming.FramingMachine.ObserveLength` | src/implementations/body_framing_stream_machine.rs:57-75 | a length member keeps the latched state equal to the fold over the members seen |
| `BodyFraming.FramingMachine.Finish` | src/implementations/body_framing_stream_machine.rs:108-135 | the final answer by the fields seen, ambiguity first |
| `BodyFraming.BothAreAmbiguous` | src/implementations/body_framing_transition.rs:8-35 | both framing fields together are ambiguous whatever their values |
| `BodyFraming.LengthMeaning` | src/implementations/body_framing_transition.rs:8-91 | a length is accepted exactly when every member of every length field reads as it, chunked exactly for one `chunked` member, no body exactly without coding and with all lengths zero |
| `FramingMeaning.FramingMeans` | src/implementations/body_framing_transition.rs:8-35 | each answer read off the header block: the length that all members of all length fields say in digits, one single `chunked`, neither, or both at once |
| `FramingMeaning.LengthErrors` | src/implementations/body_framing_transition.rs:45-70 | a length is refused at the first member that is no number, too large, or not the number before it |
| `Decimals.ReadDecimal` | src/implementations/body_framing_stream_machine.rs:85-99 | overflow-checked accumulation reads exactly the digit strings below 2^64 |
| `ByteClasses.NumberSpelled` | src/implementations/body_framing_stream_machine.rs:85-99 | decimal texts are read by the places of their digits in `0123456789` |
| `ByteClasses.RenderSpells` | src/implementations/canonical_head_reverse_fill.rs:604-614 | numbers are printed in digits that spell them, without a leading zero |
| `ByteClasses.HexDigits` | src/implementations/chunk_guarded_parts.rs:197-205 | the value of a hexadecimal digit of either case is its place in the sixteen digits, and nothing else is a digit |
| `ByteClasses.HexTable` | src/implementations/request_target_rules.rs:402-409 | all thirty-two digits have their value |
| `ByteClasses.LetterCase` | src/implementations/chunk_guarded_parts.rs:187-192 | letters change to the letter at the same place of the other alphabet, all other bytes stay |
| `ByteClasses.TokenBytes` | src/implementations/header_typed_cursor.rs:156-176 | token bytes and unreserved characters, byte by byte |
| `ByteClasses.PartsAre` | src/implementations/body_framing_transition.rs:37-44 | the parts of a text are its pieces between separators |
| `HeaderSection.ParseByCursor` | src/implementations/header_typed_cursor.rs:20-56 | the typed cursor computes the section: block, bytes consumed and error |
| `HeaderSection.FrameNextLine` | src/implementations/header_typed_cursor.rs:58-106 | the next line, its end and the error when it has none within the limit |
| `HeaderDecisionTable.ParseByTable` | src/implementations/header_decision_table.rs:63-66 | the decision table is the same function on every input, errors included |
| `HeaderDecisionTable.DecideLine` | src/implementations/header_decision_table.rs:142-195 | one pass of observed facts decides a line as its field or its first error |
| `HeaderDecisionTable.FindCrlf` | src/implementations/header_decision_table.rs:105-140 | where the line ends, errors included |
| `HeaderDecisionTable.FactsDecide` | src/implementations/header_decision_table.rs:142-212 | the facts observed up to the end of a line determine its field |
| `HeaderAlgebraic.ParseByLines` | src/implementations/header_algebraic_lines.rs:33-57 | the algebraic lines are the same function on every input, errors included |
| `HeaderAlgebraic.TakeCompleteLine` | src/implementations/header_algebraic_lines.rs:59-115 | searching a delimiter and a bare break gives the same line ends and errors |
| `HeaderPhases.ParseByPhases` | src/implementations/header_state_phases.rs:48-52 | the two-phase lexer accepts the same inputs with the same block; a missing section end is reported first |
| `HeaderPhases.ProveSectionBoundary` | src/implementations/header_state_phases.rs:55-98 | the first phase finds where the section ends, or what stops it from ending |
| `HeaderPhases.ValidateFieldGrammar` | src/implementations/header_state_phases.rs:101-195 | the lexer plans exactly the fields of the section, or the section is refused |
| `HeaderReducer.ParseByReduction` | src/implementations/header_transition_reducer.rs:56-60 | the reducer accepts the same inputs with the same block; its error is the cursor's when the section boundary is sound, and otherwise the boundary's, up to a stray byte exactly at the limit |
| `HeaderReducer.ValidateFraming` | src/implementations/header_transition_reducer.rs:63-118 | the transition loop finds the section end and counts its lines |
| `HeaderReducer.ReduceFieldPlans` | src/implementations/header_transition_reducer.rs:195-208 | folding a line byte by byte plans exactly its field, or gives its error |
| `HeaderPrinting.AcceptedSection` | src/implementations/header_typed_cursor.rs:20-153 | an accepted block is bounded, its names lower-case tokens, its values without edge whitespace, and the section ends with the empty line |
| `HeaderPrinting.PrintedFieldsParse` | src/implementations/header_typed_cursor.rs:20-153 | fields as a printer spells them, and the empty line, read back as the same fields with lower-case names, every byte consumed |
| `HeaderPrinting.OversizeRefused` | src/implementations/header_typed_cursor.rs:20-106 | printed fields beyond 128 fields or 32768 bytes are refused |
| `HeaderGrammar.SectionReads` | src/implementations/header_typed_cursor.rs:20-56 | every section written as lines of name, colon and value between optional whitespace, within the limits, is read as the lower-case names and bare values, up to its empty line |
| `HeaderGrammar.AcceptedLines` | src/implementations/header_typed_cursor.rs:20-56 | and every accepted section is such lines within those limits |
| `HeaderGrammar.FaultyLine` | src/implementations/header_typed_cursor.rs:20-56 | the first line that is no field is what a section is refused for, with the offset of that line |
| `HeaderGrammar.LineFaults` | src/implementations/header_typed_cursor.rs:109-135 | whitespace in front, no colon, no name: which error each is |
| `HeaderGrammar.NamedLineFaults` | src/implementations/header_typed_cursor.rs:109-155 | whitespace before the colon, a byte that no value has: which error each is |
| `RequestTarget.RoutingPathIsRfc` | src/implementations/request_target_rules.rs:178-280 | the routing path is accepted exactly when section 5.2.4 of RFC 3986, run on the percent-normalised path, need not climb above the root, and is then that path |
| `DotSegments.StackIsRfc` | src/implementations/request_target_rules.rs:252-280 | keeping a stack of segments is the remove_dot_segments algorithm |
| `DotSegments.DepthIsHeight` | src/implementations/request_target_invariant_offsets.rs:174-197 | the depth counter is the height of the stack, so the later unchecked pop cannot fail |
| `DotSegments.RemoveDotsIdempotent` | src/implementations/request_target_rules.rs:252-280 | removing dot segments twice is removing them once |
| `PercentEncoding.CanonDistributes` | src/implementations/request_target_invariant_offsets.rs:222-291 | canonical percent-encoding and splitting at slashes commute |
| `PercentEncoding.CanonIsCanonical` | src/implementations/request_target_rules.rs:214-250 | canonical text has no encoding fault and is its own canonical spelling |
| `RequestTarget.NormalizeAgain` | src/implementations/request_target_rules.rs:59-108 | normalising the path and query of a normalised origin or absolute target gives them back |
| `RequestTarget.NeverLonger` | src/implementations/request_target_rules.rs:178-212 | normalisation never lengthens the path and query |
| `RequestTarget.LimitNeverFires` | src/implementations/request_target_rules.rs:178-212 | the length check on the result never fires |
| `RequestTarget.NormalizedBytes` | src/implementations/request_target_rules.rs:178-212 | a normalised path and query starts with a slash and passes the envelope check |
| `TargetForms.AbsoluteIsOrigin` | src/implementations/request_target_rules.rs:154-176 | for every scheme in any case, authority and suffix: an absolute target is accepted exactly when its length and authority are and its path and query are as those of an origin target; these, the scheme and the authority are its result |
| `TargetForms.OriginMeans` | src/implementations/request_target_rules.rs:178-212 | for every path and query: accepted exactly when bytes, length and escapes are in order and the path does not climb; the path is what section 5.2.4 of RFC 3986 leaves of its canonical spelling, and the query follows in canonical spelling |
| `TargetForms.ConnectMeans` | src/implementations/request_target_rules.rs:59-108 | `connect` takes exactly a host or an address with a port |
| `TargetForms.OtherForms` | src/implementations/request_target_rules.rs:59-108 | the asterisk is for `options` only; every other method needs a path or a scheme |
| `Authorities.AuthorityMeans` | src/implementations/request_target_rules.rs:282-300 | an authority is accepted exactly when it is a host name in any case, perhaps with a final dot, or an address in brackets, with a port from 1 to 65535 where there is one; it is spelled in lower case without that dot and with the port in plain digits |
| `EscapeSpelling.RecasedTarget` | src/implementations/request_target_rules.rs:214-250 | targets whose escapes differ only in the case of their digits are treated alike, refusals included |
| `EscapeSpelling.EscapedByteIsByte` | src/implementations/request_target_rules.rs:214-250 | an unreserved byte in a path may be escaped in digits of either case and nothing changes: escaped dots are dots |
| `EscapeSpelling.EscapedByteRefused` | src/implementations/request_target_rules.rs:214-250 | an escaped slash, backslash or control byte in a path is refused in digits of either case, with its reason |
| `EscapeSpelling.EscapeInText` | src/implementations/request_target_rules.rs:214-250 | a text with an escape has the faults of its parts in their order, and its canonical spelling is that of its parts: unreserved bytes bare, other escapes in upper case |
| `EscapeSpelling.MalformedEscape` | src/implementations/request_target_rules.rs:214-250 | a percent sign that begins no escape is the fault |
| `HostSpelling.HostIsFixed` | src/implementations/canonical_head_reverse_fill.rs:437-451 | the printers accept a host exactly when normalising it as an authority gives it back, without a port |
| `HostSpelling.AuthorityIsRead` | src/implementations/canonical_head_reverse_fill.rs:254-288 | every accepted authority is spelled so that the printers read it as the host and port it was spelled from |
| `HostSpelling.AbsoluteFits` | src/implementations/canonical_head_reverse_fill.rs:217-242 | a normalised absolute target fits its own authority once the default port is left out of it |
| `TargetRules.NormalizeByRules` | src/implementations/request_target_rules.rs:59-108 | the rule form computes the normalised target, errors included |
| `TargetRules.NormalizePercentEncoding` | src/implementations/request_target_rules.rs:214-250 | the loop gives the canonical spelling or the first encoding fault |
| `TargetRules.RemoveDotSegmentsByStack` | src/implementations/request_target_rules.rs:252-280 | the loop keeps the segments that dot removal keeps, and refuses a climb above the root |
| `TargetPipeline.NormalizeByPipeline` | src/implementations/request_target_validated_pipeline.rs:65-67 | validating first and materialising afterwards gives the same result, errors included |
| `TargetPipeline.ValidateNoRootEscape` | src/implementations/request_target_validated_pipeline.rs:200-210 | the depth fold over undecoded segments finds exactly the paths that dot removal refuses |
| `TargetPipeline.DecodedDotKind` | src/implementations/request_target_validated_pipeline.rs:212-219 | one or two dots are recognised through their escapes |
| `TargetPipeline.CanonicalSegments` | src/implementations/request_target_validated_pipeline.rs:357-384 | decoding each segment after splitting gives the routing path, and the pop never fails |
| `TargetPipeline.PercentTokens.Next` | src/implementations/request_target_validated_pipeline.rs:51-61 | the token iterator takes the canonical text apart token by token |
| `TargetOffsets.NormalizeByOffsets` | src/implementations/request_target_invariant_offsets.rs:15-47 | the offset-stack form accepts the same requests with equal results |
| `TargetOffsets.TransformPath` | src/implementations/request_target_invariant_offsets.rs:222-269 | the truncated output buffer with its stack of offsets is the segment stack, rendered |
| `TargetOffsets.PlaceSegment` | src/implementations/request_target_invariant_offsets.rs:231-262 | each segment keeps the offsets pointing at the rendered segments; popping truncates to the right place |
| `TargetOffsets.ValidateRootBalance` | src/implementations/request_target_invariant_offsets.rs:174-197 | the counter refuses exactly the paths that climb above the root |
| `TargetOffsets.ValidatePercentTriplets` | src/implementations/request_target_invariant_offsets.rs:144-171 | the first encoding fault of a component |
| `TargetOffsets.AppendCanonical` | src/implementations/request_target_invariant_offsets.rs:271-291 | appends the canonical spelling |
| `TargetTokens.NormalizeByTokens` | src/implementations/request_target_composable_validators.rs:84-88 | the composed validators accept the same requests with equal results, errors included once the envelope is sound |
| `TargetTokens.ValidateComponent` | src/implementations/request_target_composable_validators.rs:239-247 | the first encoding fault, token by token |
| `TargetTokens.ValidateRootBoundary` | src/implementations/request_target_composable_validators.rs:249-259 | refuses exactly the paths that climb above the root |
| `TargetTokens.DotSegment` | src/implementations/request_target_composable_validators.rs:261-278 | one or two dots are recognised from the tokens of a segment |
| `TargetTokens.RenderPath` | src/implementations/request_target_composable_validators.rs:430-450 | the rendered segments are the routing path |
| `TargetTokens.ComponentTokens.Next` | src/implementations/request_target_composable_validators.rs:59-80 | the token at the offset, or the reason there is none |
| `Chunks.ParseByGuardedParts` | src/implementations/chunk_guarded_parts.rs:9-23 | the direct parser: size, extensions, bytes consumed or first error |
| `ChunkSpans.ParseBySpans` | src/implementations/chunk_invariant_spans.rs:21-31 | the packed-span parser gives the same result on every input, errors included |
| `ChunkSpans.UnpackPack` | src/implementations/chunk_invariant_spans.rs:272-290 | offsets up to 1024 and both flags come back from the 64-bit word |
| `ChunkSpans.PackIsSum` | src/implementations/chunk_invariant_spans.rs:272-286 | shifting and or-ing the four offsets and two flags is addition without overlap |
| `ChunkSpans.ValidateSize` | src/implementations/chunk_invariant_spans.rs:107-131 | shift-or accumulation reads the size that multiply-add does, without overflow |
| `Words.ShiftOrIsMultiplyAdd` | src/implementations/chunk_invariant_spans.rs:107-131 | shifting in a hexadecimal digit is multiplying by sixteen and adding |
| `ChunkSpans.ValidUnescapedUtf8` | src/implementations/chunk_invariant_spans.rs:194-215 | the projected check answers UTF-8 validity of the unescaped bytes |
| `ChunkSpans.ProjectedBytes.Next` | src/implementations/chunk_invariant_spans.rs:225-233 | the projection yields the unescaped bytes one by one |
| `ChunkSpans.RangesAreSyntax` | src/implementations/chunk_invariant_spans.rs:194-215 | the per-octet ranges are the syntax of section 4 of RFC 3629 |
| `Utf8.ValidMeansEncoded` | src/implementations/chunk_invariant_spans.rs:194-215 | text is valid exactly when it encodes some list of Unicode scalar values |
| `ChunkSpans.MaterializeExtensions` | src/implementations/chunk_invariant_spans.rs:237-270 | the extensions built from the spans are those that were described |
| `ChunkSpans.ValidateExtensions` | src/implementations/chunk_invariant_spans.rs:60-105 | the preflight fills the spans of exactly the extensions of the line, or gives its first error |
| `Chunks.LineMeaning` | src/implementations/chunk_guarded_parts.rs:27-55 | the line ends at the first CRLF within 1024 bytes, with no control byte before it |
| `ChunkLines.LineReads` | src/implementations/chunk_guarded_parts.rs:9-23 | every line of a size in digits of either case with leading zeros allowed, and extensions with no, token or quoted values, within the limits, is read as that size and as those names in lower case with their unescaped values |
| `ChunkLines.AcceptedLine` | src/implementations/chunk_guarded_parts.rs:9-23 | and whatever is accepted begins with such a line and is reported as what it says |
| `ChunkLines.SizeSpelled` | src/implementations/chunk_guarded_parts.rs:64-81 | a size is the number its digits spell |
| `RadixOrder.Order` | src/implementations/trailer_direct_table.rs:72-96 | 128 passes give a rearrangement of the names, sorted on their first 128 bytes |
| `RadixOrder.Pass` | src/implementations/trailer_direct_table.rs:72-96 | one counting pass on arrays is the stable grouping by bucket |
| `RadixOrder.GroupedSorted` | src/implementations/trailer_direct_table.rs:72-96 | a stable pass extends the sorted order by one position |
| `RadixOrder.LessOrEqualIsLexicographic` | src/implementations/trailer_direct_table.rs:72-102 | comparing bucket by bucket is the lexicographic order for names of at most that many bytes |
| `RadixOrder.DuplicatesAreAdjacent` | src/implementations/trailer_direct_table.rs:45-65 | in a sorted list an adjacent pair is equal exactly when some name occurs twice |
| `Trailers.NewDeclarations` | src/implementations/trailer_direct_table.rs:45-65 | the table holds exactly the declared names in order, or the first fault: undeclarable, forbidden or repeated |
| `Trailers.ParseByDirectTable` | src/implementations/trailer_direct_table.rs:104-146 | the trailer block of the declared names, or its error |
| `Trailers.SummarizeAndDecide` | src/implementations/trailer_direct_table.rs:177-242 | the observed facts decide a trailer line as its field or its error |
| `Trailers.LocateLineEnd` | src/implementations/trailer_direct_table.rs:148-175 | where a trailer line ends, errors included |
| `TrailerGrammar.DeclarationMeans` | src/implementations/trailer_direct_table.rs:45-65 | a declaration is accepted exactly when every name is a lower-case token of at most 128 bytes that neither frames, routes nor authorises, and none occurs twice |
| `TrailerGrammar.TrailersRead` | src/implementations/trailer_direct_table.rs:104-146 | every trailer section of declared fields, each once, within the limits, is read as the names and values written |
| `TrailerGrammar.AcceptedTrailers` | src/implementations/trailer_direct_table.rs:104-146 | and every accepted trailer section is such lines |
| `ChunkedBody.ReadChunked` | src/proxy.rs:3753-3806 | the body and the bytes left are those of the decoding of buffer and stream together, however divided; the permit grows by exactly the decoded length |
| `ChunkedBody.Permit.Grow` | src/proxy.rs:1391-1397 | a permit and its budget grow together or not at all |
| `ChunkedRoundTrip.DecodeOfMessage` | src/proxy.rs:3753-3806 | every message of well-formed chunks, in any spelling of section 7.1 of RFC 9112 and within the limits, decodes to its body, and the bytes after it are left alone |
| `ChunkedRoundTrip.DecodedIsMessage` | src/proxy.rs:3753-3806 | whatever is decoded is such a message followed by the bytes left |
| `ChunkedRoundTrip.DecodeOfEncode` | src/proxy.rs:3753-3806 | for every list of non-empty chunks within the limits, decoding the plain encoding gives their concatenation and leaves what follows |
| `ChunkedSpelling.DecodeOfSpelled` | src/proxy.rs:3753-3806 | however its sizes are spelled and whatever extensions and trailers it has, a written message decodes to the data of its chunks and leaves what follows |
| `ChunkedSpelling.DecodedIsSpelled` | src/proxy.rs:3753-3806 | and whatever is decoded is such a message followed by the bytes left |
| `ChunkedSpelling.DecodesWithinLimits` | src/proxy.rs:3753-3806 | it decodes exactly when its data is within the body limit and the free memory |
| `BufferedInput.Reader.ReadLine` | src/proxy.rs:3876-3885 | a line up to its first CRLF comes off the front of what is available, buffer first |
| `BufferedInput.Reader.ReadExactVec` | src/proxy.rs:3863-3875 | so many bytes come off the front, or the fault that the stream ends with |
| `BufferedInput.Reader.ReadTrailers` | src/proxy.rs:3886-3899 | the trailer lines up to the empty one come off the front, within the limit |
| `BufferedInput.Reader.ReadByte` | src/proxy.rs:3851-3862 | the next byte of buffer and stream together |
| `DeclarationOrders.Orders.Insert` | src/implementations/route_bounded_match.rs:58-77 | reports a value as new exactly when it was not held; unless the table is full it then holds it too and nothing else changes |
| `DeclarationOrders.Orders.Seek` | src/implementations/route_bounded_match.rs:58-78 | probing stops at the value or at the first free slot, or has passed all 256 |
| `DeclarationOrders.FreeSlotMeansAbsent` | src/implementations/route_bounded_match.rs:58-78 | a free slot on the probe path means the value is not stored: every slot before a stored value on its cyclic path is taken |
| `DeclarationOrders.Stored` | src/implementations/route_bounded_match.rs:58-78 | storing at the first free slot keeps all stored values reachable |
| `DeclarationOrders.FullHoldsAll` | src/implementations/route_bounded_match.rs:45-78 | a full table holds 256 different values |
| `RouteMatch.MatchRoute` | src/implementations/route_bounded_match.rs:81-140 | the winner is the rule with the longest prefix, and of those the one declared first, among those whose host is the request's and the parts of whose prefix begin the path; no route exactly when there is none; or the first invalid rule or repeated order is reported |
| `RouteMatch.ListingOrderIsIrrelevant` | src/implementations/route_bounded_match.rs:81-162 | there is one winner, and it does not depend on the order in which rules are listed |
| `RouteMatch.FaultlessWhenShuffled` | src/implementations/route_bounded_match.rs:81-140 | nor does whether the rules are valid |
| `RouteMatch.WinnerMeans` | src/implementations/route_bounded_match.rs:81-162 | who wins, in the fields of rule and request: `/`, or a prefix whose segments are the first segments of the path |
| `RulePrefixes.PrefixMeans` | src/implementations/route_bounded_match.rs:228-264 | a printable path that does not end in a slash may be a prefix, and a prefix is such a path unless it has an escaped slash |
| `RulePrefixes.EscapedSlashNeverMatches` | src/implementations/route_bounded_match.rs:280-296 | a prefix with an escaped slash is accepted and no normalised path begins with it |
| `RulePrefixes.EscapedSlashIsAccepted` | src/implementations/route_bounded_match.rs:280-296 | the witness: `/a%2Fb` |
| `HostSpelling.RuleHostIsFixed` | src/implementations/route_bounded_match.rs:180-200 | the hosts that rules accept are those that the printers do, but for addresses without brackets |
| `HopByHopTrie.TokenTrie.Insert` | src/implementations/hop_by_hop_token_trie.rs:34-57 | reports a token as new exactly when it was not held, and then holds it too |
| `HopByHopTrie.TokenTrie.Contains` | src/implementations/hop_by_hop_token_trie.rs:59-72 | answers whether the token was inserted |
| `HopByHopTrie.RemoveByTrie` | src/implementations/hop_by_hop_token_trie.rs:142-164 | removal by trie |
| `HopByHopScanner.RemoveByLedger` | src/implementations/hop_by_hop_typed_pipeline.rs:170-189 | removal by scanner and ledger |
| `HopByHopScanner.ConnectionMembers.Next` | src/implementations/hop_by_hop_typed_pipeline.rs:130-165 | the scanner yields the comma-separated members, or a refusal at the first that is not a token |
| `HopByHopScanner.RemovalLedger.Apply` | src/implementations/hop_by_hop_typed_pipeline.rs:87-103 | what each kind of field enters in the ledger |
| `HopByHop.RemoveBySortedPlan` | src/implementations/hop_by_hop_sorted_plan.rs:130-143 | removal by sorted plan |
| `HopByHop.CompilePlan` | src/implementations/hop_by_hop_sorted_plan.rs:84-119 | the plan lists exactly the names to remove, each once, in increasing order |
| `HopByHop.SanitizedUnique` | src/implementations/hop_by_hop_sorted_plan.rs:130-143 | removal has one result, the failing index included, so the three forms are equal on every header block |
| `HopByHop.NothingSurvives` | src/implementations/hop_by_hop_sorted_plan.rs:130-143 | section 7.6.1 of RFC 9110: no fixed or nominated field survives, all others do, dropped names are reported, removed names are strictly increasing |
| `HopByHopMeaning.RemovalMeans` | src/implementations/hop_by_hop_sorted_plan.rs:130-143 | removal read off the header block: refused at the first `Connection` field with a member that is no token, and otherwise exactly the fields left whose name is not one of the nine and no member of a `Connection` field in any case |
| `HopByHop.SanitizedAgain` | src/implementations/hop_by_hop_sorted_plan.rs:130-143 | removing from what is left removes nothing |
| `NameLists.ListUnique` | src/implementations/hop_by_hop_sorted_plan.rs:83-119 | a set of names has one strictly increasing list |
| `NameLists.BinarySearch` | src/implementations/hop_by_hop_sorted_plan.rs:121-125 | finds a name exactly when the plan lists it |
| `NameLists.Dedup` | src/implementations/hop_by_hop_sorted_plan.rs:83-119 | removing repetitions from a sorted list leaves each element once, strictly increasing |
| `HeadReverseFill.ConstructFromTail` | src/implementations/canonical_head_reverse_fill.rs:89-139 | filling an exact-size buffer from tail to head gives the canonical head or its error; the cursor ends at zero |
| `HeadReverseFill.ReverseWriter.Prepend` | src/implementations/canonical_head_reverse_fill.rs:372-375 | a write stands directly before what is written, moves the cursor down by its length and touches nothing else |
| `HeadReverseFill.ReverseWriter.PrependHost` | src/implementations/canonical_head_reverse_fill.rs:390-406 | the host line stands before what was written |
| `HeadReverseFill.ReverseWriter.PrependRequest` | src/implementations/canonical_head_reverse_fill.rs:408-419 | the request line with its upper-case method stands before what was written |
| `HeadReverseFill.FillHead` | src/implementations/canonical_head_reverse_fill.rs:107-133 | the pieces fill the buffer exactly: the cursor reaches zero and the bytes are the head |
| `HeadReverseFill.FillRetained` | src/implementations/canonical_head_reverse_fill.rs:124-129 | walking the mask downwards writes the retained fields in their order |
| `HeadReverseFill.WireLen` | src/implementations/canonical_head_reverse_fill.rs:166-201 | the precomputed length is that of the text |
| `HeadForward.ConstructFromPlan` | src/implementations/canonical_head_compiled_plan.rs:69-138 | emitting forwards from the compiled plan gives the same head and the same errors |
| `HeadForward.CompileWirePlan` | src/implementations/canonical_head_compiled_plan.rs:140-255 | the plan refuses exactly the untrusted models and the heads over the limit; its size is exact and its mask marks the retained fields |
| `HeadForward.PlanFields` | src/implementations/canonical_head_compiled_plan.rs:163-211 | one pass over the fields checks, marks and sizes them |
| `HeadForward.EscapesByRules` | src/implementations/canonical_head_compiled_plan.rs:302-326 | the escape check by table |
| `HeadForward.ConstructInPhases` | src/implementations/canonical_head_rule_phases.rs:82-144 | validating, sizing and emitting in separate phases gives the same head and the same errors |
| `HeadForward.SerializedSize` | src/implementations/canonical_head_rule_phases.rs:420-463 | the budgeted size is that of the text, refused over the limit |
| `HeadForward.ByteRule` | src/implementations/canonical_head_compiled_plan.rs:516-559 | the bits of a table entry are the five byte classes |
| `HeadValidation.Validate` | src/implementations/canonical_head_reverse_fill.rs:142-164 | validation succeeds exactly on trusted models and yields the host and the mask |
| `HeadValidation.ValidateFields` | src/implementations/canonical_head_reverse_fill.rs:299-330 | the 128-bit mask has exactly the bits of the fields to retain; one pass decides the fields, neighbours decide the order of the removed names |
| `HeadValidation.ValidateEscapes` | src/implementations/canonical_head_reverse_fill.rs:476-501 | the cursor accepts exactly the canonical escapes |
| `HeadValidation.MarkOne` | src/implementations/canonical_head_reverse_fill.rs:312-316 | setting one bit of the mask leaves the other bits alone |
| `Decimals.RenderDecimal` | src/implementations/canonical_head_reverse_fill.rs:604-614 | filling a 20-byte buffer from its end writes the decimal digits of any 64-bit number |
| `Decimals.LogLen` | src/implementations/canonical_head_reverse_fill.rs:596-602 | the integer logarithm gives the number of digits |
| `Decimals.DecimalLen` | src/implementations/canonical_head_rule_phases.rs:507-514 | counting divisions gives the number of digits |
| `Decimals.DecimalOfRender` | src/implementations/canonical_head_reverse_fill.rs:604-614 | the digits read back as the number |
| `CanonicalHeadPath.PathOkIsFixedPoint` | src/implementations/canonical_head_reverse_fill.rs:453-502 | the printers accept a path exactly when normalising it gives it back unchanged |
| `CanonicalHeadPath.NormalizedPathIsPrintable` | src/implementations/canonical_head_reverse_fill.rs:453-502 | every path the normaliser lets through passes the printers' check |
| `RequestLineDirect.ParseRequestLine` | src/implementations/request_line_direct.rs:6-79 | method, target and bytes consumed, or the first error in the order the checks are made |
| `RequestLineDirect.FindTerminator` | src/implementations/request_line_direct.rs:81-113 | the line ends at a CRLF within 8192 bytes, and what is reported when it does not |
| `RequestLineDirect.ParserIsGrammar` | src/implementations/request_line_direct.rs:6-79 | the parser accepts exactly the lines of section 3 of RFC 9112 within the limits, and reports their parts |
| `HeadReading.PrintedHeadReadsBack` | src/implementations/canonical_head_reverse_fill.rs:89-139 | printing then parsing is the identity: every byte consumed, method and target back, the block the printed fields in order, the framing the printed one with length zero reading as none; refused exactly beyond the readers' limits |
| `PrintedBlock.PrintedHeadShowsModel` | src/implementations/canonical_head_reverse_fill.rs:81-132 | in the block read from a printed head the host, each forwarding value, the framing and `close` stand once, each under its own name with the value of the model; the other fields are those of the model in order, and none with another name than the proxy's own is dropped |
| `PrintedBlock.ForwardingValueMeans` | src/implementations/canonical_head_reverse_fill.rs:550-559 | a forwarding value is accepted exactly when it is printable text of at most 1024 bytes without outer spaces and without an empty member |
| `HeadReading.PrintedTargetNormalizes` | src/implementations/canonical_head_reverse_fill.rs:453-502 | the target read back normalises if and only if the method is not `connect`, and then to an origin target with the same path, query and routing path |
| `HeadRoundTrip.FramingReadsBack` | src/implementations/canonical_head_reverse_fill.rs:111-115 | the framing decided from the printed fields is the printed one |
| `HeadRoundTrip.HeadIsPrintable` | src/implementations/canonical_head_reverse_fill.rs:97-132 | every field of a trusted head is spelled as the header parsers demand |
| `HeadWire.PrintedHeadOnTheWire` | src/proxy.rs:3972-3999 | whatever follows it and however it is cut into reads, a printed head within the reading limit is read back byte for byte, a longer one refused |
| `HeadWire.NoEarlyEnd` | src/implementations/canonical_head_reverse_fill.rs:107-133 | no empty line stands among the printed ones |
| `OversizeHeads.LongTargetUnreadable` | src/implementations/canonical_head_reverse_fill.rs:89-139 | witnesses for the request line: heads with paths of 8180 to 8192 bytes are printed, and refused when they are read |
| `OversizeHeads.ManyFieldsUnreadable` | src/implementations/canonical_head_reverse_fill.rs:89-139 | witnesses for the field count: heads with 123 to 128 fields of their own are printed, and refused when they are read |
| `OversizeHeads.LongHeadRefused` | src/proxy.rs:2725 | witnesses for the wire: printed heads with five fields of 8163 to 8192 bytes exceed the reading limit and are refused whatever follows |
| `PrintableRequests.SanitizedIsPrintable` | src/implementations/canonical_head_reverse_fill.rs:298-331 | sanitised headers of an accepted section can be printed if and only if no nominated name exceeds 128 bytes |
| `PrintableRequests.LongNominationUnprintable` | src/implementations/canonical_head_reverse_fill.rs:319-325 | the witness: a section that nominates a longer name is accepted and sanitised, and its headers cannot be printed |
| `OversizeHeads.ConnectWithPath` | src/implementations/canonical_head_reverse_fill.rs:453-502 | the witness for `connect`: printed with a path, which the normaliser refuses for it |
| `UpstreamTarget.RewrittenIsPrintable` | src/proxy.rs:3353-3382 | rewriting succeeds exactly when the new path is short enough, gives an origin target, and its result can be printed if and only if the whole fits, the complete parts and escapes of the replacement are proper, and neither a dot part nor an improper escape arises where it meets the rest |
| `UpstreamTarget.RewriteMeans` | src/proxy.rs:3353-3382 | the replacement takes the place of the matched front, the rest of the path and the query stay, scheme and authority go; without a replacement nothing changes |
| `UpstreamTarget.PrintableReplacement` | src/proxy.rs:3353-3382 | for a replacement that can itself be printed the condition is the length and that it does not end in a slash before a dot part |
| `UpstreamTarget.WholePartsRewriteWell` | src/proxy.rs:2562-2579 | on exact and boundary routes such a replacement can only make a target too long |
| `UpstreamTarget.RewrittenIntoDots` | src/proxy.rs:3353-3382 | the family that fails on prefix routes: `/api./x`, matched on `/api` and rewritten by `/v/`, becomes `/v/./x`; printable before, not after |
| `UpstreamTarget.EscapesAcrossSplice` | src/proxy.rs:3370-3384 | the escapes of two joined texts are proper exactly when the complete ones of the first are and the cut-short one is completed properly |
| `UpstreamTarget.SplitConcat` | src/proxy.rs:3370-3384 | joining two texts joins the last part of one with the first part of the other |
| `UpstreamHeaders.ApplyRequestHeaders` | src/proxy.rs:3312-3335 | the loop gives the fields after each applicable header took the place of its namesakes, or the first failed rendering |
| `UpstreamHeaders.AppliedMeans` | src/proxy.rs:3312-3335 | that is the fields no applied header overrides, in their order, followed by the applied headers in theirs; it fails exactly when an applied header cannot be rendered |
| `UpstreamHeaders.AppliedPasses` | src/proxy.rs:566-617 | added to printable fields, the configured headers leave all printable if and only if each that applies has a printable value and none of the four hop-by-hop names that configuration lets through |
| `UpstreamHeaders.CredentialsRefused` | src/proxy.rs:581-596 | those names: configuration accepts such a header, and whatever it is added to is refused |
| `UpstreamRequests.UpstreamIsTrusted` | src/proxy.rs:2788-2999 | from a request that was read, normalised and sanitised to the printers: a model is made exactly when the headers can be rendered and the new path is short enough, and the printers object if and only if the authority, the forwarding values, a nominated name, a configured header, the field count or the replacement does not fit |
| `UpstreamRequests.UpstreamHeadAnnouncesBody` | src/proxy.rs:2971-2999 | the reader of the head that goes upstream finds the method of the request, the length of the body that was read and no transfer coding, whatever framing the request had |
| `UpstreamRequests.DroppingThePort` | src/proxy.rs:2990-2994 | dropping the port of the authority keeps it in agreement with the target if and only if the target is rewritten, has no authority, or had no port to drop |
| `UpstreamRequests.DroppedPortUnprintable` | src/proxy.rs:2990-2994 | the inputs where it fails: absolute targets with a port other than the default |

## Left out

- IPv6 addresses: whether a text is one is a predicate shared by all forms; the round trip only assumes that such a text has at most 45 hexadecimal digits, colons and dots, and the theorems about hosts also that it is not empty and that case does not matter.
- Sockets, TLS, threads other than the budget's, timeouts, file serving, gzip, logging, templates and telemetry: input and output, or foreign libraries.
- Interrupted reads, which the source retries: a read delivers bytes, the end or a fault.
- Authority normalisation: modelled once for the four target forms; the source writes it four times.
- Validation by the three printers: the checks are the same in different order with one error for all, so hosts, authorities and forwarding values are modelled once.
- Reconciling the authority, the forwarding policy, upgrades and the telemetry classifiers: case analysis only.
- src/implementations/request_target_typed_matrix.rs: in some cases such as `//a/..` it drops an empty segment that the other forms keep, and it keeps the raw spelling of a port.
- src/implementations/canonical_head_dual_sink_rules.rs: it also refuses escaped separators in the query.
- Registered forms of request line, body framing, hop-by-hop removal and route matching beyond the ones modelled: the same properties again.
- Saturating additions of sizes: sizes are unbounded here; the sums stay far below the width of a machine word under the field limits.
- TargetOffsets.NormalizeByOffsets: which error is reported first differs from the rule form, so only acceptance and results are equated.
- TargetTokens.NormalizeByTokens: the error is equated only when the envelope of the target is sound, for the same reason.
- HeaderPhases.ParseByPhases: errors inside lines are not equated with the cursor's, because the section end is proved before any line is read.
- HeaderReducer.ParseByReduction: errors are the cursor's only when the section boundary is sound; a bad field before a broken boundary reports the boundary's error, and a stray byte exactly at the limit may report either the limit or the line ending.
- UpstreamRequests.UpstreamIsTrusted: what rendering a configured header's template gives is a parameter, bounded as rendering bounds it, and so are the reconciled authority, the forwarding values and the body read; `expect` values, upgrades and access rules, which end a request earlier, are left out.
- ChunkedBody.ReadChunked: the names declared in the `Trailer` field come in as a parameter, the agreed parsers are the ones proved equal, and the memory budget is the sequential one; interleavings are in `MemoryBudget`.
- MemoryBudget.StepKeepsInv: absorbing a permit of another budget, which the source refuses, is not a step.
- RouteSelection.SelectRuntimeRoute: the guard that matches the selected route once more through the agreement is not part of the model.
- Decimals.LogLen: the integer logarithm of the standard library is written out as a loop.
- Nginx translation, include expansion and configuration validation: bound to the file system.
