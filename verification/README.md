# Hell: verified models of the checking and protocol cores

This project models the parts of the Hell runtime and its release tooling whose
correctness everything else leans on, and proves what they promise:

* **The core verifier** (`Graphs`, `Types`, `Core`, `Evidence`, `Inventory`,
  `Judgement`, `Infer`, `Typing`, `Verifier`). The typing judgement is stated by
  derivation trees that know nothing of work lists. The three passes over
  explicit stacks are shown to decide it, together with treeness, agreement of
  layouts and exactness of the evidence inventory.
* **JSON** (`Utf8`, `Hexadecimal`, `JsonSyntax`, `JsonGrammar`, `JsonParsing`,
  `JsonScreen`, `JsonCanonical`, `JsonRoundTrip`, `JsonOrder`, `JsonMachines`,
  `JsonDocuments`). A grammar with meanings is the reference; the parser decides
  it, the pre-screen only adds the size and depth bounds, the canonical printer is
  inverse to the parser, and documents have the same canonical bytes exactly when
  they differ in nothing but blanks, escapes and the order of members. String
  syntax is section 7 of RFC 8259, UTF-8 section 4 of RFC 3629.
* **SHA-256** (`Fips180`, `Sha256`). `Fips180` states sections 5.1.1 and 6.2 of
  FIPS 180-4 on messages of bytes; the buffered state machine agrees with it for
  every way of cutting the input.
* **UTC instants** (`Calendar`, `Epoch`, `Splitting`). The calendar follows from
  the leap rule (Appendix C of RFC 3339) by recursion over years and months; the
  era arithmetic and the instant validator agree with it.
* **The HTTP host** (`HttpHead`, `Ingress`, `Egress`, `Cancellation`,
  `Streaming`). Byte accounts for both directions of a connection, and transition
  systems for the cancellation token and the bounded response channel.
* **Shared budgets** (`Budget`). The compare-and-exchange loop and the permits as
  a transition system, and the loop itself against interference.
* **Strict TOML** (`StrictToml`, `TomlLayouts`). The reader's loops, and the
  theorem that layout does not matter to string arrays.

## How it is modelled

Loops that update variables are methods with invariants, objects that change are
classes; each is proved equal to a specification function or predicate, about
which the main results are lemmas. Concurrent protocols are transition systems
whose steps are the atomic operations of the code, and results hold in every
state of every run.

* The builtin registry, the plausibility table of builtin types, head projections
  and class instances are the fields of a `Registry` value. Type ids come from the
  program's own arena, in which the parts of a type precede it.
* The socket is a list of what its reads (writes) will do. What its reads have
  yet to yield is a function of that list, and what was written is kept by the
  socket write alone; other ghost fields record what was passed on. A write may
  take any part of what it is handed, so it does not matter that a ring buffer
  hands out its two slices one at a time. The idle timer is a count of loop turns
  after which it fires. The validity of a raw request head and the rewriting of
  informational heads are functions given to the connection. The engine may offer
  any room. Where the code would panic or loop for ever, the model returns
  `SliceOutOfRange`, `NoRoomForByte` or `Endless` instead.
* Callbacks, calls, sinks and permits have ids. Atomic operations are sequentially
  consistent.
* `BTreeMap`s with string keys are lists of entries in key order for JSON, maps for
  TOML.

## Where the code is weaker than one might read it

* An invalid *first* evidence root becomes the empty set instead of a rejection.
  `Inventory.Exact` says what the code accepts. `FirstRootValidIffInBounds` gives
  the exact condition under which the first root is valid after all, and
  `Verifier.DanglingFirstRootAccepted` a whole program for which it is not.
* Re-canonicalising an accepted document is idempotent only while the canonical
  form stays within 64 MiB. `RecanonicalisingIsIdempotent` is the exact condition
  and `CanonicalFormMayBeRefused` the document that fails it.
* From 2 to the 61 bytes on, the length field of the digest is not the one the
  standard asks for (`LengthFieldIsExact`); what remains is that it does not depend
  on the cut.
* A read of `SanitizedIo` panics exactly in two kinds of state, and loops for ever
  in one: `SliceFails` (more than 8192 body bytes remain, more than 8192 are
  offered, and nothing is buffered or waiting), `ByteIsLost` (a body is read, no
  room is offered and the socket yields a byte) and, without an idle timer,
  `Spins` (output waits in the head phase, no room is offered and the bytes at hand
  complete no head within the limit). `SliceMayFail`, `ByteMayBeLost` and
  `LoopMaySpin` reach one state of each.
* `SanitizedIo` keeps a head that failed validation, so reading on after the error
  fails the same way again (`Stuck` in the contract of `PollRead`). A head that
  exceeded the limit is kept as well. The next read passes it on exactly when it is
  complete and valid (`TurnQueuesOverlong`, `ReadQueuesOverlong`); a refusal leaves
  it complete exactly when its last byte was the one too many
  (`RefusalLeavesComplete`). `OverlongHeadIsQueued` is such a session.
* A string array element with a NUL is read back within a line-by-line reading, but
  no document may contain it; `OneLine` excludes it.

## Model

| member | source | states |
|---|---|---|
| Verifier.Verify | crates/hell-core/src/lib.rs:321-1013 | a program is accepted exactly when it is executable: root in range, layouts agree over all nodes, the reachable graph is a tree, the root has a derivation of the declared type, the evidence inventory is exact, and the type is `IO ()`; each refusal is tied to the first stage that fails |
| Verifier.CheckLayouts | crates/hell-core/src/lib.rs:331-370 | passes iff any two layouts of one nominal type, in reachable nodes or not, are equal |
| Graphs.CheckTree | crates/hell-core/src/lib.rs:371-465 | the colour and in-degree pass accepts iff every edge reachable from the root is in bounds and no node has two paths from the root; it ends on every graph, cyclic ones included |
| Graphs.Enter | crates/hell-core/src/lib.rs:398-464 | entering a node keeps the pass invariant: every recorded edge has its node's only path; a fault refutes treeness |
| Graphs.PushChildren | crates/hell-core/src/lib.rs:400-416 | pushing children last first records each edge once; an in-degree above one exhibits two different paths to the same node |
| Graphs.FinishedUnique | crates/hell-core/src/lib.rs:371-465 | when the stack is empty and no edge is grey, two paths to one node are equal, so the bookkeeping proves there is neither sharing nor a cycle |
| Graphs.SecondEdgeRefutesTree | crates/hell-core/src/lib.rs:407-414 | a second incoming edge gives two distinct root paths to one node |
| Graphs.BackEdgeRefutesTree | crates/hell-core/src/lib.rs:393-397 | meeting a grey node means a cycle through it, which no tree has |
| Types.TypeIsClosed | crates/hell-core/src/lib.rs:277-298 | the work list with a visited set decides that no meta variable and no bound index occurs anywhere in the type |
| Types.UnwindApplication | crates/hell-core/src/lib.rs:1168-1179 | walking down the applications and reversing what was met yields the head and the arguments in order |
| Types.TypeHeadName | crates/hell-core/src/lib.rs:270-275 | the loop ends at the constructor heading the application spine, or at none |
| Types.FunctionTypeParts | crates/hell-core/src/lib.rs:1206-1213 | the loop splits nested arrows into all parameters and the final result |
| Evidence.CheckPlan | crates/hell-core/src/lib.rs:1137-1157 | a plan passes iff its head is headed by a constructor with an instance of the same resolution, its arity and premise count agree, and each premise has the class of the plan and the head at its position |
| Evidence.ValidateGraph | crates/hell-core/src/lib.rs:1116-1166 | yields a set iff every plan reachable from the root is locally valid and none reaches itself; the set is then exactly the reachable plans, shared premises allowed |
| Evidence.SearchDone | crates/hell-core/src/lib.rs:1129-1166 | when the work list is empty the post-order proves the visited plans closed under premises and free of cycles |
| Inventory.InventoryIsExact | crates/hell-core/src/lib.rs:1215-1245 | the check as coded: every root but the first must be valid, the plans reached by valid roots are all the plans, no (class, head) pair repeats |
| Inventory.CountUsed | crates/hell-core/src/lib.rs:1235-1238 | comparing the size of the union of reachable sets with the number of plans is the same as every plan being reached |
| Inventory.ExactInventoryIsSound | crates/hell-core/src/lib.rs:1215-1245 | in an exact inventory every plan is reached by a valid root, is valid, does not rest on itself, and its (class, head) occurs once |
| Inventory.FirstRootValidIffInBounds | crates/hell-core/src/lib.rs:1226-1228 | the first root, which the code never rejects, is valid in an exact inventory exactly when it names a plan |
| Verifier.DanglingFirstRootAccepted | crates/hell-core/src/lib.rs:1226-1228 | a whole program that is executable although its first evidence root, at an unreachable builtin, is not valid: the concrete input for which validity of all roots fails, for every registry with a plain builtin of type `IO ()` |
| Infer.InferVariable | crates/hell-core/src/lib.rs:550-597 | in scope and, for a projection, of a tuple type with matching arity and name: exactly the variable rule, counting binders from the innermost |
| Infer.BuiltinInstanceHead | crates/hell-core/src/lib.rs:1181-1204 | following the projection steps gives the head type or nothing, step by step as the declarative projection |
| Infer.CheckBuiltin | crates/hell-core/src/lib.rs:656-694 | accepts iff the builtin rule holds: known, available, plausible, and class evidence present exactly when the registry asks for it, for the projected head, with a valid plan graph |
| Infer.CheckTuple | crates/hell-core/src/lib.rs:695-735 | accepts iff the stored type is the tuple type of exactly the elements' types, for two to four elements |
| Infer.CheckRecordModify | crates/hell-core/src/lib.rs:832-864 | accepts iff the record has the node's type and the modifier maps the field type to itself |
| Infer.CheckVariant | crates/hell-core/src/lib.rs:865-898 | accepts iff the constructor exists and a payload is present exactly when declared, with the declared type |
| Infer.SeenExhausts | crates/hell-core/src/lib.rs:919-953 | distinct in-range branch indices as many as the constructors handle every constructor (pigeonhole) |
| Infer.CheckBranches | crates/hell-core/src/lib.rs:919-941 | accepts iff branches are in range, distinct, of the declared payload and with bodies of the node's type |
| Infer.CheckCase | crates/hell-core/src/lib.rs:899-956 | accepts iff the scrutinee has the layout's type, the branches fit and, without a default, handle every constructor |
| Typing.InferNode | crates/hell-core/src/lib.rs:549-963 | with its children recomputed as stored, a node is accepted iff the declarative rule of its kind holds under its environment |
| Typing.TypingPass | crates/hell-core/src/lib.rs:466-999 | the post-order pass without visited marks accepts iff every node reachable along any path obeys its rule under the binders of that path; it then pops twice the number of reachable nodes |
| Typing.ChildrenAreComputed | crates/hell-core/src/lib.rs:598-645 | at the second pop of a node every child is recomputed with its stored type: the "was not verified" branches are never taken |
| Typing.ExpandStep | crates/hell-core/src/lib.rs:480-547 | the first pop of a node keeps the pass invariant; that its children are new to the stack rests on the tree property |
| Typing.FinishStep | crates/hell-core/src/lib.rs:957-965 | the second pop of a node keeps the pass invariant and records the stored type |
| Typing.BadNodeRefutes | crates/hell-core/src/lib.rs:548-966 | a node that breaks its rule leaves no derivation: refusals are never spurious |
| Judgement.WellTypedByPaths | crates/hell-core/src/lib.rs:466-999 | on trees, having a derivation tree and every path obeying its rules are the same thing |
| Judgement.DerivationBelow | crates/hell-core/src/lib.rs:466-999 | a derivation of the root contains one for every reachable node under exactly the binders of its path |
| Judgement.BuildDerivation | crates/hell-core/src/lib.rs:466-999 | conversely a derivation is built for every node of a tree whose nodes obey their rules |
| Judgement.PathsAreShort | crates/hell-core/src/lib.rs:371-465 | root paths of a tree are shorter than the number of nodes |
| Verifier.AcceptedNodes | crates/hell-core/src/lib.rs:321-1013 | along every path of an accepted program the node exists, is reached by no other path and obeys its rule under the binders of the path |
| Verifier.AcceptedVariablesInScope | crates/hell-core/src/lib.rs:550-560 | no de Bruijn index of an accepted program points outside its binders |
| Verifier.AcceptedCasesAreTotal | crates/hell-core/src/lib.rs:899-955 | in an accepted case every constructor of the layout is handled by exactly one branch or else by the default |
| Verifier.AcceptedEvidence | crates/hell-core/src/lib.rs:1105-1166 | reachable constrained builtins have fully valid evidence of their own class; every plan carried is valid, well founded and used |
| JsonMachines.JsonParser.ParseValue | crates/hell-ci/src/json.rs:154-167 | reads one value from the index on, ending where it ends, or fails, exactly as the reading function that the grammar theorem is about |
| JsonMachines.JsonParser.ParseObject | crates/hell-ci/src/json.rs:169-192 | collects members in key order and fails on a repeated decoded key |
| JsonMachines.JsonParser.ParseArray | crates/hell-ci/src/json.rs:194-210 | collects elements in order |
| JsonMachines.JsonParser.ParseString | crates/hell-ci/src/json.rs:212-227 | decodes a string up to its closing quote |
| JsonMachines.JsonParser.Escape | crates/hell-ci/src/json.rs:229-246 | decodes one escape |
| JsonMachines.JsonParser.UnicodeEscape | crates/hell-ci/src/json.rs:270-288 | four hexadecimal digits of a scalar value; surrogates are rejected |
| JsonMachines.JsonParser.WideChar | crates/hell-ci/src/json.rs:248-268 | one multi-byte character, well formed as UTF-8 |
| JsonMachines.JsonParser.ParseNumber | crates/hell-ci/src/json.rs:290-306 | an unsigned integer without leading zeros that fits in 64 bits |
| JsonParsing.ParserDecidesGrammar | crates/hell-ci/src/json.rs:154-350 | the parser yields v exactly for the documents that some syntax tree of the grammar spells with meaning v |
| JsonDocuments.StructuralJson.ScanValue | crates/hell-ci/src/fuzz_surfaces.rs:31-46 | delimits one value within the depth bound without building it |
| JsonDocuments.StructuralJson.ScanString | crates/hell-ci/src/fuzz_surfaces.rs:88-123 | the loop with the escape flag finds the raw end of a string and its raw text |
| JsonDocuments.StructuralJson.ScanObject | crates/hell-ci/src/fuzz_surfaces.rs:48-70 | delimits an object whose raw keys do not repeat |
| JsonDocuments.StructuralJson.ScanArray | crates/hell-ci/src/fuzz_surfaces.rs:72-86 | delimits an array |
| JsonScreen.StringSim | crates/hell-ci/src/fuzz_surfaces.rs:88-123 | a string the parser reads, the pre-screen delimits at the same end, with a raw form that determines the text; so a repeated raw key is a repeated decoded key |
| JsonScreen.ValueSim | crates/hell-ci/src/fuzz_surfaces.rs:31-86 | where the parser reads a value, the pre-screen ends at the same byte exactly when the nesting fits |
| JsonScreen.ScreenOnlyAddsBounds | crates/hell-ci/src/json.rs:51-63 | `parse_json` yields v iff the parser alone yields v, the document has at most 64 MiB and no value is enclosed by more than 256 containers |
| JsonDocuments.StrictJsonRecord | crates/hell-ci/src/fuzz_surfaces.rs:7-23 | the admission check: size, UTF-8, no NUL, structure, no trailing bytes |
| JsonDocuments.ParseDocument | crates/hell-ci/src/json.rs:51-63 | pre-screen and parser run one after the other on the same bytes compute the function of the previous theorem |
| JsonDocuments.JsonWriter.PushString | crates/hell-ci/src/json.rs:96-113 | appends the escaped text to the buffer and leaves what was there |
| JsonDocuments.JsonWriter.PushValue | crates/hell-ci/src/json.rs:115-146 | appends the printed value, recursively, to the same buffer |
| JsonDocuments.CanonicalDocument | crates/hell-ci/src/json.rs:65-70 | the canonical bytes: the value and a line feed |
| JsonCanonical.ValueSpells | crates/hell-ci/src/json.rs:115-146 | what is printed is the spelling of a syntax tree of the grammar |
| JsonRoundTrip.CanonicalParses | crates/hell-ci/src/json.rs:65-70 | parsing canonical bytes gives the value back, control escapes and multi-byte characters included |
| JsonRoundTrip.CanonicalInjective | crates/hell-ci/src/json.rs:65-70 | distinct values have distinct canonical bytes |
| JsonRoundTrip.RoundTrip | crates/hell-ci/src/json.rs:51-70 | `parse_json` reads canonical bytes back iff they keep within the size and depth bounds |
| JsonRoundTrip.ParsedIsProper | crates/hell-ci/src/json.rs:154-210 | parsed values keep their maps in key order and their numbers within 64 bits |
| JsonRoundTrip.RecanonicalisingIsIdempotent | crates/hell-ci/src/json.rs:51-70 | re-reading the canonical form of an accepted document gives the same value iff that form keeps within the size bound; depth never stands in the way |
| JsonRoundTrip.CanonicalFormMayBeRefused | crates/hell-ci/src/json.rs:96-113 | a document of twelve million backspace escapes is accepted and its canonical form is refused: idempotence without the size condition is false |
| JsonParsing.DocumentParse | crates/hell-ci/src/json.rs:154-350 | a document is read to the meaning of any tree that spells it, or refused when that tree has none: no spelling is ambiguous |
| JsonOrder.OrderIsImmaterial | crates/hell-ci/src/json.rs:154-210 | documents whose trees are alike, with members in any order at every level and any blanks and escapes, are read to the same value or refused together; documents read to the same value are alike |
| JsonOrder.SameCanonicalBytes | crates/hell-ci/src/json.rs:65-70 | accepted documents have the same canonical bytes exactly when they are alike |
| JsonOrder.LayoutIsImmaterial | crates/hell-ci/src/json.rs:51-63 | through `parse_json` as well: alike documents within the size bound are accepted or refused together, with the same value |
| JsonOrder.RearrangedMeans | crates/hell-ci/src/json.rs:169-192 | rearranging the members of an object changes neither its value nor that a repeated key refuses it |
| JsonOrder.SamePairsRearranged | crates/hell-ci/src/json.rs:169-192 | objects that hold the same pairs are rearrangements of each other |
| JsonRoundTrip.InsertCommutes | crates/hell-ci/src/json.rs:171-183 | inserting two different keys commutes |
| Utf8.LessIsByteLess | crates/hell-ci/src/json.rs:3-12 | ordering keys by code point, as the model does, is ordering their UTF-8 bytes, as the map does |
| Utf8.FromUtf8Encode | crates/hell-ci/src/fuzz_surfaces.rs:11-12 | decoding an encoded text gives the text back (section 4 of RFC 3629) |
| Utf8.DecodeEncode | crates/hell-ci/src/json.rs:248-268 | every scalar value is encoded by well-formed bytes that decode to it |
| Utf8.EncodeDecode | crates/hell-ci/src/json.rs:248-268 | well-formed bytes are the encoding of what they decode to |
| Sha256.Compress | crates/hell-digest/src/lib.rs:208-249 | filling 64 words and rotating eight variables in a loop computes the hash computation of section 6.2.2 of FIPS 180-4 |
| Sha256.Schedule | crates/hell-digest/src/lib.rs:210-225 | the filled array is the message schedule, although the code adds in another order |
| Sha256.SameSum | crates/hell-digest/src/lib.rs:221-224 | the order in which the four words are added does not matter modulo 2 to the 32 |
| Sha256.Stream.constructor | crates/hell-digest/src/lib.rs:134-141 | the empty state stands for the empty message |
| Sha256.Stream.Update | crates/hell-digest/src/lib.rs:149-176 | the state stands for the message with the bytes appended, whatever is in the partial block |
| Sha256.Stream.Finish | crates/hell-digest/src/lib.rs:179-198 | padding in place over one or two blocks yields the digest of the absorbed message with the saturated, wrapped length field |
| Sha256.PaddedEnds | crates/hell-digest/src/lib.rs:180-192 | the one or two blocks the code pads in place are the last blocks of the padded message of section 5.1.1 |
| Sha256.LengthFieldIsExact | crates/hell-digest/src/lib.rs:179-198 | the length field is the number of bits exactly below 2 to the 61 bytes |
| Sha256.DigestIsStandard | crates/hell-digest/src/lib.rs:179-198 | below 2 to the 61 bytes that digest is the SHA-256 of the standard, and from there on its length field is another |
| Sha256.DigestOfChunks | crates/hell-digest/src/lib.rs:149-198 | for every way of cutting a message into updates the digest depends on the joined message alone, and is the standard one below 2 to the 61 bytes |
| Fips180.PaddingIsMinimal | crates/hell-digest/src/lib.rs:183-191 | the zero bytes are the fewest that leave eight bytes of the last block |
| Fips180.WordRoundTrip | crates/hell-digest/src/lib.rs:193-196 | words and their four big-endian bytes correspond one to one |
| Sha256.FromHex | crates/hell-digest/src/lib.rs:92-101 | accepts exactly 64 hexadecimal digits of either case, and yields the digest they spell; width is checked first |
| Sha256.Hex | crates/hell-digest/src/lib.rs:104-112 | the lowercase spelling of a digest |
| Sha256.SpellingIsUnique | crates/hell-digest/src/lib.rs:92-112 | a spelling determines its digest, and a digest its lowercase spelling: the two directions of the round trip |
| Epoch.YearOfEraIsYear | crates/hell-ci/src/readiness.rs:605-607 | the division formula gives the year for every day of an era, leap days included |
| Epoch.EraParts | crates/hell-ci/src/readiness.rs:603-607 | every day of an era has a century, four-year cycle, year and day of a year that starts in March |
| Epoch.FromMarch | crates/hell-ci/src/readiness.rs:609-612 | the month formula turns such a day into a valid date with the right day number |
| Epoch.CivilDateIsExact | crates/hell-ci/src/readiness.rs:597-612 | the computed date is the valid Gregorian date from 1970 on whose day number, counted by the leap rule year by year and month by month, is that of the input day |
| Epoch.InstantIsExact | crates/hell-ci/src/readiness.rs:597-623 | an instant is produced iff the seconds are at most 253402300799, and it prints the valid date and time of day that many seconds after 1970 began |
| Epoch.InstantsAreOrdered | crates/hell-ci/src/readiness.rs:617-620 | printed instants compare as byte strings exactly as their seconds compare as numbers |
| Epoch.PrintedIsValid | crates/hell-ci/src/conformance/ledger.rs:759-806 | the validator accepts every printed valid date and time up to the year 9999, so the last check never rejects |
| Epoch.ValidIsPrinted | crates/hell-ci/src/conformance/ledger.rs:712-806 | and it accepts nothing else |
| Calendar.MarchIsMarch | crates/hell-ci/src/readiness.rs:605-608 | closed form of the days before a year, from the leap rule by induction |
| Calendar.DayNumberOrder | crates/hell-ci/src/readiness.rs:597-612 | day numbers are ordered as dates are, so no two dates share one |
| Ingress.SanitizedIo.PollRead | crates/hell-http-host/src/lib.rs:573-679 | for every room and timer, one read keeps: bytes read = heads and body pieces passed on ++ partial head ++ raw buffer, bytes read ++ what the socket has yet to yield = the whole stream, and bytes delivered ++ output = the same pieces with heads sanitised; its result is that of the head phase or the body phase, and it slices past its buffer, drops a byte or never ends exactly in the states named; heads are within the limit exactly as long as no read has said that one is not, and a read passes on one over the limit iff it was complete and valid before; an invalid head fails every later read in the head phase |
| Ingress.ReadStreams | crates/hell-http-host/src/lib.rs:626-637 | what one read of the socket yields is the front of its stream, and the rest is still to come |
| Ingress.SanitizedIo.HeadTurn | crates/hell-http-host/src/lib.rs:591-638 | one turn of the head phase uses up the bytes at hand: too long, one whole head judged and queued, or all of them in the partial head; only then and with nothing to pass on is the socket read, and what it yields is in the raw buffer |
| Ingress.SanitizedIo.FillHead | crates/hell-http-host/src/lib.rs:607-625 | moving raw bytes one by one, with a test after each, comes to looking at all of them at once: the limit or the first end, whichever is met first |
| Ingress.SanitizedIo.FinishHead | crates/hell-http-host/src/lib.rs:539-549 | the remainder behind a finished head is always empty; a valid head is queued sanitised behind what was queued, an invalid one stays where it is |
| Ingress.SanitizedIo.PollBody | crates/hell-http-host/src/lib.rs:645-677 | a body read takes buffered bytes before the socket and never more than remain; exactly the last declared byte moves on to the next request; the slice fails iff more than 8192 bytes remain, more than 8192 are offered and nothing is buffered or waiting; a byte is lost iff the socket yields one when no room is offered |
| Ingress.SanitizedIo.ReduceBodyRemaining | crates/hell-http-host/src/lib.rs:820-831 | whatever the phase and the amount: the remaining length goes down to nothing and no further, and delivered and remaining bytes go on adding up to the declared length |
| Ingress.SliceMayFail | crates/hell-http-host/src/lib.rs:660-661 | the concrete state: a declared body of 8193 bytes and as much room |
| Ingress.ByteMayBeLost | crates/hell-http-host/src/lib.rs:662-668 | the concrete state: a body byte and no room |
| Ingress.LoopMaySpin | crates/hell-http-host/src/lib.rs:582-628 | the concrete state: output of a finished request and no room, without a timer |
| Ingress.TurnQueuesOverlong | crates/hell-http-host/src/lib.rs:590-606 | one turn queues a head over the limit exactly when the partial head is complete, valid and over the limit already: the end is looked for before the length |
| Ingress.ReadQueuesOverlong | crates/hell-http-host/src/lib.rs:591-638 | the same for a whole head phase, whatever it reads: a head that grows during a read never passes the limit |
| Ingress.RefusalLeavesComplete | crates/hell-http-host/src/lib.rs:608-612 | a refusal for length leaves such a head behind exactly when the first end of a head in the bytes at hand is one byte past the limit and the head is valid |
| Ingress.OverlongHeadIsQueued | crates/hell-http-host/src/lib.rs:590-606 | the concrete session: limit 3, a head of four bytes, refused by the first read and passed on by the second |
| Ingress.TurnedFacts | crates/hell-http-host/src/lib.rs:591-625 | a turn queues one whole head, or leaves items and output alone; a complete invalid head is refused again with nothing changed |
| Ingress.SanitizedIo.BeginBody | crates/hell-http-host/src/lib.rs:466-477 | a body of declared length zero is over at once |
| Ingress.SanitizedIo.FinishRequest | crates/hell-http-host/src/lib.rs:479-486 | the next head is awaited; nothing is lost |
| Ingress.SanitizedIo.CopyOutput | crates/hell-http-host/src/lib.rs:529-537 | moves output in order, as much as fits |
| Ingress.HeadIsWhole | crates/hell-http-host/src/lib.rs:539-549 | a head whose first end is found has nothing behind it |
| Ingress.HeadConserves | crates/hell-http-host/src/lib.rs:539-549 | queuing a head keeps the byte accounts on both sides |
| Ingress.BodyConserves | crates/hell-http-host/src/lib.rs:652-671 | delivering body bytes keeps them |
| HttpHead.FindHeaderEnd | crates/hell-http-host/src/lib.rs:833-838 | the first position behind an empty line, or none |
| HttpHead.SanitizeRequestHead | crates/hell-http-host/src/lib.rs:840-871 | percent-escapes the non-ASCII bytes of the target and nothing else |
| HttpHead.SanitizedStaysWhole | crates/hell-http-host/src/lib.rs:840-871 | the sanitised form of one complete head is one complete head: escaping moves its end and makes no other |
| HttpHead.SanitizedIsAscii | crates/hell-http-host/src/lib.rs:840-871 | the sanitised target is ASCII, and an ASCII target is left as it was |
| Egress.WireIo.PollWireOutput | crates/hell-http-host/src/lib.rs:738-758 | what the socket is handed is the queue, in order, until it is empty, the socket blocks or fails, or it takes nothing |
| Egress.WireIo.PollWrite | crates/hell-http-host/src/lib.rs:682-717 | the queue goes first, and a write that must wait accepts nothing; without a pending informational head the socket gets the bytes themselves; with one they are collected, and the first end of a head in what was collected turns exactly the bytes up to it into the rewritten head, passes the rest on unchanged and ends the pending state; what is on the wire and in the queue is what was accepted, rewritten heads aside |
| Egress.FirstIsWhole | crates/hell-http-host/src/lib.rs:703-709 | what is rewritten is one whole head |
| Egress.RewriteConserves | crates/hell-http-host/src/lib.rs:704-709 | the collected head is rewritten and what came behind it passes unchanged |
| Cancellation.CallbacksRunAtMostOnce | crates/hell-http-host/src/lib.rs:98-130 | over every interleaving no callback runs before the flag is set and none runs twice |
| Cancellation.CallbacksRunExactlyOnce | crates/hell-http-host/src/lib.rs:98-130 | once all calls have returned after a cancel, every callback ever passed in has run exactly once |
| Cancellation.CallbacksWaitForCancel | crates/hell-http-host/src/lib.rs:118-130 | without a cancel nothing runs and everything registered waits |
| Cancellation.OrderedStep | crates/hell-http-host/src/lib.rs:98-130 | every step keeps the mutex discipline: no push can follow the one taking of the list |
| Cancellation.PlacedStep | crates/hell-http-host/src/lib.rs:98-130 | every step keeps each callback in exactly one place |
| Streaming.FramesComeInOrder | crates/hell-http-host/src/lib.rs:1425-1458 | over every interleaving data frames come out in the order each sink enqueued them, a completed body has delivered them all, and the channel holds at most two messages |
| Streaming.FlushMeansPolled | crates/hell-http-host/src/lib.rs:258-267 | a flush that returns successfully has seen everything enqueued before it polled, and the frames of all of it yielded |
| Streaming.FlushIsNotLost | crates/hell-http-host/src/lib.rs:258-267 | a waiting flush is in the channel, or being answered, or the body is gone and it can fail |
| Streaming.AbandonedBodyCancels | crates/hell-http-host/src/lib.rs:1473-1480 | once the body is gone nothing more is enqueued or yielded, and unless it had completed the request is cancelled |
| Streaming.FifoStep | crates/hell-http-host/src/lib.rs:238-267 | every step keeps the queue first-in first-out and bounded |
| Streaming.FlushesStep | crates/hell-http-host/src/lib.rs:258-267 | every step keeps flush messages and waiting flush calls in correspondence |
| Budget.CountersAreExact | crates/hell-runtime/src/budget.rs:246-252 | over every interleaving with spurious failures: a live counter is the number of outstanding permits and within its limit, a cumulative counter is the sum of the successful charges |
| Budget.ReleasesSubtract | crates/hell-runtime/src/budget.rs:246-252 | dropping a permit always finds a unit to subtract: the 64-bit subtraction never wraps |
| Budget.RejectionsAreJustified | crates/hell-runtime/src/budget.rs:295-322 | a rejection changes nothing but the call itself and is justified by a value the counter held after the call began |
| Budget.SuccessIsExact | crates/hell-runtime/src/budget.rs:254-293 | a success adds exactly its amount and, for live counters, one new permit |
| Budget.StepKeeps | crates/hell-runtime/src/budget.rs:242-322 | every atomic step keeps the invariant |
| Budget.AtomicCounter.Update | crates/hell-runtime/src/budget.rs:295-322 | the retry loop writes once when it succeeds, on top of the value it replaces, and never otherwise; overflow and excess are judged against a value really held |
| Budget.AtomicCounter.CompareExchangeWeak | crates/hell-runtime/src/budget.rs:317-320 | writes iff the value is the expected one and the failure is not spurious |
| StrictToml.Assignments | crates/hell-ci/src/strict_toml.rs:9-72 | the loop over section, pending value and map computes the line-by-line reader |
| StrictToml.StripComment | crates/hell-ci/src/strict_toml.rs:85-103 | cuts at the first `#` outside a string; an open string is an error |
| StrictToml.BalancedArray | crates/hell-ci/src/strict_toml.rs:105-130 | whether the brackets outside strings balance; one too many is an error |
| StrictToml.StringArray | crates/hell-ci/src/strict_toml.rs:155-170 | reads the items in order and fails on the first bad one |
| StrictToml.AcceptedKeysAreUnique | crates/hell-ci/src/strict_toml.rs:74-83 | in an accepted document no qualified key is assigned twice and the result holds exactly the assignments made |
| TomlLayouts.ArrayOverLinesReadsBack | crates/hell-ci/src/strict_toml.rs:9-170 | wherever it stands in a document, a string array printed over any number of lines, with any blanks around key and equals sign, blanks, comments and a trailing comma, is assigned as one value that reads back as the list |
| TomlLayouts.PrintedLines | crates/hell-ci/src/strict_toml.rs:16 | splitting a text into lines undoes writing lines with LF or CR LF behind each, or nothing behind the last |
| TomlLayouts.ArrayDocumentReadsBack | crates/hell-ci/src/strict_toml.rs:9-170 | so a document holding any layout of the array, the one-line form included, with blank and comment lines before and behind and either line end after each line, reads back as the same list |
| TomlLayouts.ArrayReadsBack | crates/hell-ci/src/strict_toml.rs:155-170 | whatever the blanks between the pieces, the array text reads back as its elements |
| TomlLayouts.PiecesBalanced | crates/hell-ci/src/strict_toml.rs:105-130 | quoted brackets do not count towards the balance of printed pieces |
| TomlLayouts.CommentCut | crates/hell-ci/src/strict_toml.rs:85-103 | a comment behind printed pieces is cut off whole, whatever it contains |

## Left out

- Error messages and source spans: only which check failed is kept, and for JSON, TOML and the canonical printer only that one did.
- The payloads of constants, and the tables behind `builtin_type_is_plausible`, `executable`, builtin schemes, head projections and class instances: finite tables, passed in as parameters.
- The `compat-tracing` check of compiler evidence: a sortedness and membership test behind a feature flag.
- Integer widths of ids and indices: ids are natural numbers and only in-bounds comparisons matter; where width shows, it is modelled (saturating in-degrees, the digest's byte counter and words, 64-bit numbers, budget counters).
- Egress.WireIo.PollWrite: the rewriting of an informational head is a parameter, because its text is a line filter that no other property depends on.
- Ingress.SanitizedIo.PollRead: `validate_raw_request_head` is a parameter and wakers are not modelled; the caller polls again when it likes. Mutex poisoning is out of scope.
- Ingress.SanitizedIo.BeginBody: assumed to be called while a body is awaited, as its one caller does.
- Cancellation and response streaming as sequential classes: they are shared between threads, so only their interleaved form is modelled. Fixed and empty bodies, which never touch the channel, are left out.
- Streaming.FramesComeInOrder: the order of a sink is the order in which its messages entered the channel; two concurrent sends of one sink have no other order.
- Budget.AtomicCounter.Update: the loop has no bound of its own; the model runs it for as many rounds as the interference lasts and reports contention when that ends.
- `boolean`, `boolean_array` and `take` of the TOML reader, `json_member` and `require_exact_json_keys`: one-branch accessors.
- Hyper, Tokio, sockets, timers, the accept loop and graceful shutdown; process launching, file-system identity, Git and report formatting: foreign behaviour or plumbing.
- Primality of the numbers behind the round constants of SHA-256: the constants are those listed in section 4.2.2 of FIPS 180-4.
