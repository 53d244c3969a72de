# Models and proofs for the injector's algorithmic parts

The repository loads a module into a closed client and hooks functions of it. Around that glue
sit several self-contained algorithms. This project models them in Dafny and proves what they
are for.

- **The description compiler** (`tools/ipc_codegen/ipc_codegen.cpp`). `Lexing` is the lexer,
  `Rendering` says what texts a token sequence can be written as, `Descriptions` is the syntax
  tree, `Grammar` the parser as functions and `Parsing` the recursive-descent parser that
  follows them. `Language` says which tokens declare which file and proves that they are read so,
  `Recognition` that no others are, `Positions` where errors are reported; `Printing` writes a
  tree as tokens and `Image` says which trees there can be. `Validation` is the semantic check and
  `FrontEnd` the whole front end. `Layout`, `Views` and `Responses` are the meaning of the
  accessors the compiler emits: offsets in a byte sequence that are saturating sums, where one
  term may be a length read from the same bytes. `Accessors` says what that means to a caller.
- **The detour ledger** (`src/SFPlatform/Linux/Detour.cpp`, `src/Hook/HookMacros.h`). `Detours`
  is the state machine over handles, trampolines and the callers' pointers with the invariant of
  every run; `Transactions` proves atomicity and what a commit keeps; `HookGroups` is about whole
  modules of hooks, installed and uninstalled; `Ledger` is the mutable program and the macros on
  top of it, proved equal to the state machine step by step. funchook is an
  abstract heap: preparing redirects a pointer, installing may fail, destroying unmaps.
- **Byte search** (`src/SFPlatform/Linux/ByteSearch.cpp`), in `ByteSearch`: a Horspool scanner and
  a chunked file scan against "leftmost occurrence".
- **Packets** (`src/Hook/Hooks_NetPacket.cpp`). `PacketFrames`: frames, the slot ring, rewriting.
  `WireReaders`: varints, the field finder, the key-value walker. `AnswerQueue`: the two threads
  that answer requests locally by borrowing a received packet.
- **Smaller supports.** `VectorEdit`: the growth loop, removal and the batch edit of a vector.
  `Patterns`: masking of machine code, signatures, function lookup. `WebSocket`: the debugger
  connection, by RFC 6455 sections 5.2 and 5.3. `Bytes` and `Outcomes` are shared.

Code that changes state is modelled by classes and methods that change state. Each of their
methods is tied to a function, and the properties are proved about that function. What the
outside answers (whether funchook creates, prepares or installs, what `pread` returns, how
Grow behaves, how a socket cuts its stream) is a parameter everywhere.

## Where the code and what it says differ

Each of these has its exact condition, and an input at which it shows.

- The diagnostic for `IPCInterfaceCall` demands header, payload body and fencepost, but which
  field is the payload is not checked (`FrontEnd.PayloadIsBody`,
  `FrontEnd.PayloadMayStandElsewhere`).
- An output blob whose length is a parameter called `returnValue` reads the return value of the
  method instead (`Views.LengthComesFromParameter`, `Responses.CaptureCompiles`).
- An input blob may name an output as its length, and is then always empty
  (`Views.InputLengthComesFromParameter`, `Responses.OutputLengthCompiles`).
- `ok()` of a response view checks a minimum: the fields from a self-measured blob on need not
  lie inside (`Responses.ResponseSound`, `Responses.OkIsEnough`,
  `Responses.OkWithFieldOutside`).
- Every uninstalled module opens a transaction of its own, and committing that without a hook
  leaves a handle that nothing ever frees (`HookGroups.EmptyCommitIsNeverFreed`,
  `HookGroups.UninstallLeavesHandle`, `HookGroups.LeakHappens`).
- A hook attached outside a transaction is reported as hooked, but it opens a transaction that
  only a successful commit would install. Every commit of the macros is behind a begin, which
  takes the hook back, so it is never installed (`Transactions.LateHookWaits`,
  `Transactions.LateHookIsNeverInstalled`). If the begin is that of its own module's uninstall,
  the detach finds nothing and the pointer keeps the original instead of becoming null
  (`HookGroups.UninstallNulls`, `HookGroups.LateHookStays`).
- A received body shrunk in place whose new header does not fit a slot keeps its old length and
  tail (`PacketFrames.UnfitRewrite`, `PacketFrames.UnfitHappens`).
- A response that finds 64 others waiting is dropped although its request was suppressed
  (`AnswerQueue.AnswerOrForward`, `AnswerQueue.FloodDrops`).
- The field finder adds lengths in 64 bits: one that wraps leads back, and the loop may never end
  (`WireReaders.FinderInMachineArithmetic`, `WireReaders.LoopsForEver`).
- The debugger reader drops the masking key of a masked frame and returns the bytes as they are
  on the wire (`WebSocket.WireIsPayload`, `WebSocket.MaskedIsMisread`).
- The chunked scan advances by a full stride even after a short read, which can miss a pattern
  (`ByteSearch.FullReadsAreNeeded`, `ByteSearch.ShortReadMisses`).
- A function that goes on behind the end of a later one is not found there
  (`Patterns.LookupIsComplete`, `Patterns.NestedFunctionHidesOuter`).

## Model

| member | source | states |
|---|---|---|
| Lexing.NextToken | tools/ipc_codegen/ipc_codegen.cpp:129-207 | the next token stands in the text where it is said to stand, is a lexeme of its kind, and has the line and column of its first character |
| Lexing.ColumnIsDistance | tools/ipc_codegen/ipc_codegen.cpp:209 | a column is the distance from the last newline plus one |
| Lexing.LineIsCounted | tools/ipc_codegen/ipc_codegen.cpp:183-186 | a line is one more than the newlines in front of it |
| Lexing.CharactersAre | tools/ipc_codegen/ipc_codegen.cpp:134-175 | the classes of characters, by their codes |
| Lexing.LexemesAre | tools/ipc_codegen/ipc_codegen.cpp:134-175 | the texts that each kind of token can have |
| Lexing.FailsWhere | tools/ipc_codegen/ipc_codegen.cpp:177-206 | the lexer fails exactly at a character that begins no token, or on the last character of a text that ends in a block comment |
| Lexing.CommentEnd | tools/ipc_codegen/ipc_codegen.cpp:190-207 | a block comment ends at its first closing mark, or runs to the end of the text |
| Lexing.Lexer.SkipWs | tools/ipc_codegen/ipc_codegen.cpp:180-207 | the loop skips exactly white space and comments, keeps the counters equal to line and column, and fails where an open comment stops |
| Lexing.Lexer.SkipBlockComment | tools/ipc_codegen/ipc_codegen.cpp:190-204 | newlines inside a comment are counted; an unclosed comment is an error at the last position |
| Lexing.Lexer.TakeToken | tools/ipc_codegen/ipc_codegen.cpp:134-177 | one token, with position taken before it |
| Lexing.Lexer.Next | tools/ipc_codegen/ipc_codegen.cpp:129-177 | the lexer object delivers exactly NextToken and its error position |
| Rendering.LayoutIsRead | tools/ipc_codegen/ipc_codegen.cpp:129-207 | any white space and closed comments between tokens leave kinds and texts of all tokens unchanged |
| Rendering.ReadIsLayout | tools/ipc_codegen/ipc_codegen.cpp:129-207 | a text from which the lexer reads tokens is a layout of those tokens |
| Rendering.ReadIffLayout | tools/ipc_codegen/ipc_codegen.cpp:129-207 | a text is read as a token sequence if and only if it is a layout of it |
| Parsing.Parser.ParseDeclarations | tools/ipc_codegen/ipc_codegen.cpp:222-241 | the top loop follows the grammar on every input, with the same errors, and terminates |
| Parsing.Parser.ParseEnum | tools/ipc_codegen/ipc_codegen.cpp:243-264 | an enumeration, with duplicate members refused |
| Parsing.Parser.ParseStruct | tools/ipc_codegen/ipc_codegen.cpp:266-281 | a struct, with duplicate fields refused |
| Parsing.Parser.ParseProtocol | tools/ipc_codegen/ipc_codegen.cpp:283-337 | a protocol with its request header and commands |
| Parsing.Parser.ParseCommand | tools/ipc_codegen/ipc_codegen.cpp:297-331 | a command needs both sections and none twice |
| Parsing.Parser.ParseFrame | tools/ipc_codegen/ipc_codegen.cpp:339-360 | a frame, with duplicates and a second payload refused |
| Parsing.Parser.ParseInterface | tools/ipc_codegen/ipc_codegen.cpp:362-376 | an interface, with duplicate methods refused |
| Parsing.Parser.ParseMethod | tools/ipc_codegen/ipc_codegen.cpp:378-397 | a method with its parameter list |
| Parsing.Parser.ParseField | tools/ipc_codegen/ipc_codegen.cpp:399-419 | a field with optional direction and length reference, which it has exactly if its type is bytes |
| Parsing.Parser.Expect | tools/ipc_codegen/ipc_codegen.cpp:545-555 | a token of the expected kind is consumed, any other is an error at its position |
| Printing.FileRead | tools/ipc_codegen/ipc_codegen.cpp:222-428 | the tokens of a printed file are parsed back to it, in every layout |
| Printing.ParseUndoesPrint | tools/ipc_codegen/ipc_codegen.cpp:129-428 | every layout of the printed tokens of a writable file parses to that file up to line numbers |
| Printing.ParseUndoesCanonicalText | tools/ipc_codegen/ipc_codegen.cpp:129-428 | in particular the canonical text does |
| Image.ParsedIsWritable | tools/ipc_codegen/ipc_codegen.cpp:222-428 | whatever is parsed has identifiers the lexer accepts, distinct names, and lengths exactly on bytes fields |
| Image.ParserImage | tools/ipc_codegen/ipc_codegen.cpp:222-428 | a file is writable if and only if some text parses to it up to line numbers |
| Language.DeclaredIsParsed | tools/ipc_codegen/ipc_codegen.cpp:222-428 | every sequence of tokens that declares a writable file, with or without the optional semicolons and input markers and in any order of declarations, items and sections, parses to that file up to line numbers |
| Recognition.ParsedIsDeclared | tools/ipc_codegen/ipc_codegen.cpp:222-428 | whatever text parses, its tokens declare the file it parses to |
| Recognition.ParsedIffDeclared | tools/ipc_codegen/ipc_codegen.cpp:222-428 | a text parses to a file if and only if its tokens declare it and names are distinct where they must be, up to line numbers |
| Positions.ErrorsArePlaced | tools/ipc_codegen/ipc_codegen.cpp:222-555 | an error is reported on a line of the text, at a column of that line or, for a whole declaration, at column 1 |
| Positions.LinesAre | tools/ipc_codegen/ipc_codegen.cpp:243-401 | a declaration has the line of the token behind its keyword |
| Positions.MemberLinesAre | tools/ipc_codegen/ipc_codegen.cpp:251-344 | a member of an enumeration and a field of a frame have the line they begin on |
| Validation.AllUnique | tools/ipc_codegen/ipc_codegen.cpp:431-441 | the duplicate check over names decides distinctness |
| Validation.ValidateMethod | tools/ipc_codegen/ipc_codegen.cpp:491-509 | the one walk with a name table and two counters decides that every length names an earlier integral parameter and no direction has two blobs |
| Validation.ValidateFrame | tools/ipc_codegen/ipc_codegen.cpp:511-516 | decides that every field is a payload, a declared struct or integral |
| Validation.ValidateInterfaceCall | tools/ipc_codegen/ipc_codegen.cpp:469-489 | decides the shape of the interface call command |
| Validation.ValidateInterface | tools/ipc_codegen/ipc_codegen.cpp:447-451 | decides that one interface is a member of EIPCInterface and its methods are accepted |
| Validation.ValidateInterfaces | tools/ipc_codegen/ipc_codegen.cpp:443-451 | decides that every interface is a member of EIPCInterface and every method is accepted |
| Validation.ValidateProtocol | tools/ipc_codegen/ipc_codegen.cpp:453-467 | decides the conditions on the one protocol and all its commands |
| Validation.Validate | tools/ipc_codegen/ipc_codegen.cpp:430-467 | the checks in order decide the property of the whole file |
| Validation.NamesMean | tools/ipc_codegen/ipc_codegen.cpp:430-441 | types and interfaces have names of their own |
| Validation.MethodMeans | tools/ipc_codegen/ipc_codegen.cpp:491-509 | accepted are the methods whose lengths are earlier parameters of one of eleven types, at most one blob each way |
| Validation.InterfacesMean | tools/ipc_codegen/ipc_codegen.cpp:443-451 | accepted are the interfaces that the enumeration EIPCInterface names |
| Validation.ProtocolMeans | tools/ipc_codegen/ipc_codegen.cpp:453-489 | accepted is one protocol IPC with known frame types and the one shape of IPCInterfaceCall |
| FrontEnd.Compile | tools/ipc_codegen/ipc_codegen.cpp:1125-1127 | lexer, parser and validator together accept exactly the texts Compiled accepts and return that file |
| FrontEnd.CompileUndoesPrint | tools/ipc_codegen/ipc_codegen.cpp:129-467 | every layout of a writable, accepted file compiles to that file |
| FrontEnd.CompilerImage | tools/ipc_codegen/ipc_codegen.cpp:129-467 | a file is writable and accepted if and only if some text compiles to it |
| FrontEnd.CompiledIffDeclared | tools/ipc_codegen/ipc_codegen.cpp:129-467 | a text compiles to a file if and only if its tokens declare it, and it is writable and accepted |
| FrontEnd.SomethingCompiles | tools/ipc_codegen/ipc_codegen.cpp:129-467 | every accepted interface call command and every accepted method stand in some text that compiles |
| FrontEnd.PayloadIsBody | tools/ipc_codegen/ipc_codegen.cpp:469-489 | in every accepted interface call the bodies are the payloads if and only if no other field has the payload type |
| FrontEnd.PayloadMayStandElsewhere | tools/ipc_codegen/ipc_codegen.cpp:469-489 | a text compiles whose interface call has its payload in front of the body |
| Bytes.FromToLE | tools/ipc_codegen/ipc_codegen.cpp:671-682 | the bytes of a value that memcpy writes are read back as it |
| Bytes.ToFromLE | tools/ipc_codegen/ipc_codegen.cpp:671-682 | and the value read is written as the same bytes |
| Bytes.FromLESplit | tools/ipc_codegen/ipc_codegen.cpp:671-682 | the least significant byte comes first |
| Bytes.MemCopy | tools/ipc_codegen/ipc_codegen.cpp:679-682 | memcpy replaces exactly the target range |
| Layout.CountOfLength | tools/ipc_codegen/ipc_codegen.cpp:684-690 | a stored length counts as itself, a negative one as the largest size_t, a wider one truncated |
| Accessors.IntegralTypes | tools/ipc_codegen/ipc_codegen.cpp:1027-1033 | the eleven integral types, the numbers of each, and the largest size_t |
| Accessors.StoredIs | tools/ipc_codegen/ipc_codegen.cpp:679-682 | a number is stored as its residue in the bytes of its type |
| Layout.OffsetIsSum | tools/ipc_codegen/ipc_codegen.cpp:1043-1056 | an offset is what Sum computes of the sizes of the fields in front |
| Layout.Sum | tools/ipc_codegen/ipc_codegen.cpp:691-699 | the early exit at the first overflow computes the exact sum cut off at the largest size_t |
| Layout.LayoutSound | tools/ipc_codegen/ipc_codegen.cpp:1035-1081 | if the whole fits, the fields lie end to end from 0 to the body size inside the body and getters read exactly those bytes, although offsets saturate and may be read from the body |
| Accessors.BlobIsAsLongAsItsLength | tools/ipc_codegen/ipc_codegen.cpp:1035-1056 | every blob reads as many bytes as the number in the field its length names, or the number handed to the constructor where the view has no such field, and the next field stands that much further |
| Accessors.WrittenIsRead | tools/ipc_codegen/ipc_codegen.cpp:899-1081 | whatever parts of those lengths are laid end to end are a body that fits, and every accessor reads its part behind the parts in front |
| Layout.FieldsDisjoint | tools/ipc_codegen/ipc_codegen.cpp:1043-1056 | no two fields share a byte |
| Layout.FieldsCover | tools/ipc_codegen/ipc_codegen.cpp:1043-1081 | the getters together read the body up to its size |
| Layout.SetThenGet | tools/ipc_codegen/ipc_codegen.cpp:671-719 | a field set inside the body is read back, a blob cut off or zero-padded to its capacity |
| Layout.FittedIs | tools/ipc_codegen/ipc_codegen.cpp:711-719 | a value fitted to a capacity is itself as far as it goes and zero behind |
| Layout.SetLeavesOthers | tools/ipc_codegen/ipc_codegen.cpp:952-974 | a setter changes and moves no other field but those from the blob on whose length it sets |
| Layout.SetOutside | tools/ipc_codegen/ipc_codegen.cpp:679-682 | a setter whose field is not inside the body changes nothing |
| Views.RequestIsGrounded | tools/ipc_codegen/ipc_codegen.cpp:899-919 | in the request view of an accepted method lengths come before their blobs, so the accessors never run in circles |
| Views.ResponseIsGrounded | tools/ipc_codegen/ipc_codegen.cpp:921-950 | the accessors of the response view of an accepted method run in no circles if and only if no length is captured by a return value of type bytes |
| Views.ExternalsAreMissing | tools/ipc_codegen/ipc_codegen.cpp:1006-1016 | the constructor takes exactly the lengths that no field of the view holds, once each |
| Views.ExternalsInOrder | tools/ipc_codegen/ipc_codegen.cpp:1006-1016 | in the order in which they are first referred to |
| Views.LengthComesFromParameter | tools/ipc_codegen/ipc_codegen.cpp:1035-1041 | an output blob finds its length where the parameter it names puts it if and only if the return value does not capture the name |
| Views.InputLengthComesFromParameter | tools/ipc_codegen/ipc_codegen.cpp:1035-1041 | an input blob takes its length from the parameter it names if and only if that is an input; otherwise its getter is empty in every packet |
| Accessors.ResponseBlob | tools/ipc_codegen/ipc_codegen.cpp:1035-1041 | in the response of an accepted method a blob is as long as the earlier parameter it names, an input handed to the constructor or an output in front of it, or as the return value that captures the name |
| Accessors.RequestBlob | tools/ipc_codegen/ipc_codegen.cpp:1035-1041 | in a request a blob is as long as the earlier input it names, and empty if it names an output |
| Responses.CaptureCompiles | tools/ipc_codegen/ipc_codegen.cpp:491-509 | a text compiles in which a return value captures the length of a blob |
| Responses.OutputLengthCompiles | tools/ipc_codegen/ipc_codegen.cpp:491-509 | a text compiles in which an input blob names an output as its length |
| Views.CompiledMethods | tools/ipc_codegen/ipc_codegen.cpp:447-451 | every method of a compiled text is writable and accepted |
| Views.RequestSound | tools/ipc_codegen/ipc_codegen.cpp:899-919 | for every method of a compiled text: if ok() holds, the fields lie end to end between headers and fencepost and cover the body up to its size |
| Views.RequestOkIs | tools/ipc_codegen/ipc_codegen.cpp:907 | ok() of a request view holds if and only if the packet has both headers and the fencepost, names this command and interface, and the body between fits |
| Responses.ResponseSound | tools/ipc_codegen/ipc_codegen.cpp:921-950 | if ok() holds, all fields lie inside if and only if the self-measured blob, if there is one, is no longer than what the body has beyond the minimum |
| Responses.ResponseOkIs | tools/ipc_codegen/ipc_codegen.cpp:937 | ok() of a response view holds if and only if behind the header there are as many bytes as all fields take, without the self-measured blob |
| Responses.FrontInside | tools/ipc_codegen/ipc_codegen.cpp:921-950 | if ok() holds, every field in front of that blob lies inside at its exact offset |
| Responses.OkIsEnough | tools/ipc_codegen/ipc_codegen.cpp:1058-1071 | ok() answers for all fields of a view in every packet if and only if none of them is measured by the body |
| Responses.OkWithFieldOutside | tools/ipc_codegen/ipc_codegen.cpp:921-950 | a text that compiles and an ok response of its method with a field outside the body |
| Views.RequestSetterStaysInside | tools/ipc_codegen/ipc_codegen.cpp:854-873 | a setter through request, call and body changes the body as Set says and neither header nor fencepost |
| Views.ResponseSetterStaysInside | tools/ipc_codegen/ipc_codegen.cpp:875-889 | likewise through a response |
| Views.FencepostSetter | tools/ipc_codegen/ipc_codegen.cpp:865-866 | the fencepost of any call that holds one is read back, and nothing but the last four bytes of the packet changes |
| Views.HeaderSetter | tools/ipc_codegen/ipc_codegen.cpp:765-779 | setting a header field of a request or a response is read back and changes no other header field and nothing behind the header |
| Views.CallHeaderSetter | tools/ipc_codegen/ipc_codegen.cpp:854-873 | likewise for the fields of an interface call inside its request, however short: the body stays, and the fencepost stays if and only if the value does not reach it, is not written, or has the bytes it overwrites |
| Views.RequestRoundTrip | tools/ipc_codegen/ipc_codegen.cpp:854-974 | round trip and non-interference of every field through the nested request views |
| Views.ResponseRoundTrip | tools/ipc_codegen/ipc_codegen.cpp:875-974 | round trip and non-interference of every field through the response views |
| Views.Write | tools/ipc_codegen/ipc_codegen.cpp:679-682 | writing through a span changes the memory as WriteAt changes the span's bytes |
| Views.CopyBytes | tools/ipc_codegen/ipc_codegen.cpp:711-719 | copying and clearing leaves the fitted value, and fails exactly if the capacity is not inside |
| Views.SetRequestField | tools/ipc_codegen/ipc_codegen.cpp:952-974 | the emitted setter on a packet in memory does what SetInRequest says and nothing else |
| Detours.StepKeeps | src/SFPlatform/Linux/Detour.cpp:36-168 | each of the four operations, with any answer of funchook, keeps the invariant |
| Detours.RunKeeps | src/SFPlatform/Linux/Detour.cpp:36-168 | so does every run that keeps to the callers' premises |
| Detours.Safety | src/SFPlatform/Linux/Detour.cpp:36-168 | in every such run from the start no pointer leads into an unmapped trampoline, every entry's handle is live, every uninstalled handle has an entry, and no handle is destroyed twice |
| Transactions.FailedTransactionIsEmpty | src/SFPlatform/Linux/Detour.cpp:36-93 | a transaction opened by Begin that fails to commit or is abandoned leaves exactly the state as if nothing had been attached, also with detaches in between |
| Transactions.FailedTransactionRestores | src/SFPlatform/Linux/Detour.cpp:72-88 | every target is back at its value before its attach and all other entries and pointers are unchanged |
| Transactions.LateTransactionIsEmpty | src/Hook/Hooks_Decryption.cpp:154-170 | the same for a transaction that an Attach opens outside of any |
| Transactions.LateTransactionRestores | src/Hook/Hooks_Decryption.cpp:154-170 | if only attaches follow it, a failed commit and the next Begin restore all pointers and entries |
| Transactions.LateHookWaits | src/Hook/Hooks_Decryption.cpp:154-170 | the handle of such a hook is installed with an entry if and only if what closes the transaction is a commit that succeeds |
| Transactions.LateHookIsNeverInstalled | src/Hook/Hooks_Decryption.cpp:154-170 | in every run whose commits are behind begins, as the macros' are, it is never installed |
| Transactions.CommitKeepsPrepared | src/SFPlatform/Linux/Detour.cpp:62-119 | an open transaction, any attaches, detaches and stores inside it and a successful commit: its handle is installed with its old entries and one for each attach that worked, in order, with the values from just before; exactly their targets lead into it; all else is as if nothing had been attached |
| HookGroups.ModuleInstall | src/Hook/HookMacros.h:22-69 | installing a module, also over a transaction left open: a commit that works leaves one entry for each function found and prepared and leads exactly those pointers into the new handle; one that fails leaves what was found in the pointers and no entry or handle |
| HookGroups.HooksOfIs | src/Hook/HookMacros.h:57-69 | an entry for each function that was found and prepared, and for no other |
| HookGroups.FoundIs | src/Hook/HookMacros.h:57-69 | what was found stands in its pointer, and no other pointer changes |
| HookGroups.InstallThenUninstall | src/Hook/HookMacros.h:22-85 | uninstalling what was installed leaves all others' entries, pointers and handles as they were, the module's hooked pointers null and its handle destroyed |
| HookGroups.FirstDetachTakesAllOff | src/SFPlatform/Linux/Detour.cpp:146-157 | the first detach of a hook restores every sibling's target |
| HookGroups.UnknownDetachChangesNothing | src/SFPlatform/Linux/Detour.cpp:124-136 | a detach that names no entry by both target and detour changes nothing |
| HookGroups.SiblingDetachWritesNothing | src/SFPlatform/Linux/Detour.cpp:131-167 | a later sibling's detach writes through no target |
| HookGroups.GroupUninstall | src/Hook/HookMacros.h:76-85 | uninstalling all hooks of a handle in any order leaves their pointers null, nothing else changed, and the handle destroyed exactly once |
| HookGroups.ModuleUninstall | src/Hook/HookMacros.h:32-85 | the same inside the transaction the macros open, whether or not that transaction works; one of others that was still open is taken back first |
| HookGroups.AbandonedIs | src/SFPlatform/Linux/Detour.cpp:36-60 | taking back puts the entries of the open handle, and nothing else, off the list and back at their originals |
| HookGroups.OwnModuleStays | src/Hook/HookMacros.h:32-85 | a module whose own transaction is still open: its begin takes the hooks back, nothing is detached, and the pointers stay at their originals |
| HookGroups.UninstallNulls | src/Hook/HookMacros.h:32-85 | uninstalling a hooked pointer leaves it null if and only if its entry is not of the transaction that was open before |
| HookGroups.LateHookStays | src/Hook/Hooks_Decryption.cpp:154-184 | a run from the unused ledger: a late hook whose module is uninstalled keeps its original in the pointer |
| HookGroups.UninstallLeavesHandle | src/Hook/HookMacros.h:32-38 | the handle of that transaction stays live in every later run, whatever hooks the module has and whatever was open |
| HookGroups.LeakHappens | src/Hook/HookMacros.h:22-85 | a run from the unused ledger: one hook installed and uninstalled leaves a handle |
| HookGroups.EmptyCommitIsNeverFreed | src/SFPlatform/Linux/Detour.cpp:62-93 | a handle without entries that is no longer open is never destroyed |
| HookGroups.HookingTwiceDangles | src/SFPlatform/Linux/Detour.cpp:95-168 | without the premise that a target is hooked once: a run that leaves a pointer into an unmapped trampoline |
| HookGroups.DetachingOpenHookUsesDeadHandle | src/SFPlatform/Linux/Detour.cpp:120-168 | without the premise about the open handle: a run that installs a destroyed handle |
| Ledger.Detour.RestoreAndErase | src/SFPlatform/Linux/Detour.cpp:42-49 | the erase-while-iterating loop restores and removes exactly the entries of the handle, in order |
| Ledger.Detour.BeginTransaction | src/SFPlatform/Linux/Detour.cpp:36-60 | the program's state changes as the state machine says |
| Ledger.Detour.CommitTransaction | src/SFPlatform/Linux/Detour.cpp:62-93 | likewise, and it reports success exactly if a transaction was open and was installed |
| Ledger.Detour.Attach | src/SFPlatform/Linux/Detour.cpp:95-119 | likewise, and it reports success exactly if an entry was added |
| Ledger.Detour.Detach | src/SFPlatform/Linux/Detour.cpp:120-168 | likewise, and it reports success exactly if an entry matched |
| Ledger.HookModule.BeginHooks | src/Hook/HookMacros.h:22-38 | a transaction is begun and the flag says whether that worked |
| Ledger.HookModule.EndHooks | src/Hook/HookMacros.h:22-38 | the transaction is committed; the flag stays up only if it was up, a transaction was open and it was installed |
| Ledger.HookModule.InstallHook | src/Hook/HookMacros.h:57-69 | a found function is stored and attached; the flag stays up exactly if it was up and that worked |
| Ledger.HookModule.UninstallHook | src/Hook/HookMacros.h:76-85 | a hooked pointer is detached and then nulled; the flag falls exactly if the detach fails |
| Ledger.HookModule.Install | src/Hook/HookMacros.h:22-69 | begin, one install per hook and end change the program's state as InstallModule says |
| Ledger.HookModule.Uninstall | src/Hook/HookMacros.h:32-85 | begin, one uninstall per hook and end change the program's state as UninstallModule says |
| ByteSearch.LeftmostIsUnique | src/SFPlatform/Linux/ByteSearch.cpp:29-51 | the leftmost occurrence is unique, so the search is determined |
| ByteSearch.SkipIsSafe | src/SFPlatform/Linux/ByteSearch.cpp:47 | no skip from the table jumps over a match |
| ByteSearch.FixedPatternScanner.constructor | src/SFPlatform/Linux/ByteSearch.cpp:21-30 | the filled table holds the distance of each byte's last place before the end |
| ByteSearch.FixedPatternScanner.Find | src/SFPlatform/Linux/ByteSearch.cpp:32-51 | the scan returns the first place that begins with the pattern for every pattern and text, or none if there is none |
| ByteSearch.FindInFileRange | src/SFPlatform/Linux/ByteSearch.cpp:78-129 | what is found is the pattern, at or behind offset and wholly before offset + size and the end of the file; it is the leftmost such place, and nothing found means none, if every window that can hold the pattern is read in full, for every chunk size |
| ByteSearch.FullReadsAreNeeded | src/SFPlatform/Linux/ByteSearch.cpp:113-125 | the scan is leftmost for every file of a size and every pattern of a length if and only if every window that can hold such a pattern is read in full |
| ByteSearch.ShortReadMisses | src/SFPlatform/Linux/ByteSearch.cpp:113-125 | otherwise a file and a pattern in it that is missed |
| ByteSearch.OneWindowEach | src/SFPlatform/Linux/ByteSearch.cpp:107-124 | every start position falls into exactly one stride, whose window holds the whole pattern |
| PacketFrames.UnpackUndoesPack | src/Hook/Hooks_NetPacket.cpp:63-87 | unpacking an assembled frame gives its type and lengths |
| PacketFrames.UnpackIs | src/Hook/Hooks_NetPacket.cpp:63-87 | exactly which bytes unpack, and to what type and lengths |
| PacketFrames.CarriesIsFrame | src/Hook/Hooks_NetPacket.cpp:63-109 | a packet carries a type, header and body if and only if it is their frame |
| PacketFrames.FrameIffUnpacks | src/Hook/Hooks_NetPacket.cpp:63-87 | a packet is a frame if and only if it unpacks and its header length does not wrap |
| PacketFrames.RingKeeps | src/Hook/Hooks_NetPacket.cpp:90-129 | a frame put into the next slot leaves the last eight frames intact |
| PacketFrames.PacketPool.Put | src/Hook/Hooks_NetPacket.cpp:90-129 | a frame goes into a slot exactly if it fits; over any run the last eight are intact |
| PacketFrames.MoveToSlot | src/Hook/Hooks_NetPacket.cpp:90-109 | the packet points at the new frame, or nothing changes |
| PacketFrames.RewriteReceived | src/Hook/Hooks_NetPacket.cpp:1533-1552 | for each combination of new header, new body and shrunk body, what the packet carries afterwards: the new header if there is one, the shrunk body or else the new one if there is one, and what it does if that makes more than 66568 bytes |
| PacketFrames.RewrittenUnpacks | src/Hook/Hooks_NetPacket.cpp:1533-1552 | the result unpacks to the original type with the new header if one was given, and with the shrunk body, or else the new one, or else the old; where it does not fit a slot, to the old header and what then stands for the body |
| PacketFrames.UnfitRewrite | src/Hook/Hooks_NetPacket.cpp:1538-1542 | if it does not fit, exactly when the packet is left as it was |
| PacketFrames.UnfitHappens | src/Hook/Hooks_NetPacket.cpp:1538-1542 | a rewrite within the limits of the buffers that leaves neither the old packet nor the one that was meant |
| WireReaders.ReadVarint | src/Hook/Hooks_NetPacket.cpp:1052-1063 | the loop computes the varint modulo 2 to the 64th, or fails at the end or after ten bytes |
| WireReaders.VarintIs | src/Hook/Hooks_NetPacket.cpp:1052-1063 | of any bytes: the groups up to the first byte with its highest bit clear, if that is among the first ten, modulo 2 to the 64th |
| WireReaders.ReadVarintInverts | src/Hook/Hooks_NetPacket.cpp:1052-1063 | every 64-bit value is read back from its encoding, whatever stands around it |
| WireReaders.OneTurn | src/Hook/Hooks_NetPacket.cpp:1067-1087 | the body of the loop, with its sums in 32 and 64 bits |
| WireReaders.FindVarintField | src/Hook/Hooks_NetPacket.cpp:1065-1090 | the loop for any number of turns; it reads nothing outside the buffer |
| WireReaders.FinderInMachineArithmetic | src/Hook/Hooks_NetPacket.cpp:1065-1090 | for every input: the sums at all fields met fit their width if and only if no turn leads back into what it read; then the loop ends with the plain answer |
| WireReaders.EndsUnlessBack | src/Hook/Hooks_NetPacket.cpp:1065-1090 | the loop meets no position twice or never ends, and if it ends it does within one turn more than there are positions |
| WireReaders.LoopsForEver | src/Hook/Hooks_NetPacket.cpp:1081-1083 | a body of eleven bytes on which it never ends |
| WireReaders.LoopIsCorrect | src/Hook/Hooks_NetPacket.cpp:1065-1090 | on any serialised list of fields the loop itself ends with the first varint field with the number, or none |
| WireReaders.FinderIsCorrect | src/Hook/Hooks_NetPacket.cpp:1065-1090 | the finder with unbounded sums is correct on any serialised list of fields |
| WireReaders.MalformedEnds | src/Hook/Hooks_NetPacket.cpp:1067-1087 | tags and numbers that do not read, wire types other than 0, 1, 2 and 5 and payloads that are cut off end the search with nothing |
| WireReaders.HighBitsAreIgnored | src/Hook/Hooks_NetPacket.cpp:1070 | of a field number the lower 32 bits decide |
| WireReaders.ExtractStringKVs | src/Hook/Hooks_NetPacket.cpp:711-742 | the iterative walker on arbitrary bytes, which never reads outside and terminates |
| WireReaders.WalkUndoesSerialization | src/Hook/Hooks_NetPacket.cpp:711-742 | on any written forest the walker collects exactly its string pairs in order |
| WireReaders.WalkKeepsWhatItHas | src/Hook/Hooks_NetPacket.cpp:711-742 | wherever the bytes end or make no sense, also inside open structs, the walker has exactly the pairs in front of that place |
| AnswerQueue.StepKeeps | src/Hook/Hooks_NetPacket.cpp:1107-1202 | every atomic step of either thread keeps the invariant |
| AnswerQueue.OutgoingIs | src/Hook/Hooks_NetPacket.cpp:1497-1505 | what goes out for a frame whose body is replaced, byte for byte |
| AnswerQueue.LogGrows | src/Hook/Hooks_NetPacket.cpp:1490-1513 | the wire and the answers of a log grow with each passed and each answered frame |
| AnswerQueue.AnswerOrForward | src/Hook/Hooks_NetPacket.cpp:1107-1513 | over every interleaving each frame has one fate: answered with its own job's response or dropped, sent with its type and header and the new body where that fits 66568 bytes, or sent unchanged; none is dropped if and only if none was to be answered while 64 waited; delivered and pending are the answers in order; the carrier has its own data whenever it is not borrowed |
| AnswerQueue.EveryFrameOnce | src/Hook/Hooks_NetPacket.cpp:1490-1513 | no submitted frame is lost or dealt with twice |
| AnswerQueue.DroppedExactlyWhenFull | src/Hook/Hooks_NetPacket.cpp:1168-1172 | over every run as many requests are dropped as are to be answered while 64 wait |
| AnswerQueue.FloodDrops | src/Hook/Hooks_NetPacket.cpp:1168-1172 | a run from the start that drops every request from the 65th on |
| AnswerQueue.SeenInOrder | src/Hook/Hooks_NetPacket.cpp:1516-1532 | after draining, the receive hook goes on with every packet that arrived, once, in order and with its own data |
| AnswerQueue.SendingIsRun | src/Hook/Hooks_NetPacket.cpp:1490-1513 | the effect of the send hook on a frame is that of the three steps of the send thread |
| AnswerQueue.WireAfterIs | src/Hook/Hooks_NetPacket.cpp:1490-1513 | a frame adds nothing to the wire if answered, and one frame, new or unchanged, otherwise |
| AnswerQueue.DrainIsRun | src/Hook/Hooks_NetPacket.cpp:1181-1202 | the drain loop, with any frames sent between its turns, is a run of the two threads |
| AnswerQueue.DrainedInOrder | src/Hook/Hooks_NetPacket.cpp:1181-1202 | with never more than 64 waiting it delivers what was pending and then the answers given meanwhile, in order |
| AnswerQueue.Cloud.SendFrame | src/Hook/Hooks_NetPacket.cpp:1490-1513 | the send hook answers and suppresses, or sends exactly one frame; one whose body is replaced has its old type and header and the new body if that fits |
| AnswerQueue.Cloud.ReplaceSendPacket | src/Hook/Hooks_NetPacket.cpp:112-129 | the modified frame, if it fits a slot |
| AnswerQueue.Cloud.DeliverOne | src/Hook/Hooks_NetPacket.cpp:1193-1198 | the borrowed carrier gets its pointer and size back |
| AnswerQueue.Cloud.Drain | src/Hook/Hooks_NetPacket.cpp:1181-1202 | the queue ends empty, what is delivered is Drained whatever the other thread sends between two turns, and the carrier is restored |
| VectorEdit.TrueMeansRoom | src/Hook/EnsureRoom.h:28-39 | true means room, whatever Grow does, and Grow is called at most once per attempt |
| VectorEdit.AskedForWhatIsMissing | src/Hook/EnsureRoom.h:30-36 | Grow is asked for what is missing, as an int: from 2^31 on that is a negative number |
| VectorEdit.OnlyAttemptsRunOut | src/Hook/EnsureRoom.h:28-39 | with a Grow that progresses, failing means that all attempts were used and each brought something |
| VectorEdit.ThirtyTwoSuffice | src/Hook/EnsureRoom.h:28-39 | with a Grow that doubles, 32 attempts make room for every need up to 2^31 |
| VectorEdit.ThirtyTwoIsTight | src/Hook/EnsureRoom.h:28-39 | the slowest doubling from empty makes room exactly for those needs |
| VectorEdit.Vector.FastRemove | src/Steam/Structs.h:29-35 | the last entry takes the place of the removed one, and an index out of use changes nothing |
| VectorEdit.RemovedIs | src/Steam/Structs.h:29-35 | all other entries stay where they are |
| VectorEdit.Vector.FindAndFastRemove | src/Steam/Structs.h:37-45 | the first occurrence is removed, found exactly if there is one |
| VectorEdit.WithoutIsDifference | src/Steam/Structs.h:29-45 | as a multiset, removals take one occurrence each of what is found and nothing else |
| VectorEdit.EnsureRoom | src/Hook/EnsureRoom.h:28-39 | the loop on a vector has the verdict and leaves the capacity Asking computes, and keeps the entries |
| VectorEdit.Edit | src/Hook/Hooks_Package.cpp:275-338 | removals, then all additions or none, never outside the allocation; exactly when the additions enter, when the late guard stops them, and when the library is refreshed |
| VectorEdit.EditBalance | src/Hook/Hooks_Package.cpp:275-326 | the new multiset is the old one minus the removals found plus the additions |
| VectorEdit.DoublingEditFits | src/Hook/Hooks_Package.cpp:294-315 | with a Grow that doubles, an edit of up to 2^31 entries goes through and the late guard cannot fire |
| Patterns.MaskedInstructions | tools/gen_linux_patterns.py:250-257 | a relative call, an add to ebx and a lea with displacement look the same under the mask for all immediates |
| Patterns.OthersAreKept | tools/gen_linux_patterns.py:250-257 | every other operation and operand, and what is cut off, is kept |
| Patterns.MaskedAt | tools/gen_linux_patterns.py:250-257 | the mask keeps or zeroes each byte as the scan says |
| Patterns.MaskIsIdempotent | tools/gen_linux_patterns.py:250-257 | masking preserves the division of the code and masking twice is masking once |
| Patterns.MaskIsCanonical | tools/gen_linux_patterns.py:250-257 | two bodies have equal masks if and only if they are divided alike and agree where bytes are kept |
| Patterns.MaskPic | tools/gen_linux_patterns.py:250-257 | blanking matches in a copy computes the mask |
| Patterns.SignedInstructions | tools/gen_linux_patterns.py:228-237 | a call, an add to eax and an add to a register get wildcards for their immediate |
| Patterns.OthersAreExact | tools/gen_linux_patterns.py:228-237 | every other byte is looked for as it is |
| Patterns.SignatureMatches | tools/gen_linux_patterns.py:226-238 | a signature has one token per byte and matches its origin |
| Patterns.MatchIsSameSignature | tools/gen_linux_patterns.py:226-238 | it matches exactly the code with the same signature |
| Patterns.Sign | tools/gen_linux_patterns.py:226-238 | the token loop computes the signature |
| Patterns.MakeSig | tools/gen_linux_patterns.py:217-238 | nothing outside all sections, otherwise the signature of the bytes there, as far as the file goes, read through the first section that holds the address |
| Patterns.FdeForIsAround | tools/gen_linux_patterns.py:402-404 | what is found is in the table, begins at or before the address and ends behind it |
| Patterns.LookupIsComplete | tools/gen_linux_patterns.py:402-404 | every address inside some function is found if and only if no function goes on behind the end of a later one before the next starts |
| Patterns.NestedFunctionHidesOuter | tools/gen_linux_patterns.py:402-404 | a table in which an outer function is missed |
| WebSocket.DecodeUndoesEncode | tools/ui_probe.py:100-109 | decoding undoes framing in all three length forms, masked or not, and leaves what follows |
| WebSocket.EncodeUndoesDecode | tools/ui_probe.py:100-109 | what decodes is a frame: framing it again gives the bytes read |
| WebSocket.PlainFrame | tools/ui_probe.py:100-109 | frames without a key, byte for byte, in all three length forms |
| WebSocket.MaskedFrame | tools/ui_probe.py:100-109 | frames with a key, byte for byte |
| WebSocket.FromBESplit | tools/ui_probe.py:103-106 | lengths have their most significant byte first |
| WebSocket.WireIsPayload | tools/ui_probe.py:107-109 | dropping the key is right exactly for unmasked frames and keys that are zero where used |
| WebSocket.MaskedIsMisread | tools/ui_probe.py:107-109 | a masked frame of one byte that is read as another |
| WebSocket.QuestionIsUnderstood | tools/ui_probe.py:89-98 | the client's frame decodes to a masked text frame with its question, and there is one exactly for payloads below 65536 bytes |
| WebSocket.XorBit | tools/ui_probe.py:96-98 | masking sets a bit exactly if it is set in one of data and key |
| WebSocket.PassedAreSkipped | tools/ui_probe.py:100-114 | frames whose opcode is neither 1 nor 2, other messages and other answers change nothing about the reply, in whatever form their lengths are |
| WebSocket.FirstFrameDecides | tools/ui_probe.py:100-114 | the first text or binary frame with an answer to the question is the reply, one that cannot be read garbles it, what follows stays unread, and without one the connection counts as closed |
| WebSocket.TextFrameIsReply | tools/ui_probe.py:100-114 | one whole text frame with an answer to the question is the reply |
| WebSocket.ChunksDoNotMatter | tools/ui_probe.py:71-80 | however a stream is cut into chunks it is the same stream, up to the empty chunk that ends it |
| WebSocket.BlankLineStays | tools/ui_probe.py:60-69 | bytes that arrive later do not move the end of the handshake |
| WebSocket.BlankLineIsFirst | tools/ui_probe.py:60-69 | the end of the handshake is the first blank line |
| WebSocket.FirstLineIs | tools/ui_probe.py:66 | the first line ends in front of the first line break |
| WebSocket.GrantsIf101 | tools/ui_probe.py:66 | the upgrade is granted exactly if 101 stands in that line |
| WebSocket.Debugger.ReadResponse | tools/ui_probe.py:60-69 | the upgrade is granted exactly by the first line; what came with the response beyond its end is kept |
| WebSocket.Debugger.Read | tools/ui_probe.py:71-80 | the next n bytes of the stream, however it arrives, and no other byte is lost |
| WebSocket.Debugger.ReadFrame | tools/ui_probe.py:100-109 | the frame at the front of the stream, by the bytes still to come alone |
| WebSocket.Debugger.Evaluate | tools/ui_probe.py:82-114 | the reply depends only on the stream, and what follows it stays unread for the next question |

## Left out

- FrontEnd.Compile: where and with which words a failed validation is reported; only that it fails. Lexer and parser errors carry line and column.
- Validation.Validate: the checks are split into one method per loop, so which of several faults is reported first is not modelled.
- Layout.ByteCount: a bool counts as 1 if its byte is not zero; reading another value than 0 or 1 into a C++ bool is undefined.
- Views.RequestSound: header sizes are parameters, because the header structs come from the description; fixed-size protocol frames and debug strings are not modelled.
- PacketFrames.RewriteReceived: requires that the sizes of the new frame do not wrap 32 bits (buffers in the source are far smaller), and that the packet does not lie in the ring itself, where shrinking it in place would overwrite a pooled frame.
- AnswerQueue.Cloud.SendFrame: a request is a frame whose header length does not wrap 32 bits; with one that does, the source reads a header far outside the frame.
- Responses.OkIsEnough: requires that lengths have integral types, as the emitted static assertion does, and a minimum that some packet below the largest size_t can meet.
- AnswerQueue.AnswerOrForward: handlers are opaque (a response packet, a new body or nothing); the legacy key queue and the presence injection, which borrow the carrier the same way, are not modelled.
- Ledger.Detour.Detach: the mutex is one atomic step per operation; null targets in the ledger cannot occur and are not modelled.
- VectorEdit.Edit: the late size guard is computed in 64 bits; on a 32-bit target the sizes of two vectors in one address space cannot overflow it. Cancelling queued removals and the refresh itself are not modelled.
- ByteSearch.FindInFileRange: opening the file and errors of stat count as an empty file; 64-bit offsets are unbounded.
- Patterns.MakeSig: tokens, not their text; the regular expression engine is the left-to-right scan it stands for.
- WebSocket.Debugger.Evaluate: parsing a message as JSON is a parameter; fragments of a fragmented message are separate frames, as in the source.
- Characters stand for bytes in descriptions; classification is that of the "C" locale.
- The text of the emitted C++: includes, enumerations, name tables, debug strings.
- funchook's and Steam's own code: abstract, with failure left open.
- Licences, tickets, keys, presence and stats substitution: their meaning lies in private structures of the client.
- Files, sockets, threads, logging, the user interface scripts, and library wrappers.
