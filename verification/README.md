# go2kdl in Dafny

This project models the reader and the writers of go2kdl, a Go library for KDL 2.0.0, and proves properties of them. Verify
everything with `dafny verify dfyconfig.toml`.

The reader turns bytes into tokens (`Lexer`, `Scanning`), tokens into a tree (`Machine`, `ParserContext`), and token bytes into
values (`Strings`, `Multiline`, `RawStrings`, `Values`). The formatting writer prints a tree anew; the format-preserving writer
prefers the bytes a node was read from (`Generator`). Two smaller parts are modelled beside them: reference resolution in schemas
(`Schema`) and the ordered property map (`Properties`).

## How the model is built

* **Parser.** `Machine` is the parser as a pushdown automaton over values: one stack of open blocks instead of five parallel ones,
  one function per parser state. `ParserContext.ParseContext` is the parser as it is written: the fields of the Go struct, updated
  in place by one handler per state, with a transition table that is looked up by token ID and then by class. Every handler is proved
  to refine the automaton, so the laws about the automaton (`Effects`, `Laws`, `Acceptance`, `Reading`,
  `Completeness`, `Slashdash`, `Segments`) hold of the running parser, and no
  stack-empty error can occur. `Grammar` is a grammar of documents with a meaning of its own; `Reading` proves that the parser
  computes it. Node pointers are indices into a store; `ParserMoves.DocumentShown` says that following them from the
  document gives the automaton's tree.
* **Scanner.** `Lexer` says what is read at an offset, as recursive functions. `Scanning.Scanner` is the scanner as it runs, with a
  cursor, a two-rune cache, a mark stack and one loop per token kind, proved to compute those functions. `Lexemes`,
  `Delimiters`, `Numbers` and `Comments` say, kind by kind, exactly which text is which token, and `Lossless` that none is lost.
  `Refill.Stream` is the buffer underneath when input is streamed.
* **Codecs.** `Strings`, `Multiline` and `RawStrings` hold the codecs as functions and their laws; `StringCodecs` and
  `MultilineCodecs` hold the index loops with their copy windows and fast paths, proved equal to the functions. `TwoPasses` compares
  the two escape decoders. `Escapes` says what every escape stands for, `EscapedText`, `MultilineText` and `MultilineRows`
  what strings of each kind mean that hold any of them, and `StringValues` joins them to the scanner.
* **Writers.** `Generator` defines output by pieces; the class `Writer` appends them in loops. `Preserving`, `Editing`, `Mutations`
  and `Sessions` are about the format-preserving writer, `RoundTrip`, `Spellings`, `Printing`, `Refusal`, `Exactness`, `Relexing`,
  `Annotations`, `Reformatting`, `LostAnnotation` and `Layout` about the formatting one.
* **Appending.** `Appending` and `Joining` say when a node appended to a parsed document is read back, and `UnfinishedLines` what
  becomes of it otherwise. They rest on three facts of their own: the scanner looks one rune ahead (`Locality`, `Rescanning`), the
  parser does not look at the text (`Sourceless`), and behind the last node of the top level nothing is remembered but a slashdash (`TopLevel`).
* **Whole pipeline.** `Kdl` joins scanner, parser and generator; `Reformatting.ReadsBackExactly` joins them the other way
  round, and `Reformatting.ParsedTreesReadBackOrAreRefused` there and back.
* **Schemas.** `Schema.Resolver` merges definitions in a store; `References` says what refs name, `Chains` which schemas are accepted.

## Where the code differs from what it promises

Each of these is a lemma; none is a model artefact.

* The scanner silently drops an input's last bytes when they are a lone `/`, a lone `0`, or a number that ends in its exponent letter
  (`Lossless.EofExactly`, `Lossless.StrandedInputs`).
* Names such as `true`, `-1` or `.5`, and names with unreadable bytes, are printed bare but are not read back
  (`Spellings.BareNameRoundTrip`). Texts with U+0085, U+2028, U+2029 or U+FFFD are printed quoted but are not read back
  (`Spellings.QuotedFormScans`); texts with DEL or other controls are quoted into something that cannot be unquoted
  (`Strings.QuoteRoundTrip`). Documents with such names or texts are printed without an error into something that is refused
  (`Reformatting.ParsedTreesReadBackOrAreRefused`).
* The formatting writer loses the annotation of every hexadecimal value, argument or property, without an error: `n (u8)0x10` is
  reformatted to `n 0x10` (`Generator.Writer.FormattedString`, `LostAnnotation.AnnotationIsLost`). Of what is modelled, this is the only
  way in which reformatting what was parsed gives other trees (`Reformatting.ParsedTreesReadBackOrAreRefused`).
* The two string decoders disagree when a whitespace escape stands between the letter u and the closing brace and changes the code
  point, or when empty braces end the joined text (`TwoPasses.TwoPassesAgreeExactly`, `TwoPasses.EscapeMeansTheSame`; examples in
  `TwoPasses.EmptyBracesDiffer`, `TwoPasses.SpaceInBracesDiffers`, `TwoPasses.SpaceBeforeBraceDiffers`).
* The documentation's example of format-preserving editing sets a value through the value's setter; that does not mark the node, and
  the old bytes are written, unless an edit through a node has already touched the same top-level node
  (`Sessions.ValueEditIsWrittenIff`, `Sessions.LaterValueEditIsWrittenIff`). Mutations through the node are seen
  (`Editing.EditedOutput`, `Sessions.SessionOutput`).
* A node appended to a document whose last node was ended by the end of the input, not by a line break or a semicolon, is not read
  back (`Joining.AppendedJoins`; it is proved of every node that has no semicolon and no line break of its own): it becomes part of a
  name or an argument, or is lost in a comment (`UnfinishedLines.BehindName`, `UnfinishedLines.BehindBlank`,
  `UnfinishedLines.BehindComment`). It loses an entry if the last node left a slashdash over (`Joining.LeftoverIsNotReadBack`), and
  makes the document unreadable if it is put in front of a byte order mark (`Joining.MarkIsRefused`). For every source that is in none
  of these three cases, and for no other, appending is safe (`Joining.AppendingIsSafeExactly`).
* An annotation whose value is missing is refused at the end of the line, but a comment in front of the end of the line makes it the
  annotation of the next node (`TopLevel.AnnotationMovesOn`).
* A slashdashed node at the top level is not written back (`Preserving.PreservedIffNothingSlashdashed`). Input is accepted with blocks
  open when braces are unmatched, and with a node open when it ends in a slashdash and a comment; these are the only ways
  (`Completeness.CompleteExactly`).
* A block on one line is refused when whitespace stands between its closing brace and a node that ends in its name or in a property:
  `a {b}` and `a {b 1 }` are read, `a {b }` and `a {b c=1 }` are not (`Acceptance.ShutBehindBlank`).
* A value behind a child block, which KDL 2.0.0 does not allow, is refused only if the block stands behind a name or a property. In
  `n a {} b` it is read, and with it a null that nobody wrote: the arguments are `a`, a null and `b`
  (`BehindBlocks.ValueBehindBlock`, `BehindBlocks.NullIsReadBehindBlock`).
* A slashdash directly behind an entry with whitespace behind it drops nothing (`Slashdash.SlashdashDropsExactly`,
  `Slashdash.SlashdashDropsProperty`), and one with nothing but the end of the line behind it drops an entry of the next node (`Slashdash.TerminatorLeavesSlashdash`,
  `Slashdash.LeftoverTakesEntry`).
* A refill that gets no byte moves marks and bytes but not the cursor (`Refill.StaleMarks`, `Refill.StaleInput`), and so does one whose
  reader fails half way; the bytes it delivered are lost (`Refill.Stream.Refill`).
* A malformed byte in a string is written as `\ufffd` without braces, which cannot be read back, and is read as those six characters
  by one decoder and as U+FFFD by the other, which also skips the byte behind it, even if that starts an escape
  (`EscapedText.MalformedIsReplaced`).
* In a schema ref by id, whatever stands in the place of the closing bracket is cut off unseen (`References.RefById`).
* The path of schema refs is a set of texts shared by all kinds of definitions, so a schema without any circle is refused when a ref
  text repeats on a way down (`Chains.ResolvableExactly`, `Chains.HarmlessSchemaIsRefused`).
* The comment grammar as written also derives comments in which parts of a delimiter count as plain characters; the scanner accepts
  only those in which every delimiter counts as one (`Comments.NotAllDerivedAreAccepted`, `Comments.CounterIsShortestUnlessNested`).

## Model

| member | source | states |
|---|---|---|
| `Effects.StepEffect` | internal/parser/transitions.go:18-789 | Every token that is accepted, in any state, does exactly one of six things to the open nodes and blocks: nothing, start a node, end a node, open a block, close a block, or end a node and close the block around it; all else it does is local to the current node. |
| `Laws.StepShape` | internal/parser/context.go:222-246 | One step of the stack discipline: if the open blocks, their saved states and the child-block flags have the legal shape, they still do after any accepted token. |
| `Laws.RunShape` | internal/parser/context.go:222-246 | Stack discipline over whole runs: every state reached by an error-free run has the legal shape; in particular a node that starts has seen no child block, and inside a slashdashed block every open node is slashdashed. |
| `Laws.SlashdashLeavesNoTrace` | internal/parser/transitions.go:131-186 | While the current position is inside a slashdashed node or block, no accepted token changes the tree that the document shows. |
| `Laws.HiddenRunLeavesNoTrace` | internal/parser/transitions.go:131-186 | The same over any run that stays inside: the document after it is the document before it. |
| `Laws.OpeningStep` | internal/parser/transitions.go:239-248 | A brace that opens a block records the owner, its state, the segments and the end offset of the level, and starts the inner level right behind the brace. |
| `Laws.ClosingStep` | internal/parser/transitions.go:160-186 | A brace that closes a block gives back what the opening one recorded. |
| `Laws.RunFrozen` | internal/parser/context.go:207-220 | What was recorded for the outer blocks never changes while a run stays inside them. |
| `Laws.MatchedBlock` | internal/parser/context.go:207-246 | From an opening brace to the matching closing one, whatever lies between and however deep: the owner is back in its state with the same segment start, lastNodeEnd is what it was, and the child-block flag is set. |
| `Laws.EsclineIsNothing` | internal/parser/parser.go:50-66 | In stateNodeParams, stateArgPropPostWS and statePropertyValue a backslash, then any whitespace and comments, then a newline leave the whole parse context as it was. |
| `Laws.EsclineBehindEntry` | internal/parser/transitions.go:453-586 | Directly behind an entry, an escaped line break with any whitespace and comments in it is whitespace. |
| `Laws.EsclineBehindName` | internal/parser/transitions.go:222-274 | Directly behind a name it is nothing, so that an entry still needs whitespace, unless there is whitespace in it; a comment directly behind the backslash is refused there. |
| `Laws.EsclineBetweenNodes` | internal/parser/transitions.go:19-186 | Between nodes it is nothing, also between an annotation and its node, where a line break is refused. |
| `Acceptance.AcceptedExactly` | internal/parser/transitions.go:18-789 | Exactly which token is accepted where, kind by kind over all states: a token is accepted if and only if it fits, and what it shows to be a name, an argument, or key and value of a property can be decoded; nothing slashdashed is decoded. Among other things, no key is annotated, two values never touch within a node, and no annotation is left in front of a terminator on its line. |
| `Acceptance.FailsExactly` | internal/parser/parser.go:103-129 | A run fails exactly if it comes to a token that is not accepted where it stands. |
| `Acceptance.ShutBehindBlank` | internal/parser/transitions.go:275-393 | A brace that closes a block is accepted behind whitespace only if the last entry of the node is an argument; behind a name or a property it is refused, though directly behind either it is accepted. |
| `BehindBlocks.ValueBehindBlock` | internal/parser/transitions.go:315-363 | A value behind a child block is refused exactly if the block stands behind a name or a property. Behind an argument it is read as a further argument; and unless it touches the block, which touches the argument, a null that is nowhere in the text is read in front of it. |
| `BehindBlocks.NullIsReadBehindBlock` | internal/parser/transitions.go:615-628 | For example, of a node n with an argument a, a block and a value b, three arguments are read, the second of which is a null. |
| `Reading.SuffixedIsRead` | internal/parser/transitions.go:327-344 | A number with a suffix is an argument at once, without the annotation in front of it, unless a slashdash takes it. |
| `Reading.ItemsAreRead` | internal/parser/transitions.go:222-789 | Entries, each behind whitespace, comments and escaped line breaks, annotated or not, slashdashed or not, leave the node with exactly the arguments and properties that are not slashdashed, in their order. |
| `Reading.BlocksAreRead` | internal/parser/transitions.go:239-265 | Child blocks, each slashdashed or not, leave the node with exactly the nodes of those that are not, at any depth. |
| `Reading.LinesAreRead` | internal/parser/transitions.go:19-186 | Lines, each ended by a line break, a semicolon, or a comment, add exactly the nodes that are not slashdashed to the level they stand in. |
| `Reading.DocumentIsRead` | internal/parser/parser.go:103-129 | Every document of the grammar, with whitespace, comments, escaped line breaks, annotations and slashdashes wherever the grammar has them, and ended by the end of the input or not, is accepted from any source with nothing left open, and shows exactly the nodes that it means. |
| `Segments.StepTiled` | internal/parser/context.go:158-197 | One step keeps the segments in order: at every open level finished segments are adjacent, nodes that are not slashdashed carry exactly their own segment, and levels nest strictly. |
| `Segments.RunTiled` | internal/parser/context.go:158-197 | The same over whole runs of tokens that tile the source. |
| `Segments.ParseTiled` | internal/parser/context.go:158-197 | The same for a whole parse with EOF: the final state is tiled up to the end of the source. |
| `Segments.ChainCovers` | internal/parser/context.go:158-184 | Adjacent segments from a to b, joined in order, are exactly the source bytes from a to b. |
| `ParserContext.ParseContext.PushState` | internal/parser/context.go:222-230 | Pushes state and flag in parallel; the flag is cleared only for stateChildren. |
| `ParserContext.ParseContext.PopState` | internal/parser/context.go:235-246 | Pops both; fails exactly when the state stack is empty. |
| `ParserContext.ParseContext.AddOrCreateNode` | internal/parser/context.go:106-128 | A new node at the end of the store, linked to its parent or the document unless it is slashdashed; start offset and ignored flag pushed in parallel. |
| `ParserContext.ParseContext.PopNode` | internal/parser/context.go:131-145 | Pops the node and its two parallel stacks; fails exactly when the node stack is empty. |
| `ParserContext.ParseContext.PopNodeAndStateAt` | internal/parser/context.go:158-184 | Pops node and state and gives a node that is not slashdashed the source slice from its start to the end offset, when that slice is non-empty and in range. |
| `ParserContext.ParseContext.EnterChildrenBlock` | internal/parser/context.go:209-212 | Saves lastNodeEnd and moves it behind the brace. |
| `ParserContext.ParseContext.LeaveChildrenBlock` | internal/parser/context.go:215-220 | Restores lastNodeEnd. |
| `ParserContext.ParseContext.AddArgumentToken` | document/node.go:183-194 | Fails exactly when the token cannot be decoded; otherwise the innermost node gets the decoded, annotated value as its last argument and loses its raw bytes. |
| `ParserContext.ParseContext.AddPropertyToken` | document/node.go:223-243 | The same for a property; the key is decoded first, and a known key keeps its place. |
| `ParserContext.ParseContext.FieldsAgree` | internal/parser/context.go:40-75 | In every represented state: the state field matches the phase, childBlockSeen is set only for a node whose block has closed, and ignoreChildren is positive exactly inside a slashdashed block. |
| `ParserContext.ParseContext.InDocument` | internal/parser/transitions.go:19-92 | The handlers of stateDocument do to the fields what the machine does to its configuration, including which tokens they refuse. |
| `ParserContext.ParseContext.InChildren` | internal/parser/transitions.go:93-187 | The same for stateChildren; a node inside a slashdashed block is created as slashdashed. |
| `ParserContext.ParseContext.InTypeAnnot` | internal/parser/transitions.go:188-207 | The same for stateTypeAnnot. |
| `ParserContext.ParseContext.InTypeDone` | internal/parser/transitions.go:208-221 | The same for stateTypeDone. |
| `ParserContext.ParseContext.InStateNode` | internal/parser/transitions.go:222-274 | The same for stateNode. |
| `ParserContext.ParseContext.InStateNodeParams` | internal/parser/transitions.go:275-393 | The same for stateNodeParams. |
| `ParserContext.ParseContext.InStateNodeEnd` | internal/parser/transitions.go:394-428 | The same for stateNodeEnd. |
| `ParserContext.ParseContext.InStateArgProp` | internal/parser/transitions.go:453-586 | The same for stateArgProp. |
| `ParserContext.ParseContext.InStateArgPropPostWS` | internal/parser/transitions.go:587-754 | The same for stateArgPropPostWS. |
| `ParserContext.ParseContext.InStatePropertyValue` | internal/parser/transitions.go:755-788 | The same for statePropertyValue. |
| `ParserContext.ParseContext.Dispatch` | internal/parser/parser.go:68-88 | Looks the handler up by ID, then by class; no handler is an error; the fields still represent the machine afterwards. The unreachable stateProperty and the stack-empty errors are proved not to occur. |
| `ParserContext.ParseContext.Parse` | internal/parser/parser.go:49-89 | One token, continuation handling included: succeeds exactly when the machine accepts the token, and then the five stacks and all flags represent the machine's next configuration. |
| `ParserContext.ParseContext.ParseAllTokens` | internal/parser/parser.go:109-129 | All tokens and EOF: succeeds exactly when the machine accepts, and then the nodes reachable from the document are exactly the tree that the machine shows. |
| `ParserMoves.DocumentShown` | internal/parser/context.go:106-145 | Following pointers from the document through the node store gives the tree of the machine, open nodes included, whatever mixture of open, finished and slashdashed nodes there is. |
| `ParserContext.NothingRegistered` | internal/parser/parser.go:68-84 | Where the transition table has no handler, the machine refuses the token as well. |
| `Generator.Writer.WriteNode` | document/node.go:331-490 | The imperative writer appends exactly the pieces of the node: indentation, type, name, arguments, properties in key order, child block, newline; among them the annotations of all values but hexadecimal ones without raw bytes. |
| `Generator.Writer.FormattedString` | document/value.go:274-283 | A value is written behind its annotation, unless it is written in hexadecimal: then a new buffer is started, and the annotation, which was in the old one, is not written. |
| `Layout.NodeIsLaidOut` | document/node.go:340-346 | Every line of a printed node, at any depth, begins with exactly as many copies of the indentation as blocks are open around it, the line that shuts a block counting as outside it. |
| `Layout.PrintableIsTidy` | document/node.go:331-487 | This is so of every node that can be printed so that it reads back. |
| `Layout.ValueIsWritten` | document/value.go:272-284 | A value is written as its annotation in parentheses and its bytes or its spelling; only a number that is spelled anew in hexadecimal goes without its annotation. |
| `Layout.FormattingIgnoresSource` | internal/generator/generator.go:53-101 | Without preservation, the output depends neither on the text that the nodes were read from, at any depth, nor on what followed them. |
| `Generator.Writer.GenerateNodes` | internal/generator/generator.go:53-78 | For each node in turn: its raw bytes if formatting is to be preserved and neither it nor a descendant is dirty, its formatted text otherwise. |
| `Generator.Writer.Generate` | internal/generator/generator.go:92-101 | The nodes and then, when formatting is preserved, the trailing bytes. |
| `Completeness.RunBraces` | internal/parser/transitions.go:18-789 | Over every run that is accepted, the number of open blocks grows by exactly the opening braces read less the closing ones, whatever states they are read in. |
| `Completeness.EofEnds` | internal/parser/transitions.go:394-412 | EOF ends the node it is read in, with one exception: behind a single-line comment with a slashdash still waiting it ends nothing. |
| `Completeness.CompleteExactly` | internal/parser/transitions.go:18-789 | What an accepted parse leaves open, from its tokens alone: as many blocks as braces are unmatched, and a node exactly when EOF meets a slashdash pending behind a single-line comment; so all is closed if and only if neither happens. |
| `Completeness.EofInsideBlockIsAccepted` | internal/parser/transitions.go:227-234 | One of the two ways: EOF inside a child node is accepted with the block still open. |
| `Completeness.DanglingSlashdashIsAccepted` | internal/parser/transitions.go:394-412 | The other one: a slashdash with only a comment behind it is accepted with its node still open, and the document stays empty. |
| `Preserving.NestedClean` | internal/generator/generator.go:82-89 | In a tree whose nodes all carry their own nested segments, no descendant is dirty. |
| `Preserving.LevelOutput` | internal/generator/generator.go:53-78 | The verbatim output of one level is all of its source if nothing in it is slashdashed, and strictly shorter otherwise. |
| `Preserving.FormatPreservingIdentity` | internal/generator/generator.go:53-101 | For every token list that tiles the source, is accepted and closes what it opens: every node has its raw segment, nothing is dirty, and the generator writes back exactly the source, trailing bytes included, if and only if no finished top-level node was slashdashed. |
| `Preserving.IgnoredIsSlashdashed` | internal/parser/transitions.go:19-92 | A finished top-level node is slashdashed exactly when a slashdash was read where a top-level node is expected. |
| `Preserving.PreservedIffNothingSlashdashed` | internal/generator/generator.go:53-101 | The same condition on the tokens: if and only if no slashdash is read where a top-level node is expected. |
| `Kdl.Parse` | kdl.go:12-38 | The scanner feeding the parser token by token succeeds exactly when the whole source scans and the machine accepts its tokens and EOF; the result represents the machine's final configuration. |
| `Kdl.SourceIsPreserved` | kdl.go:12-38 | From source bytes to output bytes: for every source that parses, whose braces match and whose end does not meet a slashdash behind a single-line comment, generating with PreserveFormatting reproduces it byte for byte if and only if no slashdash is read where a top-level node is expected, even when the scanner drops the end of the input; stated for a source that the scanner holds in one buffer. |
| `Mutations.MutatesOnlyItsPart` | document/node.go:78-230 | Every mutator of a node changes only the part it is for, and a node it changes has no raw bytes afterwards. |
| `Mutations.RemovesTheFirst` | document/node.go:108-117 | Removing a child by name takes away the first child of that name and keeps all others in their order; without one, nothing changes. |
| `Mutations.AddedIsRemoved` | document/node.go:78-117 | A child of a new name goes last, and removing it gives back the children there were. |
| `Mutations.PropertiesAreSet` | document/node.go:120-223 | A property that was added is found with its value, a deleted one is not found, all others stay; deleting what was newly added gives back the properties, deleting what is absent changes nothing. |
| `Mutations.SettersOverwrite` | document/node.go:135-180 | Setting arguments or children forgets those before; adding one to what was set is setting one more. |
| `Mutations.ChangesOnlyItsPart` | document/value.go:57-64 | A setter of a value changes only what it is for and makes the value be spelled anew; a flag respells numbers only. |
| `Editing.EditIsSeen` | document/node.go:78-144 | A mutation that changes anything, at any depth, leaves the top-level node above it dirty or with a dirty descendant. |
| `Editing.ReplacedOutput` | internal/generator/generator.go:53-101 | Replacing one top-level node of a parsed document replaces exactly that node's bytes in the output. |
| `Editing.EditedOutput` | internal/generator/generator.go:53-101 | Format-preserving editing: after any mutation at any depth, the output is the source with exactly the surrounding top-level node formatted anew, edit included. |
| `Sessions.ValueEditKeepsDirt` | document/value.go:57-64 | An edit through a value, in any slot of any node at any depth, leaves the raw bytes of every node and the dirt below every node as they were. |
| `Sessions.ValueEditOutput` | internal/generator/generator.go:53-101 | What an edit through a value does to a document's output: nothing at all, byte for byte, if the top-level node around it is clean and formatting is preserved; otherwise that node is formatted anew with the edit in its place. |
| `Sessions.PutValueAtSize` | document/node.go:331-490 | A value put anywhere into a tree changes the length of the formatted text by exactly what its own spelling is longer. |
| `Sessions.ValueEditIsWrittenIff` | document/value.go:57-64 | Where the code falls short of its documentation, exactly: some change through a value shows in the output if and only if formatting is not preserved or the top-level node around it is already dirty. |
| `Sessions.SessionDirt` | document/node.go:78-144 | After any sequence of edits through nodes and through values, a top-level node is dirty exactly when it was before or an edit through a node changed something in it. |
| `Sessions.SessionOutput` | internal/generator/generator.go:53-101 | The output after any editing session on a parsed document, node by node: the source's own bytes for every top-level node that no edit through a node touched, the formatted text of every other, and the trailing bytes. |
| `Sessions.ValueEditsAreNotWritten` | document/value.go:57-64 | Any number of edits through values leaves the output of a clean document as it was. |
| `Sessions.LaterValueEditIsWrittenIff` | document/value.go:57-64 | After any session on a parsed document, a further edit through a value can show in the output if and only if formatting is not preserved or an earlier edit through a node touched the top-level node around it. |
| `Locality.TokenView` | internal/tokenizer/scanner.go:503-760 | The scanner looks no further than one rune behind a token: wherever the same runes stand, up to and with that one, it reads the same token, of every kind. |
| `Rescanning.InsertedScan` | internal/tokenizer/scanner.go:903-922 | A text that is put behind a terminator, or in front of everything, is scanned where it stands, and all tokens in front of it and behind it are scanned as before. |
| `Rescanning.ReadsDetermined` | internal/tokenizer/scanner.go:903-922 | What a scan reads up to the end of the input begins with whatever is known to be read there. |
| `Sourceless.SameTokensSameTrees` | internal/parser/context.go:158-184 | The parser uses the source only for raw segments: the same tokens are accepted or refused, and read as the same trees, whatever text they come from. |
| `TopLevel.LastEnd` | internal/parser/context.go:158-184 | A run that comes to rest at the top level has been at rest since its start or since the token that ended the last node. |
| `TopLevel.TerminatorEnds` | internal/parser/transitions.go:18-789 | Only a terminator ends a node of the top level. |
| `TopLevel.QuietRun` | internal/parser/transitions.go:19-92 | What is read at the top level behind the last node, up to the end of the input, changes nothing and does not depend on the nodes in front of it. |
| `TopLevel.StepAddsOne` | internal/parser/context.go:158-184 | No token adds more than one node to the top level, and none but a terminator adds any. |
| `TopLevel.AnnotationMovesOn` | internal/parser/transitions.go:300-307 | An annotation whose value is missing: the end of the line refuses it, but behind a single-line comment the end of the line ends the node, and the next node takes the annotation for its own. |
| `Appending.AppendedOutput` | document/document.go:23-26 | A node appended to a parsed document is written between the bytes of the last node and the trailing ones. |
| `Appending.AppendedReadsBack` | document/document.go:23-26 | For every source that parses, closes what it opens and has no slashdash at the top level, and every printable node made by a program: if the last node was ended by a line break or a semicolon, or there is none, no slashdash is left over and no byte order mark follows, then the output with the node appended is read as the nodes of the source and behind them that node. |
| `Joining.NodeClosing` | document/node.go:331-490 | In the text of a printed node, every line feed but the last one lies within braces that are still open. |
| `Joining.AppendedJoins` | document/document.go:23-26 | The other way round: if the end of the input has ended the last node, whatever stands there (a name, a value, a comment, an unfinished token), an appended node is never read back, for every printable node without semicolons and line breaks within its names, texts and types. |
| `Joining.AppendedExactly` | document/document.go:23-26 | So such a node, appended where no slashdash is left over, is read back if and only if the last node was ended by a line break or a semicolon, or there is none, and no byte order mark follows. |
| `Joining.AppendingIsSafeExactly` | document/document.go:23-26 | Exactly when appending is safe: every printable node is read back behind a source if and only if its last node was ended by a line break or a semicolon, or there is none, that node left no slashdash over, and no byte order mark follows. |
| `Joining.MarkIsRefused` | internal/tokenizer/scanner.go:514-531 | Appended to a document of which nothing but a byte order mark and blanks is there, no node can be read back: the mark is refused behind it. |
| `Joining.LeftoverIsNotReadBack` | internal/parser/transitions.go:531-546 | Behind a slashdash that is left over, a node with an argument is read without it. |
| `UnfinishedLines.BehindName` | document/document.go:23-26 | What becomes of a node b behind an unfinished line: behind the name a, it is read as the name ab. |
| `UnfinishedLines.BehindBlank` | document/document.go:23-26 | Behind the name a and a space, it is read as an argument of a. |
| `UnfinishedLines.BehindComment` | document/document.go:23-26 | Behind a comment, it is lost without an error. |
| `RoundTrip.ArgsRead` | internal/parser/transitions.go:587-640 | Printed arguments, annotated or not, are read back as the same arguments in the same order. |
| `RoundTrip.PropsRead` | internal/parser/transitions.go:755-788 | Printed properties with distinct keys are read back in the same order with the same values. |
| `RoundTrip.NodeReads` | internal/parser/transitions.go:18-789 | A printed node, at any depth, is read back as one node with the same name, type, entries and children. |
| `RoundTrip.PrintedDocumentReadsBack` | internal/parser/transitions.go:18-789 | Print/parse round trip on trees: tokens in the order WriteToOptions prints them, and EOF, are accepted with every block closed and rebuild the same trees, for every spelling of names and values that the decoder undoes. |
| `Scanning.Scanner.PeekSize` | internal/tokenizer/scanner.go:60-73 | The next rune and its size, or why there is none; the cache stays in agreement with the buffer. |
| `Scanning.Scanner.PeekTwoSize` | internal/tokenizer/scanner.go:86-110 | The next two runes, or why there are not two. |
| `Scanning.Scanner.Get` | internal/tokenizer/scanner.go:113-152 | Takes the next rune, from the cache or the buffer; nothing moves on an error. |
| `Scanning.Scanner.ReadWhile` | internal/tokenizer/scanner.go:252-277 | Takes the longest run of accepted runes; fails on an unreadable rune, an empty run, or one shorter than the minimum. |
| `Scanning.Scanner.ReadUntil` | internal/tokenizer/scanner.go:282-303 | Takes everything in front of the first stopping rune or the end. |
| `Scanning.Scanner.ReadHashToken` | internal/tokenizer/scanner.go:347-500 | Keywords and raw strings, single- and multi-line, with any number of hashes: the loops read what the token grammar of the model says, marks as they were. |
| `Scanning.Scanner.ReadMultiLineComment` | internal/tokenizer/readtype.go:20-52 | The depth counter's loop finds the end that the recursive specification gives. |
| `Scanning.Scanner.ReadQuotedString` | internal/tokenizer/readtype.go:67-174 | Quoted strings, triple-quoted ones and whitespace escapes included. |
| `Scanning.Scanner.ReadBareIdentifier` | internal/tokenizer/readtype.go:230-287 | Bare identifiers, reserved words and number-like starts refused. |
| `Scanning.Scanner.ReadIdentifier` | internal/tokenizer/readtype.go:292-344 | Strings and bare identifiers, legacy raw strings refused. |
| `Scanning.Scanner.ReadDecimal` | internal/tokenizer/readtype.go:411-466 | Numbers with fraction and exponent; an exponent cut off by the end of the input is reported as the end of the input. |
| `Scanning.Scanner.ReadNumericBase` | internal/tokenizer/readtype.go:471-482 | Hexadecimal, octal and binary numbers. |
| `Scanning.Scanner.Dispatch` | internal/tokenizer/scanner.go:536-754 | The token that the first rune, and sometimes the second, select. |
| `Scanning.Scanner.ReadNext` | internal/tokenizer/scanner.go:503-760 | One token: the scanner's cursor, cache and marks compute the function NextToken, byte order mark included. |
| `Scanning.Scanner.ScanAll` | internal/tokenizer/scanner.go:903-922 | All tokens up to the end of the input, or an error; termination by progress of the cursor. |
| `Lossless.IntegerIsDigits` | internal/tokenizer/readtype.go:347-389 | readInteger takes exactly the longest decimal integer. |
| `Lexemes.RuneClasses` | internal/tokenizer/ctype.go:9-140 | Whitespace, newlines, and what a bare name may consist of, rune by rune. |
| `Lexemes.PeeksExactly` | internal/tokenizer/scanner.go:53-78 | A rune is read exactly where its encoding stands, unless it is U+FFFD. |
| `Lexemes.NewlineExactly` | internal/tokenizer/scanner.go:536-754 | Exactly which text is a newline: one of seven runes, a carriage return with its line feed counting as one. |
| `Lexemes.WhitespaceExactly` | internal/tokenizer/readtype.go:13-17 | Whitespace is read exactly as far as it goes; a byte order mark is whitespace at the very start and nowhere else. |
| `Lexemes.MarkExactly` | internal/tokenizer/scanner.go:536-754 | Each mark, parentheses, braces, equals sign, semicolon and backslash, is exactly one token wherever a token starts with it. |
| `Lexemes.SlashExactly` | internal/tokenizer/scanner.go:580-640 | What starts with a slash: exactly the slashdash, the comment up to the end of its line, and the comment derived by the greedy grammar; anything else is refused, but for a slash at the very end. |
| `Lexemes.KeywordExactly` | internal/tokenizer/scanner.go:347-500 | The keywords are exactly the six words behind one hash that neither a letter nor a dash follows. |
| `Lexemes.BareExactly` | internal/tokenizer/readtype.go:230-344 | Exactly which text is a bare identifier: name runes as far as they go, not starting like a number, not reserved, and not a lone r in front of a quote or a hash. |
| `Delimiters.QuotedExactly` | internal/tokenizer/readtype.go:67-174 | Exactly which text is a quoted string, ended by the first quote that is not escaped, with no line break but in escaped whitespace, and which is a multi-line one, ended by the first three quotes in a row none of which is escaped. |
| `Delimiters.RawExactly` | internal/tokenizer/scanner.go:347-500 | Exactly which text is a raw string with n hashes, ended by the first quote that n hashes follow, without a line break, and which is a multi-line one, ended by the first three quotes that n hashes follow, quotes being counted afresh behind three that too few hashes follow. |
| `Numbers.PrefixedExactly` | internal/tokenizer/readtype.go:471-523 | The scanner reads a hexadecimal, octal or binary number exactly where its prefix stands in front of a word of digits below the radix, letters in either case, and underscores, which does not begin with an underscore and is followed by a blank, a newline or the end; everything else behind such a prefix is refused. |
| `Numbers.DecimalsExactly` | internal/tokenizer/readtype.go:347-466 | The scanner reads a decimal exactly where a signed integer with an optional fraction and an optional exponent stands in front of a separator or the end, unless it is a 0 at the very end; whatever else starts like a decimal is refused or taken for the end of the input. |
| `Lossless.EofExactly` | internal/tokenizer/scanner.go:580-729 | The scanner reports the end of the input at the end and, in addition, on exactly three unfinished endings: a lone slash, a lone zero, and a number cut off behind its exponent letter. |
| `Lossless.TokensArePlain` | internal/tokenizer/scanner.go:503-760 | Every token carries a plain ID, never a class or EOF. |
| `Lossless.ScanTiles` | internal/tokenizer/scanner.go:503-760 | Whatever ScanAll returns tiles the input: non-empty tokens, each at the offset where the one before ends, up to the end of the input or to one of those endings. |
| `Lossless.TokensJoinToInput` | internal/tokenizer/scanner.go:903-922 | Lossless tokenization: the token data, joined, is the input up to where the scan stops, and it stops early if and only if the rest is one of the endings that strand. |
| `Lossless.LosslessUnlessStranded` | internal/tokenizer/scanner.go:903-922 | An input that does not end in a slash, a zero or the letter e is covered whole. |
| `Lossless.StrandedInputs` | internal/tokenizer/scanner.go:580-729 | Two inputs that give no token and no error. |
| `Comments.BlockLowersDepth` | internal/tokenizer/readtype.go:20-52 | Reading one derivable comment body lowers the depth counter by exactly one. |
| `Comments.CounterReadsBlock` | internal/tokenizer/readtype.go:20-52 | Whenever the counter succeeds, what it read is a derivable body. |
| `Comments.CounterIsTheGreedyGrammar` | internal/tokenizer/readtype.go:20-52 | Nested comments: the counter accepts exactly the one comment that the recursive grammar derives when a delimiter always counts as a delimiter, and fails exactly when there is none. |
| `Comments.AcceptedCommentsAreDerived` | internal/tokenizer/readtype.go:20-52 | Everything it accepts is derived by the grammar of the KDL 2.0.0 specification, section "Multi-line Comments", as written. |
| `Comments.NotAllDerivedAreAccepted` | internal/tokenizer/readtype.go:20-52 | The converse fails: that grammar lets a slash or star of a delimiter count as a plain character, which the counter never does. |
| `Comments.ShortestDerivation` | internal/tokenizer/readtype.go:18-52 | The shortest comment that the grammar as written derives ends at the first closing delimiter. |
| `Comments.CounterIsShortestUnlessNested` | internal/tokenizer/readtype.go:18-52 | Exactly when the counter finds that shortest comment: if and only if no opening delimiter stands in front of the first closing one (or there is no closing one and both fail). |
| `Strings.EncodeDecodes` | document/strings.go:263-296 | The bytes written for a code point escape decode to that code point. |
| `Strings.DecodesExactly` | document/strings.go:263-296 | A rune is decoded exactly where its encoding stands, and whatever is not malformed is the encoding of a code point that is no surrogate: decoding and encoding are inverse to each other both ways. |
| `Strings.EscapeRoundTrip` | document/strings.go:45-127 | Decoding what was escaped, from any position, gives the text back exactly when it is quotable, and fails otherwise. |
| `Strings.QuoteRoundTrip` | document/strings.go:45-317 | Quote/unquote round trip for every byte string: unquoting the quoted text returns it if and only if it is valid UTF-8 without DEL and without controls other than BS, TAB, LF, FF and CR; in every other case unquoting fails. |
| `Escapes.CodePointIsDecoded` | document/strings.go:637-667 | Wherever a code point escape stands, in one to six hexadecimal digits of either case, leading zeros included, it yields the character whose number the digits write; surrogates, numbers beyond U+10FFFF and more digits are refused. |
| `Escapes.QuotedCodePoint` | document/strings.go:263-296 | The same of a whole quoted string that is one such escape. |
| `Escapes.LetterIsDecoded` | document/strings.go:672-674 | Each escape of one letter yields the character that a fixed list gives for it, and every other letter is refused. |
| `Escapes.QuotedLetter` | document/strings.go:211-262 | The same of a whole quoted string that is one escape of one letter, the escaped space included. |
| `Escapes.UnknownEscapeFails` | document/strings.go:211-317 | An escape that is not in the list, no code point and no whitespace makes the text unreadable from there on, for both decoders. |
| `EscapedText.QuotedMeans` | document/strings.go:175-317 | What a quoted string means, for every list of characters, known and unknown escapes, code points and escaped whitespace between its quotes: the meanings of the items one after the other, or a failure if one has none. |
| `EscapedText.QuotesAreNeeded` | document/strings.go:132-160 | A text without a quote at each end is refused, and no text at all stands for itself. |
| `EscapedText.MalformedIsReplaced` | document/strings.go:67-82 | A malformed byte: written as the replacement character without braces, which does not read back; read by the one-pass decoder as those same six characters, and by the second pass of multi-line strings as the replacement character, with the byte behind it taken as it is even if it starts an escape. |
| `StringValues.QuotedIsRead` | internal/tokenizer/readtype.go:67-174 | From bytes to value: a quoted string with any characters and escapes that the scanner can read is one token wherever it stands, unless it is empty in front of a third quote, and its value is what its items mean, or an error. |
| `StringValues.OthersMean` | document/value.go:427-468 | The values of multi-line, raw and multi-line raw strings, by the lines, the text or the rows between their delimiters. |
| `TwoPasses.TwoPassesFrom` | document/strings.go:451-682 | From any position of valid text: each decoder succeeds exactly if it can read every escape, as written or as joined, and both results are equal exactly if every code point escape means the same both ways. |
| `TwoPasses.TwoPassesAgreeExactly` | document/strings.go:451-682 | The two decoders agree, failures included, if and only if some escape is unknown to both, or every code point escape means the same as written and after joining, or each decoder meets one that it cannot read. |
| `TwoPasses.EscapeMeansTheSame` | document/strings.go:637-667 | What makes an escape mean the same: without a whitespace escape between the u and the brace, unless its braces are empty and joining leaves nothing behind them. |
| `TwoPasses.TwoPassesAreOne` | document/strings.go:451-682 | In particular, the two decoders agree on every valid text whose code points are written in hexadecimal digits between braces. |
| `TwoPasses.EmptyBracesDiffer` | document/strings.go:637-650 | Empty braces at the end of the joined text: one decoder yields NUL, the other fails. |
| `TwoPasses.SpaceInBracesDiffers` | document/strings.go:451-523 | A whitespace escape between the braces: the two decoders yield different characters. |
| `TwoPasses.SpaceBeforeBraceDiffers` | document/strings.go:451-523 | A whitespace escape in front of the opening brace: one decoder fails, the other yields a character. |
| `StringCodecs.AppendQuotedString` | document/strings.go:45-127 | Fast and slow path alike append per-character escaping between quotes. |
| `StringCodecs.AppendUnquotedString` | document/strings.go:154-317 | Fast and slow path alike decode in one pass, window by window. |
| `StringCodecs.ReadCodePoint` | document/strings.go:263-296 | The code point escape with its closing-brace search and backwards hexadecimal loop. |
| `StringCodecs.ProcessWhitespaceEscapes` | document/strings.go:455-523 | The first pass removes exactly the whitespace escapes. |
| `StringCodecs.ProcessBackslashEscapes` | document/strings.go:577-682 | The second pass, its skipped byte behind a malformed one included. |
| `Multiline.NormalizeIndented` | document/strings.go:436-449 | Newline normalization of an indented text gives its rows joined by LF, for LF and for CR LF. |
| `Multiline.RawLiteralReadsBack` | document/strings.go:777-840 | An indented multi-line raw literal reads back as its lines joined by LF, lines of whitespace emptied, for all lines, indentations, hash counts and both newlines. |
| `Multiline.RawLiteralIsExactUnlessBlank` | document/strings.go:777-840 | It reads back as exactly its lines if and only if no non-empty line is whitespace only. |
| `MultilineRows.RawMeansExactly` | document/strings.go:777-840 | Exactly which multi-line raw strings can be read: those whose closing line is whitespace and each of whose rows is whitespace or begins with the closing line; they are their rows without it, rows of whitespace empty, joined by LF. |
| `MultilineRows.OpeningLineIsEmpty` | document/strings.go:696-718 | Both kinds are refused if no newline stands behind the opening delimiter, or if the delimiters are cut short. |
| `Multiline.QuotedAgreesWithRaw` | document/strings.go:696-763 | A text without backslashes means the same in a quoted and in a raw multi-line string, errors included. |
| `MultilineText.MultilineMeans` | document/strings.go:696-763 | What a multi-line string with escapes means, for all lines of characters and escapes, every indentation and both newlines: each line means what it would mean in single quotes, blank lines are empty, and the lines are joined by LF; an escape without a meaning in any line that is not blank makes the whole string unreadable. |
| `MultilineText.EscapedLinesReadBack` | document/strings.go:696-763 | Lines that are escaped as single-line strings are and written between triple quotes read back joined by LF, those written as whitespace only as empty lines; so exactly if every such line is empty. |
| `MultilineText.EscapedBreakJoins` | document/strings.go:709-713 | Escaped whitespace, any line breaks in it included, joins what is before and behind it into one line before the indentation is removed. |
| `MultilineCodecs.NormalizeNewlines` | document/strings.go:436-449 | The byte loop replaces every newline sequence by LF. |
| `MultilineCodecs.MultilineDedent` | document/strings.go:537-571 | The in-place line loop: blank lines emptied, the prefix removed from all others, an error if one lacks it. |
| `MultilineCodecs.ParseMultilineRawString` | document/strings.go:777-840 | The whole raw parser: delimiters, first newline, closing line, indentation. |
| `MultilineCodecs.ParseMultilineString` | document/strings.go:696-763 | The whole quoted parser, with both escape passes in their order. |
| `Values.IdentifiersMeanText` | document/value.go:427-495 | What can be a name or a key means a text, a bare word itself; numbers and keywords keep their spelling. |
| `RawStrings.AppendRawString` | document/strings.go:325-370 | The hash-count loop writes the literal with the chosen count, or the fallback after 64. |
| `RawStrings.ParsedIsBetween` | document/value.go:415-424 | The text of a raw string is what stands between its first quote and as many bytes from its end; without room for them it cannot be cut out, and bytes without a quote stand for themselves. |
| `RawStrings.HashesAreLeast` | document/strings.go:326-346 | The count is the least whose closing delimiter does not occur in the text; there is none exactly when all of 1 to 64 occur. |
| `RawStrings.RawReads` | internal/tokenizer/scanner.go:439-465 | From inside the literal, the scanner reads to its end exactly when the rest of the text is readable and has no newline. |
| `RawStrings.RawStringRoundTrip` | document/strings.go:325-370 | Raw string round trip through the scanner: wherever the literal stands, it is scanned whole as one raw string and parses to the text, if and only if 64 hashes suffice, the text is readable without newlines, and the text with a quote behind it does not start with two quotes. |
| `Spellings.QuotedFormScans` | internal/tokenizer/readtype.go:136-173 | The quoted form of a text is scanned whole if and only if the text has no U+FFFD and none of the newlines that quoting does not escape (and an empty form meets no third quote). |
| `Spellings.QuotedStringRoundTrip` | document/strings.go:45-127 | Quoted string round trip through the scanner, with its exact condition. |
| `Spellings.IsBareIdentifier` | internal/tokenizer/ctype.go:99-118 | The writer's test for bare names, as a loop over runes. |
| `Spellings.BareWordScans` | internal/tokenizer/readtype.go:230-287 | What the scanner makes of a name the writer would print bare. |
| `Spellings.BareNameRoundTrip` | internal/tokenizer/ctype.go:99-118 | A name printed bare is read back as one bare identifier if and only if all its runes are readable, it is not a reserved word, and it does not look like a number; the writer's test checks none of these. |
| `Printing.MarkScans` | internal/tokenizer/scanner.go:631-679 | Braces, parentheses, equals signs and line feeds are read as single tokens whatever follows. |
| `Printing.BlankScans` | internal/tokenizer/readtype.go:13-16 | Indentation in front of a word is read as one whitespace token. |
| `Printing.KeywordScans` | internal/tokenizer/scanner.go:475-497 | Every hash keyword is read as one token in front of a space or newline. |
| `Printing.IntegerReadsBack` | internal/tokenizer/readtype.go:411-466 | Every decimal integer, signed or not, reads back as a number in front of a space or newline. |
| `Printing.BareTypeReadsBack` | document/node.go:375-386 | A type name that is a readable bare identifier is read back between its parentheses. |
| `Printing.QuotedTypeReadsBack` | document/node.go:375-386 | So is a quoted one, quotes included. |
| `Printing.NodeLexes` | document/node.go:331-490 | The text of a printed node is scanned into exactly the pieces it was printed from, at any depth. |
| `Printing.PrintableIsReadable` | document/value.go:427-489 | The value parser undoes the writer's spelling of every printable name, key and value. |
| `Printing.PrintedTextReadsBack` | internal/generator/generator.go:53-101 | From trees to bytes and back: for every list of printable trees, which have no annotated hexadecimal value, the formatted text scans to its end without an error, parses with every block closed, and gives back the same trees at every depth. |
| `Refusal.UnscannableIsUnread` | internal/tokenizer/readtype.go:136-173 | The quoted form of a text that the scanner does not take whole is not read as anything else either: scanning fails there. |
| `Refusal.BadBareIsNumberOrNothing` | internal/tokenizer/readtype.go:230-344 | A name printed bare that does not read back is read as a number or not at all, never as another name. |
| `Refusal.BadBareKey` | internal/tokenizer/readtype.go:411-466 | In front of an equals sign it is not read at all, unless it is cut short by an unreadable rune, where scanning fails next. |
| `Refusal.ForwardFails` | internal/parser/parser.go:50-88 | A failure behind a run of tokens that are read as printed is a failure in front of it, whatever the scanner has checked so far. |
| `Exactness.PendingFails` | internal/parser/transitions.go:531-626 | A pending value that cannot be decoded makes the parse fail at whatever shows that it is an argument: the end of the line, the next entry, or the child block. |
| `Exactness.PropValueFails` | internal/parser/transitions.go:755-788 | A property whose key or value cannot be decoded makes the parse fail at its value, annotated or not. |
| `Exactness.BadPropFails` | internal/parser/transitions.go:497-513 | A printed property whose key or value does not read back makes the parse fail, from every state in which the writer can leave the parser in front of it. |
| `Exactness.ArgsFail` | document/node.go:397-414 | If one of the printed arguments does not read back, or what stands behind them fails, the rest of the source fails from in front of them, whichever entry is pending. |
| `Exactness.PropsFail` | document/node.go:415-443 | The same for the printed properties. |
| `Exactness.HeadFails` | document/node.go:331-396 | The same for the printed name of a node, annotated or not. |
| `Exactness.NodeFails` | document/node.go:331-490 | A name, key or text anywhere below a printed node that does not read back makes the parse of its text fail, at any depth of nesting. |
| `Exactness.OthersAreRefused` | internal/generator/generator.go:53-101 | Formatting never turns trees silently into other trees: the text of trees with a name, key or text that does not read back is refused. |
| `Exactness.ReadsBackOrIsRefused` | internal/generator/generator.go:53-101 | For trees whose types and literals are spelled as a scanner hands them out, and whose hexadecimal values have no annotation: the formatted text is accepted, and then gives the same trees back with every block closed, if and only if every name, key and text at every depth reads back from its own spelling; otherwise it is refused. |
| `Annotations.WrittenDecidesText` | document/value.go:274-283 | Trees that differ only in annotations of hexadecimal values, raw bytes and flags are written alike. |
| `Annotations.KeepsAllExactly` | document/value.go:114-117 | What is written of trees is all of them if and only if no hexadecimal value, at any depth, has an annotation. |
| `Relexing.ValueMoves` | internal/tokenizer/scanner.go:503-760 | A value that was scanned once, in whatever surroundings, is scanned as the same token wherever its bytes are put in front of a space or line feed, and a name in front of a closing parenthesis too; for every kind of string, name, number and keyword. |
| `Relexing.BareWordIsName` | internal/tokenizer/ctype.go:99-118 | What the scanner reads as a bare identifier, the writer prints bare and the scanner reads back. |
| `Reformatting.ScannedRereads` | internal/tokenizer/scanner.go:503-760 | So every type name and every literal that the scanner hands out satisfies what the writer relies on. |
| `Reformatting.StepSound` | internal/parser/transitions.go:18-789 | Every handler, in every state, keeps everything that has been read or is pending spellable. |
| `Reformatting.ParsedIsSound` | internal/parser/parser.go:50-88 | Whatever a parse shows, with open blocks or without, its types and literals can be spelled, its keys are distinct, its names are text, and a value is flagged hexadecimal exactly if it is a hexadecimal number. |
| `Reformatting.ReadsBackExactly` | internal/generator/generator.go:53-101 | Exact condition of the byte round trip for all trees without exception: the formatted text is accepted and shows the same trees at every depth if and only if every tree is printable; that includes that no hexadecimal value has an annotation. |
| `Reformatting.ReadsAsWrittenExactly` | internal/generator/generator.go:53-101 | The formatted text is accepted and shows the trees without the annotations of hexadecimal values if and only if every tree without them is printable. |
| `Reformatting.ParsedTreesReadBackOrAreRefused` | kdl.go:90-102 | Reformatting any source that parses: the result is accepted, with every block closed, if and only if every name, key and text reads back from its own spelling; it then shows the trees with exactly the annotations of hexadecimal values erased, and so the same trees if and only if there are none. |
| `Reformatting.FormattingTwice` | kdl.go:90-102 | Formatting what was formatted gives the same text again, for every list of printable trees, if and only if no hexadecimal number in them has an annotation. |
| `LostAnnotation.AnnotationIsLost` | document/value.go:114-117 | The annotation that is lost: a node n with the argument (u8)0x10 parses; reformatted it is n 0x10, which parses to another tree. |
| `Reformatting.TypeReadsBackExactly` | document/node.go:375-386 | The condition on a type name can be computed: the scanner reads it whole, as a name, in front of a parenthesis. |
| `Reformatting.LiteralReadsBackExactly` | document/value.go:427-489 | And so can the condition on a literal. |
| `Slashdash.SlashdashDropsExactly` | internal/parser/transitions.go:453-640 | What a slashdash in front of a value drops: that value and nothing else, unless it stands directly behind another entry with whitespace behind it; then it drops nothing. |
| `Slashdash.SlashdashDropsProperty` | internal/parser/transitions.go:755-788 | What a slashdash in front of a property drops: the property with its key, its annotation and its value, whatever whitespace and comments stand between them, so that the node ends with the arguments and properties it had and the slashdash is spent; unless it stands directly behind another entry with whitespace behind it: then the property is added. |
| `Slashdash.SlashdashWaits` | internal/parser/transitions.go:276-428 | A slashdash that finds nothing on its line waits for the next one: a line break behind it, or a comment to the end of the line, changes nothing. |
| `Slashdash.TerminatorLeavesSlashdash` | internal/parser/transitions.go:531-546 | A terminator that ends a node leaves a slashdash behind exactly when one is waiting and no entry is pending. |
| `Slashdash.LeftoverTakesEntry` | internal/parser/transitions.go:531-546 | A node keeps its own first value exactly when no slashdash is left over from before it. |
| `Properties.OrderedMap.Alloc` | document/properties_deterministic.go:21-24 | An empty map. |
| `Properties.OrderedMap.Get` | document/properties_deterministic.go:34-37 | The value the association list holds for the key. |
| `Properties.OrderedMap.Add` | document/properties_deterministic.go:39-44 | A known key keeps its place and takes the new value, a new key goes last; slice and map stay in agreement. |
| `Properties.OrderedMap.Delete` | document/properties_deterministic.go:52-64 | Removes the entry, keeps the order of the others, and says whether there was one. |
| `Properties.OrderedMap.Keys` | document/properties_deterministic.go:67-69 | The keys in insertion order. |
| `Properties.ApplySpec` | document/properties_deterministic.go:39-64 | Over every sequence of additions and deletions: no key twice, each key with the value of its last addition or absent, and the keys in the order of their first addition since their last deletion. |
| `Properties.ReaddedGoesLast` | document/properties_deterministic.go:39-64 | A key that is deleted and added again moves to the end. |
| `Refill.Stream.MakeRoom` | internal/tokenizer/scanner.go:175-201 | Compaction in place, marks moved along, growth when a marked text takes up more than three quarters of the store. |
| `Refill.Stream.Refill` | internal/tokenizer/scanner.go:169-220 | Refilling is invisible whenever the reader yields a byte: marked texts, unread input and all that is ahead stay, and an open buffer is full; a reader that ends without a byte, or fails before the buffer is full, leaves the cursor where it was while bytes and marks have moved, and is not asked again. |
| `Refill.Stream.Get` | internal/tokenizer/scanner.go:113-152 | For every buffer of more than 8 bytes: while every refill gets something and has room for a rune, which it always has from 13 bytes on, each rune is the next rune of the whole stream, wherever the buffer ends, and every marked text grows by exactly its bytes. |
| `Refill.Stream.RoomIsLeft` | internal/tokenizer/scanner.go:184-203 | How much a refill can take: what is left of the store behind the oldest marked text, and the whole store once more if that text takes up more than three quarters of it. |
| `Refill.TakesOneRune` | internal/tokenizer/scanner.go:113-157 | A read takes exactly the encoding of the rune that stands there off the input, and nothing of what cannot be read. |
| `Refill.Stream.PushMark` | internal/tokenizer/scanner.go:228-231 | A new, empty marked text. |
| `Refill.Stream.CopyFromMark` | internal/tokenizer/scanner.go:242-247 | The text of the latest mark. |
| `Refill.StaleMarks` | internal/tokenizer/scanner.go:206-212 | After a refill without a byte, the marked texts are intact if and only if the oldest mark is at the start of the buffer. |
| `Refill.StaleInput` | internal/tokenizer/scanner.go:206-212 | After such a refill, the unread input is intact if and only if the part of it that was overwritten repeats what was moved onto it. |
| `References.RefById` | schema/loader.go:610-619 | A ref by id names what stands behind the opening of the id, without the quotes around it and without the last character, which need not be a bracket; white space around it does not matter. |
| `References.RefByName` | schema/loader.go:621-632 | A ref by name names what stands behind the word definitions and the sign, with any white space around each of them. |
| `References.OthersAreUnsupported` | schema/loader.go:610-636 | Every other ref is refused: one that does not open an id and has no sign, more than one, or something else than the word definitions in front of it. |
| `References.FoundIsAskedFor` | schema/loader.go:636-724 | What a ref finds is a definition of the kind of the referrer with that id, or with that name if its kind has names, and no other such definition stands in front of it; it finds none only if there is none. |
| `References.ResolvedWithoutLooking` | schema/loader.go:467-606 | A property, a value or a tag without a ref is resolved whatever is nested in it; without a definitions block it is resolved even with a ref, and a node or a children definition with one is refused. |
| `References.NestedIsSettled` | schema/loader.go:451-606 | Where resolution has settled a definition it has settled every definition nested in it, kind by kind, and the one that its ref finds. |
| `Schema.First` | schema/loader.go:636-724 | The candidate that answers a ref with no earlier one answering it, so that of two definitions with the same id the first counts; or none if none answers. |
| `Schema.MergedKids` | schema/loader.go:728-787 | Merging adds the nested definitions of the source to those of the target and drops none. |
| `Schema.MergedGrew` | schema/loader.go:726-787 | Local declarations take precedence: what a definition says itself stays, and comes first. |
| `Schema.MergedHolds` | schema/loader.go:726-787 | Merging into a definition that holds part of what its target says makes it hold all of it, per kind: every prop, value, tag, nested node and validation of the target is in its list behind its own, and description, children, names, min and max are the target's wherever it had none. |
| `Schema.MergedAgain` | schema/loader.go:726-787 | Merging the same target again adds no declaration and changes none. |
| `Schema.MergeTakesOver` | schema/loader.go:726-787 | After a merge the definition holds all that its target says, and every definition that held all of its target's declarations still does, also if its target is the one that has just grown. |
| `Schema.ShorterPath` | schema/loader.go:467-606 | What can be resolved below a path of refs can be resolved below every part of it. |
| `Schema.InheritedKidsResolvable` | schema/loader.go:486-507 | In a resolvable definition all nested definitions, those taken over by merging included, can be resolved below its ref. |
| `Schema.MergeEvolves` | schema/loader.go:728-787 | Merging never changes what refs mean, and only definitions that have a ref. |
| `Schema.RefVerdict` | schema/loader.go:467-606 | Once the target of a ref is resolved and merged, the verdict depends only on the nested definitions. |
| `Schema.SameAnswers` | schema/loader.go:636-724 | Merging does not change which definition a ref finds. |
| `Schema.Resolver.Resolve` | schema/loader.go:467-606 | Reference resolution terminates on every schema, cyclic ones included, by the refs not yet on the path and then the nesting; visited is on return what it was on entry, on success and on error; and it succeeds exactly when the schema as compiled is resolvable, however definitions were merged on the way. |
| `Schema.Resolver.ResolveDescending` | schema/loader.go:467-508 | The same for nodes and children: follow the ref, then descend. |
| `Schema.Resolver.ResolveQuietly` | schema/loader.go:510-550 | The same for props, values and tags, which have nothing to do without a ref or without definitions. |
| `Schema.Resolver.ResolveRef` | schema/loader.go:468-484 | Following one ref: refused if it is on the path or names nothing; on success the definition has been resolved and now holds everything its target says, behind its own declarations, without mention of how merging is done. |
| `Schema.Resolver.Merge` | schema/loader.go:726-787 | The five merge functions, field by field: only the one definition changes, and by what its target adds. |
| `Schema.Resolver.ResolveAll` | schema/loader.go:451-465 | All top-level definitions, each from an empty path. On success each of them and everything nested below them is settled, and every settled definition with a ref holds all of its target's declarations, of the final store. |
| `Schema.SelfReferenceIsRefused` | schema/loader.go:469-471 | A definition that refers to itself is refused. |
| `Schema.SameRefBelowIsRefused` | schema/loader.go:469-473 | One way to be refused: a nested definition with its owner's ref text, whatever it refers to. |
| `Chains.ResolvableExactly` | schema/loader.go:467-508 | Exactly which definitions resolve: on every way down from it through refs and nested definitions, every ref names a definition, no definition is met twice, and, on top of that, no ref text is followed twice. |
| `Chains.AlongChain` | schema/loader.go:467-508 | Along any way down from a resolvable definition, no ref is missing, on the path already, or repeated. |
| `Chains.TextsKeepApart` | schema/loader.go:467-508 | Where no text repeats, no definition is met twice. |
| `Chains.HarmlessSchemaIsRefused` | schema/loader.go:467-508 | A schema in which nothing is circular or missing, and which the resolver refuses all the same. |

## Left out

* Marshalling, coercion, formats and validation rules: driven by reflection and library types.
* Number parsing and printing: numbers and keywords keep their spelling as their value; any spelling that the scanner reads back is allowed. So nothing is said of numbers that the writer spells otherwise than they were read, such as hexadecimal ones beyond 64 bits, which it prints without their prefix (document/value.go:243-244).
* Relaxed modes, multiplier suffixes, comment capture and the unordered property variant: all their flags are fixed to off.
* The generator options for semicolons, equals signs and colons between names and values, and ignoring value flags: fixed to off.
* Text of errors, line and column numbers, logging, and the scanner's single-token entry point.
* Single-quoted strings in the string decoder; only the double quote is modelled.
* Node pointers, node and value aliasing: nodes and schema definitions live in a store and are named by their index; editing is modelled on values along a path.
* Streaming and segments together: token offsets are relative to the buffer, so segments are stated for a source held in one buffer.
* The rune cache and the token loops of the scanner over a streamed buffer: `Refill.Stream` delivers runes one at a time, and the scanner's loops are modelled over a source held in one buffer.
* Reading the output of an editing session again as a whole: `Sessions.SessionOutput` says what is written, and only for an appended node is it stated what is read. A node formatted in the midst of a preserved document keeps the raw bytes of its unchanged values, which the results about the formatting writer do not cover.
* Joining.AppendedJoins: nodes with a semicolon in their text, or with a line break within a type name, are left out, because a token that runs from the source into the text may end within such a string; sources are covered completely by `Joining.AppendingIsSafeExactly`.
* Joining.AppendedExactly: says nothing behind a slashdash that is left over, where `Slashdash.LeftoverTakesEntry` says what is dropped.
* The order in which resolution visits nested definitions within one definition, as far as it does not affect success; the visiting order across definitions is the source's.
* A schema ref that consists of nothing but the opening of an id pattern makes the program stop with a slice error; the model treats it as an unsupported ref.
* `stateProperty`: its handlers are not modelled, because no run enters that state; that is proved.
* Reading.DocumentIsRead: the grammar leaves out what the parser treats irregularly or refuses in part, which other results cover: a slashdash directly behind an entry (`Slashdash`), whitespace between a node and the brace that ends it (`Acceptance.ShutBehindBlank`), entries behind blocks (`BehindBlocks`), and an escaped line break between nodes or directly behind a name or an entry (`Laws.EsclineBetweenNodes`, `Laws.EsclineBehindName`, `Laws.EsclineBehindEntry`).
