# A verified model of the self-contained algorithms around the TypeScript compiler

This Dafny project models the parts of the repository that stand on their own and carry a real
specification: the small compiler that turns Go constant expressions into TypeScript, the binary
form of an AST and the readers generated for it, the framing and the start/stop protocol of the
web language server, the naming of virtual workspace folders, the checks on path literals, a
handful of graph algorithms in the generators and lint rules, source edits, and the restart
limiter of the language client. Each algorithm keeps the form it has in the program: objects that
update their fields are classes, loops are loops with invariants, and each such method is proved
equal to a specification function; what the program is supposed to achieve is then proved about
those functions, for all inputs and all runs.

One module per component:

| module | what it models |
|---|---|
| `GoExpressions` | the precedence-climbing parser for Go constant expressions, the printer with TypeScript's precedences |
| `OperatorClasses`, `PrintedText` | which operators bind tighter, by name; where the printer adds parentheses and spaces |
| `TopoSort` | ordering enum members so that mentions come first |
| `AstBuffer` | the encoder of the nodes section, the child walk, the child mask and its bit-count lookup, the Go decoder's pass |
| `NodeListCursor` | indexed access to an encoded list with its cursor |
| `CommonData` | packing flags and small unions into six bits, and both decoders |
| `MessageFraming` | the reader of `Content-Length` frames over a growing buffer, and the writer |
| `HeaderFields`, `ReaderGrowth` | which number a header declares; how often the buffer grows and errors are fired |
| `ServerLifecycle` | the start/stop protocol, one step per `await`, over all interleavings |
| `ServerProgress` | what starting, stopping and restarting achieve |
| `MountPoints` | URIs to mount points and back |
| `MountNames` | the names mount points are made of, spelled out |
| `OutermostMounts` | dropping nested mounts |
| `TypedPaths`, `PathRoots`, `MountPaths` | the root and the normal form of a path literal, and the root of each form; every mount point with a folder has it |
| `Preferences` | validating the preference schema, and flattening it |
| `ValidSchemas`, `SchemaErrors`, `FlattenedSelectors` | which schemas pass, what each error means, which preferences a definition has |
| `ShadowReach` | whether a use stays reachable after a shadowing declaration |
| `SourceEdits`, `EditOrder`, `BatchedMethods` | applying text edits; which methods issue batched requests |
| `RestartLimiter` | the sliding window of crash times |
| `Basics`, `Text`, `Utf8`, `MaskBits`, `Shifts` | options and bytes, splitting and joining strings, UTF-8 and hexadecimal, child masks, shifts |

## What the proofs found

Where a promise turned out not to hold of the code, the code is modelled as it is, a concrete
input shows the failure, and the exact condition is proved.

- A doubled sign in a Go expression, as in `- -x`, is printed as `--x`. The tokens the printer
  emits always read back with the right meaning; the text does exactly when no prefix sign is
  followed directly by the same sign (`TextReadsBack`, `DoubledSignFails`).
- The Go decoder of a node with one child property takes the node's first child, whatever the
  mask says. Where the property is absent and the node has JSDoc, it takes the comment, as for
  `/** d */ return;`; it names the reader's record exactly when the property is present or there
  is no JSDoc (`SingleChildDecoder`, `CommentReadAsExpression`).
- Edits nested in another edit are made before it and move its end. For any number of outer edits
  with nested ones in any layers, none of which lengthens its stretch, `applyEdits` gives what the
  outermost edits alone give exactly when in each of them the nested ones all keep their length or
  nothing follows it (`NestedShorteningExact`). For one outer edit around disjoint nested ones of any
  kind it does so exactly when they keep the length together, or shorten it with nothing after
  (`NestedExact`); for several outer edits keeping the length together is enough
  (`BalancedNestingIsHarmless`). A promise type inside a promise type is edited so, because the visit
  does not stop at a type it has replaced: the text after it loses characters
  (`NestedPromiseLosesText`).
- Decoding a mount point drops a leading U+FEFF, because the decoder takes it for a byte order
  mark. Names round-trip exactly when no part of the URI both starts with U+FEFF and contains a
  backslash (`MountPointRoundTrip`, `MarkIsLost`). A URI text that percent-encodes both characters,
  as the editor's own serialisation does, never meets it. Mount points are equal exactly when
  scheme, authority and path segments are, marks or not (`MountPointExact`).
- A refused restart is never removed from the limiter's window, so each refusal lets one more
  crash through for good (`AnswerExact`, `RefusalLoosensLimiter`). Every refusal is justified all
  the same (`RefusalIsTrue`).
- The generator never checks that the packed members of a node fit their six bits; both decoders
  recover every value exactly when the widths add up to at most six (`RoundTripExact`,
  `SevenFlagsOverflow`).
- Nodes whose data word holds no child mask look a property up by its position. That is right
  exactly when the node has no children, or the property and all before it are present
  (`MasklessExact`, `MasklessLookupFails`). The kinds written without a mask that have
  properties are source files, whose two properties the parser always sets, and the JSDoc links,
  which have only one: no tree the parser builds meets the failure.
- A header without `Content-Length` blocks the stream for good and is reported again for every
  later chunk (`StuckForever`, `BlankLineBlocks`). Nothing else does: any other stream can be
  continued so that it delivers another message (`StuckExact`).
- A mount point is a rooted, normalised path exactly when its URI has a folder; without one its
  root has no slash at its end (`AcceptedExactlyWithFolder`, `BareSchemeIsRefused`).
- `topoSortMembers` loses a member exactly when two share a name (`PermutationExact`,
  `SecondOfANameIsLost`).
- `positionIsReachable` dereferences a nil block when no block holds the shadowing identifier;
  the model answers `NoStartBlock` there and nowhere else (`PositionIsReachable`,
  `EmptyBlockHoldsNothing`).

## Model

| member | source | states |
|---|---|---|
| GoExpressions.ParseExact | tools/scripts/tsc/generate-enums.ts:219-257 | the parser accepts a token list with tree `e` if and only if `e` is a tree with that yield whose left operands bind at least as tightly as their operator and whose right operands bind strictly tighter |
| GoExpressions.WellNestedTreeUnique | tools/scripts/tsc/generate-enums.ts:241-252 | such a tree is determined by its tokens, under either language's precedences |
| GoExpressions.ParseBinarySound | tools/scripts/tsc/generate-enums.ts:241-252 | what a parse consumed is the yield of the tree it returns, well nested and at the requested level, and what is left does not continue it |
| GoExpressions.ParseBinaryComplete | tools/scripts/tsc/generate-enums.ts:241-252 | parsing the yield of any well-nested tree, whatever follows, reaches the loop holding exactly that tree |
| GoExpressions.PrintedTreeDenotes | tools/scripts/tsc/generate-enums.ts:259-275 | what is printed is the yield of a tree well nested under TypeScript's precedences that means what the Go tree means |
| GoExpressions.TranslationPreservesMeaning | tools/scripts/tsc/generate-enums.ts:210-278 | whenever Go's parser accepts, TypeScript's parser accepts the printed tokens and its tree is the Go tree up to parentheses, `^x` as `~x` and `a &^ b` as `a & ~b` |
| GoExpressions.TranslationPreservesValue | tools/scripts/tsc/generate-enums.ts:206-209 | every compositional evaluator that gives `&^` its Go meaning gives both trees the same value |
| GoExpressions.ScanExact | tools/scripts/tsc/generate-enums.ts:262-274 | a scanner that fuses adjacent equal signs sees the printer's tokens if and only if no two equal signs touch |
| GoExpressions.PrintFuses | tools/scripts/tsc/generate-enums.ts:259-275 | two equal signs touch in the output exactly when the tree applies a sign directly to the same sign |
| GoExpressions.DoubledInYield | tools/scripts/tsc/generate-enums.ts:219-223 | a tree applies a sign directly to the same sign exactly where its tokens show a doubled prefix sign |
| GoExpressions.TextReadsBack | tools/scripts/tsc/generate-enums.ts:210-278 | the printed text, scanned again, gives the printed tokens if and only if no prefix sign among the given tokens is followed directly by the same sign; the same condition read off the parsed tree |
| GoExpressions.DoubledSignFails | tools/scripts/tsc/generate-enums.ts:262-265 | a concrete accepted expression whose text does not read back |
| GoExpressions.Parser.ParseUnaryAt | tools/scripts/tsc/generate-enums.ts:219-239 | the index-advancing parser of an operand returns what the specification returns and stops where it stops, errors included |
| GoExpressions.Parser.ParseBinaryAt | tools/scripts/tsc/generate-enums.ts:241-252 | the same for an operand and the precedence-climbing loop behind it |
| GoExpressions.Parser.ClimbAt | tools/scripts/tsc/generate-enums.ts:243-251 | the loop returns what the specification of the loop returns, from any left operand |
| GoExpressions.TranslateGoNumericExpression | tools/scripts/tsc/generate-enums.ts:210-278 | the whole function emits or rejects as the specification does, with operand prefixes stripped |
| OperatorClasses.TighterTakesOperand | tools/scripts/tsc/generate-enums.ts:157-198 | for operators listed by name in classes, loosest first, and any operands: of two operators in a row the one of the tighter class takes the operand between them from either side, and within a class the left one, in Go and in TypeScript |
| OperatorClasses.BinaryOperatorsExact | tools/scripts/tsc/generate-enums.ts:243-250 | the operators listed are all that are accepted between two operands |
| OperatorClasses.PrefixOperatorsExact | tools/scripts/tsc/generate-enums.ts:219-224 | before an operand plus and minus are signs in both languages, the complement is `^` in Go and `~` in TypeScript, and no other operator is accepted |
| OperatorClasses.RefusalsNamed | tools/scripts/tsc/generate-enums.ts:228-236 | no operand, a parenthesis left open and something behind the end are each refused with their own error |
| OperatorClasses.ParenthesesOnlyWhereNeeded | tools/scripts/tsc/generate-enums.ts:206-208 | the printer adds no parentheses if and only if the expression copied without any reads back in TypeScript as itself |
| OperatorClasses.PrefixIsStripped | tools/scripts/tsc/generate-enums.ts:238-238 | an operand loses the prefix it starts with, once, and no other operand changes |
| PrintedText.TextIsSpread | tools/scripts/tsc/generate-enums.ts:259-275 | the emitted text has one space on either side of each operator that stands behind an operand, and no other space |
| TopoSort.StackReachesTop | tools/scripts/tsc/generate-enums.ts:339-341 | whatever is being visited reaches the member on top of the recursion, which is what a skipped cycle costs |
| TopoSort.Sorter.Visit | tools/scripts/tsc/generate-enums.ts:339-351 | one visit appends to the list what the specified visit appends, given what is being visited, and restores that |
| TopoSort.Sorter.VisitAll | tools/scripts/tsc/generate-enums.ts:353-355 | visiting every name leaves the specified list |
| TopoSort.ListedAllInOrder | tools/scripts/tsc/generate-enums.ts:339-351 | however the visits nest, every dependency of a listed name stands before it or reaches it |
| TopoSort.ListedAllIsClean | tools/scripts/tsc/generate-enums.ts:339-351 | no name is listed twice, none while it is being visited, and every visited name is listed afterwards |
| TopoSort.NothingListedEarly | tools/scripts/tsc/generate-enums.ts:343-355 | nothing is listed before a name that neither it nor a name visited before it needs |
| TopoSort.ReadyStay | tools/scripts/tsc/generate-enums.ts:353-355 | names that each come after all they depend on stay as they are |
| TopoSort.DependencyGraph | tools/scripts/tsc/generate-enums.ts:324-333 | the graph's nodes are the member names and its edges stay inside it and are never loops |
| TopoSort.EdgesAreMentions | tools/scripts/tsc/generate-enums.ts:326-333 | a member depends on a name if and only if the value of the last member of its name mentions it, it is another member's, and not its own |
| TopoSort.DependenciesInOrder | tools/scripts/tsc/generate-enums.ts:327-331 | each dependency is listed once, in the order of first mention |
| TopoSort.PermutationExact | tools/scripts/tsc/generate-enums.ts:348-350 | the result is a rearrangement of the input if and only if no name occurs twice |
| TopoSort.SecondOfANameIsLost | tools/scripts/tsc/generate-enums.ts:348-350 | two members of one name of which only the first is ever found |
| TopoSort.TopoSortMembers | tools/scripts/tsc/generate-enums.ts:323-357 | each name once; each dependency before its dependent unless it also reaches the dependent; nothing before a member unless it or a member before it in the input needs that; the input unchanged when it was in order already |
| AstBuffer.Encoder.Visit | tsc/internal/api/encoder/encoder.go:545-580 | visiting a node links the previous sibling to it and appends the pre-order layout of its whole subtree |
| AstBuffer.Encoder.VisitChildren | tsc/internal/api/encoder/encoder.go:565-577 | visiting a node's children appends the layout of all of them, each linked to the next |
| AstBuffer.Encode | tsc/internal/api/encoder/encoder.go:451-600 | the nodes written for a tree are exactly the format's layout of it |
| AstBuffer.FirstRecords | tsc/internal/api/encoder/encoder.go:581-588 | the nil record is all zeros and the root's has neither a parent nor a next sibling |
| AstBuffer.EncodedNodesArePlaced | tsc/internal/api/encoder/encoder.go:545-600 | every node of the tree has its records at the index it occurs at, under an earlier parent, and what follows its subtree belongs to a node before it |
| AstBuffer.HasChildrenExact | tools/scripts/tsc/generate-encoder.ts:1850-1856 | in every encoded tree the test of the next record's parent holds exactly for nodes with children |
| AstBuffer.CollectChildren | tsc/internal/api/encoder/decoder.go:124-142 | the walk along `next` ends and collects exactly the indices of the children, in order (the same walk as `forEachChild`) |
| AstBuffer.FollowReachesChild | tools/scripts/tsc/generate-encoder.ts:1909-1914 | following `next` n times from the first child reaches the record of the n-th child's subtree |
| AstBuffer.EncodedLinksInRange | tsc/internal/api/encoder/encoder.go:545-600 | every `next` in an encoded tree is a record of it, so no walk leaves the buffer |
| MaskBits.ZerosBelow | tools/scripts/tsc/generate-encoder.ts:1908-1908 | for all masks, order minus the table lookup on the inverted mask is the number of ones below the order |
| AstBuffer.ChildMaskNamed | packages/typescript/src/api/node/node.infrastructure.ts:160-169 | the mask is the low byte of a data word whose two top bits are clear, and all ones for any other |
| AstBuffer.PropertyMaskBits | tools/scripts/tsc/generate-encoder.ts:411-459 | a bit of the written mask is set exactly when the property is present |
| AstBuffer.PresentCount | tools/scripts/tsc/generate-encoder.ts:428-447 | the ones below a present property's bit count the children stored before it, and that child is its subtree |
| AstBuffer.GetChildAtOrder | tools/scripts/tsc/generate-encoder.ts:1872-1915 | the lookup answers nothing when the bit is clear, else the record reached by following as many links as ones lie below the bit |
| AstBuffer.GetProperty | tools/scripts/tsc/generate-encoder.ts:1872-1915 | in every encoded tree, whatever JSDoc follows, it answers nothing for an absent property and else the very record its subtree is stored at |
| AstBuffer.MasklessLookup | tools/scripts/tsc/generate-encoder.ts:1872-1914 | for a node without a mask the lookup answers the child of that number, or the nil record when there is none |
| AstBuffer.MasklessExact | tools/scripts/tsc/generate-encoder.ts:1872-1914 | that is the record the property is stored at (or nothing, when absent) if and only if the node has no children or the property and all before it are present |
| AstBuffer.MasklessLookupFails | tools/scripts/tsc/generate-encoder.ts:1908-1914 | a concrete node without a mask whose second property is there and whose lookup answers the nil record |
| AstBuffer.DecodeProperties | tools/scripts/tsc/generate-encoder.ts:952-985 | the decoder's pass gives each property with a set bit the next unused child |
| AstBuffer.DecodersAgree | tools/scripts/tsc/generate-encoder.ts:943-985 | on every encoded tree and every property of a node with two or more, the sequential pass and the bit-count lookup name the same record, the one the property is stored at |
| AstBuffer.SingleChildDecoder | tsc/internal/api/encoder/decoder.go:373-385 | on every node with one property the decoder names the reader's record if and only if the property is present or no JSDoc follows; otherwise it takes the first JSDoc comment |
| AstBuffer.CommentReadAsExpression | tools/scripts/tsc/generate-encoder.ts:873-930 | a node with an absent property and one comment: the reader finds nothing, the decoder the comment |
| NodeListCursor.RemoteNodeList.At | tools/scripts/tsc/generate-encoder.ts:1616-1647 | an index from 0 up to the length answers the record of the child at that index, a negative one down to minus the length that many from the end, every other one nothing; the cursor invariant is kept |
| NodeListCursor.RemoteNodeList.AtEach | tools/scripts/tsc/generate-encoder.ts:1616-1647 | a run of requests answers each in that way and follows exactly the computed number of links |
| NodeListCursor.ForwardAccessIsLinear | tools/scripts/tsc/generate-encoder.ts:1626-1636 | a non-decreasing run of valid indices follows, in all, as many links as its last index is beyond the cursor |
| NodeListCursor.RequestCost | tools/scripts/tsc/generate-encoder.ts:1633-1643 | one request follows the links from the cursor, or from the first element if it is for one before the cursor; the same request again follows none |
| CommonData.GetAutoEncodedLayout | tools/scripts/tsc/generate-encoder.ts:320-333 | the layout lists flags and then unions, each at the sum of the widths before it |
| CommonData.RangesDisjoint | tools/scripts/tsc/generate-encoder.ts:320-333 | the bit ranges of two members never overlap |
| CommonData.IndexFits | tools/scripts/tsc/generate-encoder.ts:134-140 | the index of every value, the absent one included, fits the ceiling-log2 width |
| CommonData.WidthNamed | tools/scripts/tsc/generate-encoder.ts:134-140 | a flag takes one bit, a union the fewest that tell its values apart, the absent one included |
| CommonData.IndexNamed | tools/scripts/tsc/generate-encoder.ts:494-511 | a set flag is 1; the i-th kind of a union is i, or i + 1 if it is optional, where absent is 0 |
| CommonData.WordNamed | tools/scripts/tsc/generate-encoder.ts:481-515 | the word is what is below, plus 2^24 times the fields each above the one before, plus 2^30 times the data type |
| CommonData.DecodersAgreeExact | tools/scripts/tsc/generate-encoder.ts:813-836 | the Go and the TypeScript decoder agree on an index if and only if it stands for a kind or the member is a flag, optional or has two kinds |
| Shifts.OrBits | tools/scripts/tsc/generate-encoder.ts:514-514 | a bit is set in the or exactly when it is in one of the two numbers |
| CommonData.EncodeIsPacked | tools/scripts/tsc/generate-encoder.ts:487-515 | the or of the shifted indices is their sum: no two fields' bits collide |
| CommonData.FieldsRead | tools/scripts/tsc/generate-encoder.ts:796-811 | every field of a packed word reads back as its index, from the word and from its six bits alike |
| CommonData.CommonDataRoundTrip | tools/scripts/tsc/generate-encoder.ts:796-841 | when the widths fit, the Go and the TypeScript decoder recover every value of every member whatever the rest of the word holds |
| CommonData.TooManyBitsLoseAValue | tools/scripts/tsc/generate-encoder.ts:487-515 | when they do not fit, some member has a value that comes back wrong |
| CommonData.RoundTripExact | tools/scripts/tsc/generate-encoder.ts:796-841 | both decoders recover all values of all members if and only if the widths add up to at most six |
| CommonData.SevenFlagsOverflow | tools/scripts/tsc/generate-encoder.ts:796-803 | seven flags of which the last reads as false from every word |
| MessageFraming.FindHeaderEnd | packages/vscode-typescript/src/extension.web.ts:435-442 | the position of the first blank line, or -1 |
| MessageFraming.HeaderEndFound | packages/vscode-typescript/src/extension.web.ts:435-442 | that position holds a blank line and none stands before it; -1 means there is none |
| HeaderFields.HeaderEndNamed | packages/vscode-typescript/src/extension.web.ts:435-442 | the position is that of the first carriage return, line feed, carriage return, line feed |
| HeaderFields.FirstFieldDeclares | packages/vscode-typescript/src/extension.web.ts:148-154 | the first line that is the name in any case of its letters, one or more digits and a line end declares the number the digits name by place |
| HeaderFields.FieldDeclares | packages/vscode-typescript/src/extension.web.ts:148-154 | so it does whatever other lines stand before and after it |
| HeaderFields.NoFieldDeclaresNothing | packages/vscode-typescript/src/extension.web.ts:149-153 | a header without such a line declares nothing |
| HeaderFields.MarkIsDropped | packages/vscode-typescript/src/extension.web.ts:148-148 | a byte order mark in front changes nothing |
| MessageFraming.ReadNext | packages/vscode-typescript/src/extension.web.ts:145-158 | what the body of the loop finds at the front of the pending bytes is the specified next step |
| MessageFraming.ReadInTwo | packages/vscode-typescript/src/extension.web.ts:143-169 | reading a part of the stream first changes neither the messages nor what is left over |
| MessageFraming.ChunkingIsInvisible | packages/vscode-typescript/src/extension.web.ts:134-170 | however the stream is cut into chunks, delivered bodies and leftover are those of one read of the whole |
| MessageFraming.StuckForever | packages/vscode-typescript/src/extension.web.ts:149-153 | after a header without a length nothing is delivered, everything is kept, and every chunk reports the error again |
| MessageFraming.StuckExact | packages/vscode-typescript/src/extension.web.ts:144-169 | no continuation makes the stream deliver another message if and only if its leftover has a header without a length |
| MessageFraming.CompletionDelivers | packages/vscode-typescript/src/extension.web.ts:146-158 | every incomplete leftover, whatever part of a header or body it is, is completed by the bytes given to a message that is delivered |
| MessageFraming.BlankLineBlocks | packages/vscode-typescript/src/extension.web.ts:149-153 | a blank line at the start of the stream: nothing is ever delivered and every chunk reports the error |
| MessageFraming.CapacityBound | packages/vscode-typescript/src/extension.web.ts:135-139 | the buffer never shrinks and never exceeds its initial size or twice the most bytes ever pending |
| ReaderGrowth.FewGrowths | packages/vscode-typescript/src/extension.web.ts:135-139 | the buffer of 4096 bytes is replaced at most as often as doubling takes to twice the most bytes ever pending |
| ReaderGrowth.GrowsOnlyIfNeeded | packages/vscode-typescript/src/extension.web.ts:135-139 | it is replaced exactly when what is pending and the chunk do not fit |
| ReaderGrowth.ErrorsExact | packages/vscode-typescript/src/extension.web.ts:149-153 | a stream has fired one error for each chunk from the one that blocked it, and none before |
| MessageFraming.NumberOfDecimal | packages/vscode-typescript/src/extension.web.ts:154-154 | reading a written decimal gives the number |
| MessageFraming.FrameStep | packages/vscode-typescript/src/extension.web.ts:181-187 | a written frame, whatever follows it, is read as exactly its body and its size |
| MessageFraming.FramesRead | packages/vscode-typescript/src/extension.web.ts:181-187 | concatenated frames are read as exactly the written bodies, in order, with nothing left |
| MessageFraming.FramesSurviveChunking | packages/vscode-typescript/src/extension.web.ts:134-189 | written frames cut anywhere deliver exactly the written bodies, in order |
| MessageFraming.WriteFrame | packages/vscode-typescript/src/extension.web.ts:181-187 | the written array is the header followed by the body |
| ReaderGrowth.FrameNamed | packages/vscode-typescript/src/extension.web.ts:182-186 | the bytes of a frame: the name, the decimal size, a blank line, the body |
| ReaderGrowth.NoLeadingZero | packages/vscode-typescript/src/extension.web.ts:183-183 | the size is written without a leading zero |
| MessageFraming.WasmMessageReader.Append | packages/vscode-typescript/src/extension.web.ts:135-141 | the chunk follows the pending bytes in a buffer grown as the program grows it |
| MessageFraming.WasmMessageReader.Deliver | packages/vscode-typescript/src/extension.web.ts:143-165 | the loop ends; it delivers the complete messages and stops where the leftover begins |
| MessageFraming.WasmMessageReader.Discard | packages/vscode-typescript/src/extension.web.ts:166-169 | exactly the consumed bytes go, the rest moves to the front |
| MessageFraming.WasmMessageReader.Accept | packages/vscode-typescript/src/extension.web.ts:134-170 | one chunk takes the reader to the specified next state, and no complete message stays pending |
| MessageFraming.AcceptAll | packages/vscode-typescript/src/extension.web.ts:134-170 | a fresh reader fed any run of chunks has delivered the bodies of the whole stream, within the capacity bound |
| ServerLifecycle.NextKeepsInv | packages/vscode-typescript/src/extension.web.ts:220-348 | every step of every factory, queued action and disposal keeps the invariant, the pause between a finished stop and the start that follows it included |
| ServerLifecycle.RunKeepsInv | packages/vscode-typescript/src/extension.web.ts:220-348 | it holds at the end of every run |
| ServerLifecycle.NoProcessIsLost | packages/vscode-typescript/src/extension.web.ts:245-263 | each process ever created is terminated, current, or held by a start short of its final staleness check |
| ServerLifecycle.OneServerAtMost | packages/vscode-typescript/src/extension.web.ts:245-263 | two unterminated processes that no start holds are the same one, the current one |
| ServerLifecycle.InstallReplacesOnlyStopped | packages/vscode-typescript/src/extension.web.ts:259-263 | only the newest start installs its process, and only over one that was told to terminate |
| ServerLifecycle.StaleStartIsHarmless | packages/vscode-typescript/src/extension.web.ts:226-262 | a stale start neither installs nor terminates anything but its own process |
| ServerLifecycle.DisposeDefeatsEarlierStarts | packages/vscode-typescript/src/extension.web.ts:338-348 | once disposing the client has completed, in every continuation every earlier start is stale and the current process is a later start's |
| ServerLifecycle.DisposeLeavesNothingRunning | packages/vscode-typescript/src/extension.web.ts:342-347 | at the end of disposing, whatever still runs is held by a stale start that will end it |
| ServerLifecycle.DisposedExtensionStopsEverything | packages/vscode-typescript/src/extension.web.ts:300-306 | after the extension is disposed and the last start is over, every process was terminated |
| ServerProgress.RestartStartsAgain | packages/vscode-typescript/src/extension.web.ts:351-356 | in every run from the start, a restart whose steps do not fail ends with the server running and a new client, whose owner is the generation and greater than every earlier owner, whether it was running before or not and whatever happens in between |
| ServerProgress.StartStarts | packages/vscode-typescript/src/extension.web.ts:312-329 | so does a start |
| ServerProgress.StopStops | packages/vscode-typescript/src/extension.web.ts:330-348 | a stop of a running server whose steps do not fail ends without client and process, and makes no owner on the way |
| ServerProgress.ActionsEnd | packages/vscode-typescript/src/extension.web.ts:311-348 | every step of a queued action brings it nearer to its end, so none goes on for ever |
| ServerProgress.ActionsProceed | packages/vscode-typescript/src/extension.web.ts:311-348 | an action under way always has a step that does not fail |
| ServerProgress.RequestsAreTaken | packages/vscode-typescript/src/extension.web.ts:312-356 | with no action under way a start is taken up with a new owner and client, a stop or restart of a running server by announcing the stop, a restart of a stopped one by starting |
| ServerProgress.AwaitsCanFail | packages/vscode-typescript/src/extension.web.ts:226-348 | every awaited call can fail: a start is taken back, a failed announcement or termination abandons the action, a failed call of a factory ends it |
| ServerProgress.OthersCanStep | packages/vscode-typescript/src/extension.web.ts:225-306 | any client ever made can ask for its server unless it waits for one, and the extension can be disposed at any time |
| ServerProgress.SomeRunServes | packages/vscode-typescript/src/extension.web.ts:220-329 | there is a run from nothing in which the first client's server is the current process and counts as running |
| ServerProgress.FailedStartIsTakenBack | packages/vscode-typescript/src/extension.web.ts:319-322 | a start that fails drops its client, and every start made so far is stale |
| ServerProgress.UnsupersededStartInstalls | packages/vscode-typescript/src/extension.web.ts:259-263 | in every run, a start that holds its process and is not stale ends with that process, created for it and not terminated, as the current one |
| ServerProgress.UnsupersededStartLeadsOn | packages/vscode-typescript/src/extension.web.ts:245-258 | as long as it is not stale, each step of a start leads to the next wait, the current process being told to terminate on the way |
| ServerProgress.StartCanFinish | packages/vscode-typescript/src/extension.web.ts:226-263 | from wherever a start that is not stale waits there is a run to the end in which a process created for it becomes the current one |
| ServerProgress.SupersededStartCreatesNothing | packages/vscode-typescript/src/extension.web.ts:245-248 | a start that is superseded before it creates its process never creates one, in any continuation |
| MountPoints.SegmentRoundTrip | packages/vscode-typescript/src/webMountPoint.ts:108-149 | decoding an encoded segment gives it back, but for a mark the decoder drops |
| MountPoints.ForceRoundTrip | packages/vscode-typescript/src/webMountPoint.ts:112-149 | the same for every forced escape, with or without its extension preserved |
| MountPoints.WasmNameRoundTrip | packages/vscode-typescript/src/webMountPoint.ts:92-94 | the name of a directory entry decodes to the entry if and only if no mark is lost |
| MountPoints.AuthorityRoundTrip | packages/vscode-typescript/src/webMountPoint.ts:36-41 | an authority's name decodes to it, is never mistaken for a missing authority, and stands as one normal segment |
| MountPoints.SegmentNamesRoundTrip | packages/vscode-typescript/src/webMountPoint.ts:43-46 | the names of all segments decode to them, drive-like first segments included, and are normal segments |
| MountPoints.UriPartsAreNamed | packages/vscode-typescript/src/webMountPoint.ts:28-43 | every URI text without NUL comes apart into parts that the theorems about mount points speak of |
| MountPoints.MountPointDecodes | packages/vscode-typescript/src/webMountPoint.ts:71-86 | decoding a mount point puts together exactly the URI's parts |
| MountPoints.NormalTextIsText | packages/vscode-typescript/src/webMountPoint.ts:67-86 | what decoding can give back is the text without query and fragment: without one slash when its path ends in one that is not the root, with one when it ends in its authority, unchanged otherwise |
| MountPoints.MountPointRoundTrip | packages/vscode-typescript/src/webMountPoint.ts:26-48 | decoding gives back that text if and only if no escaped part starts with U+FEFF |
| MountPoints.MountPointExact | packages/vscode-typescript/src/webMountPoint.ts:26-48 | two URIs (given by their parts) share a mount point if and only if they have the same scheme, the same authority or none, and the same path segments |
| MountPoints.MountPointInjective | packages/vscode-typescript/src/webMountPoint.ts:26-48 | two URIs, given by their parts, share a mount point only if they have the same normal text, even when parts imitate escapes, drives or the placeholder authority |
| MountPoints.MarkIsLost | packages/vscode-typescript/src/webMountPoint.ts:130-149 | a concrete URI text and its parts, whose mount point decodes to the text without its mark |
| MountPoints.UriToWasmMountPoint | packages/vscode-typescript/src/webMountPoint.ts:12-48 | the program's form computes the specified mount point for every URI, those of files included |
| MountPoints.FilesAreMountedApart | packages/vscode-typescript/src/webMountPoint.ts:13-24 | a file folder is mounted below the virtual folders' prefix if and only if it has no authority and its path imitates that prefix |
| MountPoints.FileMountPointsNamed | packages/vscode-typescript/src/webMountPoint.ts:13-24 | a drive's folder keeps its whole path but for the letter's case, a shared one its path behind the lower-cased host, any other rooted path is the mount point itself |
| MountPoints.LocalFoldersApart | packages/vscode-typescript/src/webMountPoint.ts:20-23 | two local folders share a mount point if and only if their paths agree up to the case of a drive letter |
| MountNames.SegmentNamed | packages/vscode-typescript/src/webMountPoint.ts:100-110 | a segment stands as it is exactly if it is not empty, not a dot segment, has no backslash and starts with none of the three marks; otherwise it is escaped whole |
| MountNames.ForceEncodeNamed | packages/vscode-typescript/src/webMountPoint.ts:112-120 | an escape is the mark, two small hexadecimal digits for each byte of the text before the extension, the end mark, the extension |
| MountNames.EntryNamed | packages/vscode-typescript/src/webMountPoint.ts:92-94 | a directory entry stands as it is or is escaped, a file's with its extension kept |
| MountNames.AuthorityNamed | packages/vscode-typescript/src/webMountPoint.ts:36-41 | an authority stands as it is or is escaped with its extension kept; a drive and the word for none are escaped whole |
| MountNames.ExtensionIsKept | packages/vscode-typescript/src/webMountPoint.ts:114-117 | the extension kept is that of the part behind the last backslash |
| MountNames.DeclarationExtension | packages/vscode-typescript/src/webMountPoint.ts:123-124 | a declaration file's extension has both parts |
| MountNames.InnerDeclarationExtension | packages/vscode-typescript/src/webMountPoint.ts:125-125 | another ".ts" file with ".d." in its name keeps all from there |
| MountNames.PlainExtension | packages/vscode-typescript/src/webMountPoint.ts:126-127 | any other extension starts at the last dot |
| MountNames.FolderMountPoint | packages/vscode-typescript/src/webMountPoint.ts:26-47 | a folder whose names stand as they are is mounted below its scheme and its authority, or the word for none, under those names |
| MountNames.UriTakenApart | packages/vscode-typescript/src/webMountPoint.ts:28-35 | a URI's text comes apart at its first colon, and its query or fragment goes |
| MountNames.AuthorityTakenApart | packages/vscode-typescript/src/webMountPoint.ts:37-42 | two slashes are followed by the authority up to the next slash or the end, and the path is behind that slash |
| MountNames.FolderTextMounted | packages/vscode-typescript/src/webMountPoint.ts:26-47 | the text of a folder's URI with an authority, whatever its suffix, is mounted under its scheme, authority and names |
| MountNames.BareFolderTextMounted | packages/vscode-typescript/src/webMountPoint.ts:26-47 | without an authority it is mounted under its scheme, the word for none and its names |
| MountNames.SlashAtEnd | packages/vscode-typescript/src/webMountPoint.ts:43-43 | a slash at the end of the path changes nothing, and the root is one empty segment |
| MountNames.DriveIsEscapedFirst | packages/vscode-typescript/src/webMountPoint.ts:43-46 | a drive is escaped where it is the first segment and nowhere else |
| MountNames.DecodeExact | packages/vscode-typescript/src/webMountPoint.ts:132-149 | a name decodes to itself if it stands as it is, to its well-formed bytes and its extension if it is an escape without a NUL, and is refused otherwise |
| MountNames.MountPathRead | packages/vscode-typescript/src/webMountPoint.ts:71-86 | a path of the prefix, a scheme, an authority and names is read from these, or refused if the scheme is empty or a name is |
| MountNames.OtherPathsAreRefused | packages/vscode-typescript/src/webMountPoint.ts:72-75 | a path without the prefix, or with nothing behind the scheme, is refused |
| Text.SuffixStartsAtMark | packages/vscode-typescript/src/webMountPoint.ts:34-35 | what is kept of a URI has neither mark and ends at one or with the text |
| MountPoints.WasmPathToUriText | packages/vscode-typescript/src/webMountPoint.ts:71-86 | the decoding loop returns what the specification returns, refusals included |
| Utf8.DecodeEncode | packages/vscode-typescript/src/webMountPoint.ts:118-142 | strict decoding inverts UTF-8 encoding |
| Utf8.DecodeExact | packages/vscode-typescript/src/webMountPoint.ts:130-146 | the strict decoder gives a text for exactly the bytes that are its encoding |
| Utf8.EncodedForm | packages/vscode-typescript/src/webMountPoint.ts:118-118 | the four forms of section 3 of RFC 3629 |
| Utf8.ParseHexOfHex | packages/vscode-typescript/src/webMountPoint.ts:118-141 | pairs of hexadecimal digits give the bytes back |
| MountNames.PairsRead | packages/vscode-typescript/src/webMountPoint.ts:138-142 | each pair of digits is one byte |
| MountNames.DigitsRead | packages/vscode-typescript/src/webMountPoint.ts:139-142 | digits are read in either case |
| OutermostMounts.ShorterCannotBeInside | packages/vscode-typescript/src/webMountPoint.ts:56-60 | sorting by raw length suffices: a mount inside a mount at least as long is at the same place |
| OutermostMounts.OutermostMountPoints | packages/vscode-typescript/src/webMountPoint.ts:55-65 | no kept mount nests in or equals another of its scheme, every input mount lies under a kept one, and what is kept was given |
| OutermostMounts.KeptAreOutermost | packages/vscode-typescript/src/webMountPoint.ts:50-54 | a kept mount lies in no given mount but one at the same place |
| OutermostMounts.LiesInExact | packages/vscode-typescript/src/webMountPoint.ts:56-60 | a mount lies in another of its scheme if and only if its folder names start with those of the other |
| OutermostMounts.SortIsStable | packages/vscode-typescript/src/webMountPoint.ts:57-57 | mounts of one length stay in the order they came in |
| TypedPaths.RootIsStable | tools/customlint/typedpaths.go:363-429 | on every branch the root is part of the path and is its own root |
| PathRoots.DriveRoot | tools/customlint/typedpaths.go:379-386 | the root of a drive is its letter, its colon and its separator, for every letter and tail |
| PathRoots.SeparatorAlone | tools/customlint/typedpaths.go:369-372 | a single separator is a root |
| PathRoots.HostRoot | tools/customlint/typedpaths.go:373-376 | two are a root with the host behind them, up to the next one or the end |
| PathRoots.CaretRoot | tools/customlint/typedpaths.go:388-401 | a caret and a slash are the root of any other name below them |
| PathRoots.UrlRootNamed | tools/customlint/typedpaths.go:403-429 | the root of a URL ends behind its authority, or, for the file scheme in any case without a host or with the local one, behind the drive and its separator, escaped or not |
| PathRoots.UrlWithoutPath | tools/customlint/typedpaths.go:407-410 | a URL without a slash behind its authority is all root |
| PathRoots.RelativeHasNoRoot | tools/customlint/typedpaths.go:403-406 | a path that starts in none of these ways has no root |
| PathRoots.UrlPathPartNamed | tools/customlint/typedpaths.go:476-494 | a URL's path part is the URL up to its query or fragment |
| PathRoots.LocalPathsAccepted | tools/customlint/typedpaths.go:451-467 | a drive, a separator or a host with joined normal names behind it is accepted |
| PathRoots.UrlPathsAccepted | tools/customlint/typedpaths.go:451-467 | so is a URL with an authority and such names |
| PathRoots.FileUrlsAccepted | tools/customlint/typedpaths.go:451-467 | so is a local file URL with a drive and such names |
| PathRoots.NamesExact | tools/customlint/typedpaths.go:451-511 | below a slash-ended root exactly such names are accepted, or nothing |
| TypedPaths.AcceptedExact | tools/customlint/typedpaths.go:451-511 | a path is accepted if and only if it has no backslash and no URL suffix and is a slash-ended root followed by joined normal segments |
| TypedPaths.DecompositionUnique | tools/customlint/typedpaths.go:451-511 | root and segments are determined by the path |
| TypedPaths.RootEndsWithSlash | tools/customlint/typedpaths.go:363-429 | a root that is not the whole path ends with a slash |
| MountPaths.MountPointIsAccepted | packages/vscode-typescript/src/webMountPoint.ts:26-48 | for every URI, given by its parts, with a folder, the mount point less its leading slash is accepted by the path lint and its root ends after the authority |
| MountPaths.AcceptedExactlyWithFolder | tools/customlint/typedpaths.go:363-511 | it is accepted if and only if the URI has a folder |
| MountPaths.BareSchemeIsRefused | tools/customlint/typedpaths.go:451-467 | the mount point of a URI that is a scheme alone is refused |
| MountPaths.DynamicRootEndsAfterAuthority | tools/customlint/typedpaths.go:388-401 | the root of a dynamic name is its prefix, scheme and authority, whatever follows |
| Preferences.Validator.FieldsOf | tools/gen-preferences/main.go:172-236 | the validator terminates on every schema, cyclic ones included, returns the specified set or error, with every name it may complain of, and restores the shared visiting set |
| Preferences.Validator.PropertiesOf | tools/gen-preferences/main.go:208-234 | the loop over a definition's own properties |
| Preferences.ValidateAll | tools/gen-preferences/main.go:172-184 | succeeds exactly when every definition passes on its own |
| ValidSchemas.ValidationExact | tools/gen-preferences/main.go:172-236 | validation accepts a definition if and only if no inheritance path below it repeats a definition, every definition it inherits from is fine on its own and none gets a preference twice; it returns exactly the preferences those definitions declare |
| ValidSchemas.SchemaAcceptedExact | tools/gen-preferences/main.go:93-98 | the generator goes on if and only if that holds of all definitions |
| ValidSchemas.ReferencesNamed | tools/gen-preferences/main.go:161-170 | a reference names a definition if and only if it is the prefix and the definition's name |
| SchemaErrors.ErrorIsTrue | tools/gen-preferences/main.go:161-236 | every error that is reported names a fault that a definition reached from the validated one has, or a circle below it |
| Preferences.ValidatedBases | tools/gen-preferences/main.go:187-207 | a definition that passed names only definitions that passed further down, which is why the unguarded recursion ends |
| Preferences.FlattenedFields | tools/gen-preferences/methods.go:19-33 | the unguarded recursion ends on every validated definition and returns the specified list |
| Preferences.FlattenedIsSound | tools/gen-preferences/methods.go:19-33 | flattened preferences have pairwise distinct names, the ones validation computed, and pairwise distinct selectors under the prefix |
| Preferences.ValidSchemaFlattens | tools/gen-preferences/methods.go:19-33 | in a schema that passed, every definition flattens without duplicates: no two preferences write one Go field |
| FlattenedSelectors.FlattenedExact | tools/gen-preferences/methods.go:19-33 | a definition flattens to exactly one preference for each inheritance path and property at its end, whose selector names the definitions on the path |
| FlattenedSelectors.OwnComeLast | tools/gen-preferences/methods.go:26-31 | a definition's own preferences come last, in their order |
| Preferences.GoNamesNamed | tools/gen-preferences/main.go:238-247 | a name's parts between dashes each get a capital, the dashes go, empty parts vanish |
| Preferences.OtherInitials | tools/gen-preferences/main.go:242-243 | any other first character stays, unless it takes several bytes |
| Preferences.PathAvoidsVisiting | tools/gen-preferences/main.go:173-180 | along every inheritance path of a definition that passed, no definition repeats |
| Preferences.CyclesAreRefused | tools/gen-preferences/main.go:173-175 | every definition on an inheritance cycle is refused |
| ShadowReach.Search.Reachable | tools/customlint/shadow.go:174-200 | the recursive search ends on every graph and keeps the shared seen set exhausted: a find comes with a live path, a failure leaves none through what it saw |
| ShadowReach.NoLivePath | tools/customlint/shadow.go:172-176 | an exhausted seen set meets no live path, so sharing it between searches loses none |
| ShadowReach.PositionIsReachable | tools/customlint/shadow.go:164-211 | reports a use exactly when a path from a successor of the first block with the identifier avoids blocks with the declaration and ends in a block with a use, and names a first use of such a block; no start block is reported exactly when there is none |
| ShadowReach.EmptyBlockHoldsNothing | tools/customlint/shadow.go:165-171 | a graph whose only block has no nodes has no start block |
| ShadowReach.BlockHoldsItsNodes | tools/customlint/shadow.go:233-242 | a block whose nodes are in source order holds every position inside any of its nodes |
| ShadowReach.UsesExact | tools/customlint/shadow.go:184-188 | a block uses the name if and only if it holds one of the positions given |
| SourceEdits.ApplyEdits | packages/typescript/scripts/generateSync.ts:200-207 | for any edits, the splices in descending order of their starts, with indices cut to the text; for disjoint ones with distinct starts, what replacing all stretches at once gives |
| SourceEdits.SplicesReplace | packages/typescript/scripts/generateSync.ts:200-207 | for disjoint edits the descending splices equal the left-to-right simultaneous replacement |
| SourceEdits.SpliceNext | packages/typescript/scripts/generateSync.ts:203-205 | one splice adds one edit to those already applied |
| SourceEdits.DescendingUnique | packages/typescript/scripts/generateSync.ts:201-201 | distinct starts leave only one descending order |
| EditOrder.SortFalls | packages/typescript/scripts/generateSync.ts:201-201 | the starts fall, whatever the edits |
| EditOrder.SortIsStable | packages/typescript/scripts/generateSync.ts:201-201 | edits with one start are applied in the order they are listed in |
| EditOrder.LastInsertionIsFirst | packages/typescript/scripts/generateSync.ts:200-207 | of two insertions at one place the one listed last comes first in the text |
| EditOrder.SlicePositionNamed | packages/typescript/scripts/generateSync.ts:204-204 | a negative index counts from the end, one beyond either end is that end |
| SourceEdits.OrderDoesNotMatter | packages/typescript/scripts/generateSync.ts:200-207 | edits with distinct starts, overlapping or not, give the same result in whatever order they are given |
| SourceEdits.NestedExact | packages/typescript/scripts/generateSync.ts:200-207 | for one outer edit with any disjoint edits nested in it and any before and after it, the result is that of the outermost edits alone if and only if the nested ones keep the length or shorten it with nothing after the outer one |
| SourceEdits.NestedShorteningExact | packages/typescript/scripts/generateSync.ts:200-207 | with any number of outer edits and nested ones in any layers that never lengthen, the result is that of the outermost edits if and only if in each the nested ones keep their length or nothing follows it |
| SourceEdits.BalancedNestingIsHarmless | packages/typescript/scripts/generateSync.ts:200-207 | with any number of outer edits, disjoint nested ones that together keep the length of each outer stretch leave the result that of the outermost edits |
| SourceEdits.NestedPromiseLosesText | packages/typescript/scripts/generateSync.ts:287-288 | the edits of a promise type inside a promise type take the semicolon behind it |
| SourceEdits.SliceCommutes | packages/typescript/scripts/generateSync.ts:355-380 | applying the shifted inner edits to a node's slice gives the matching slice of the full result |
| BatchedMethods.BatchedCallExact | packages/typescript/scripts/generateSync.ts:241-244 | a body holds a batched call if and only if it holds a `Promise.all` or calls a name known to be batched |
| BatchedMethods.PromiseAllExact | packages/typescript/scripts/generateSync.ts:241-244 | a `Promise.all` is found at every depth |
| BatchedMethods.CallsExact | packages/typescript/scripts/generateSync.ts:241-244 | so is a call of a property by its name |
| BatchedMethods.AddingIsJustified | packages/typescript/scripts/generateSync.ts:232-238 | only names with a chain of calls to a `Promise.all` are ever added |
| BatchedMethods.StableHoldsChains | packages/typescript/scripts/generateSync.ts:229-239 | once nothing changes, every such name is in |
| BatchedMethods.MarkRound | packages/typescript/scripts/generateSync.ts:231-238 | one round only adds justified names, and changes nothing only if the set is stable |
| BatchedMethods.MarkBatched | packages/typescript/scripts/generateSync.ts:229-239 | the loop marks exactly the names with such a chain and stops within one more round than there are methods |
| RestartLimiter.ReportingErrorHandler.Closed | packages/vscode-typescript/src/client.ts:650-667 | one crash updates the window and is answered as specified |
| RestartLimiter.HoldsLastCrashes | packages/vscode-typescript/src/client.ts:653-667 | the window holds exactly the last crash times: the allowance plus one for each refusal, or all of them |
| RestartLimiter.AnswerExact | packages/vscode-typescript/src/client.ts:654-667 | a crash is refused if and only if the crash that many before it lies within three minutes |
| RestartLimiter.GrantsAreSpread | packages/vscode-typescript/src/client.ts:654-667 | before the first refusal, no three-minute window holds more restarts than allowed |
| RestartLimiter.RefusalIsTrue | packages/vscode-typescript/src/client.ts:658-661 | every refusal, the first or a later one, means one more crash than allowed within three minutes |
| RestartLimiter.GrantAfterRefusals | packages/vscode-typescript/src/client.ts:654-666 | a restart after refusals means that the crash as many back as the allowance plus the refusals lies outside the three minutes |
| RestartLimiter.RefusalLoosensLimiter | packages/vscode-typescript/src/client.ts:659-665 | for every allowance, a run in which after one refusal one more crash than allowed is restarted within as many milliseconds |

## Left out

- The tokenizer of Go expressions: the parser starts from tokens, and the texts of operands are opaque to it.
- Numeric differences between Go and TypeScript constants (width, overflow, the value of `~`): values are compared for evaluators shared by both languages.
- Which identifiers a member's value mentions is given with the member; `TopoSort` starts from those lists.
- The raw little-endian words of a record, string and extended-data tables, positions, and overflow of the 32-bit node count: records are values and indices are unbounded.
- The generated iterators that skip JSDoc nodes, raw node lists, list indices that are not integers, and the cache of node objects: a node stands for its index.
- AstBuffer.DecodersAgree: covers nodes with a child mask and two or more properties, `SingleChildDecoder` those with one; the decoders of string and extended nodes are not modelled.
- AstBuffer.SingleChildDecoder: says which record is taken; where the property is a node list, a comment's record holds no list and the property reads as absent.
- Common data written by hand for single kinds, and bit masks stored as booleans.
- JSON and the decoding of message bodies: a message is its bytes. Re-entrant calls of `accept` from the callback, and listening and closing, are not modelled.
- MessageFraming.NumberOfDecimal: lengths are unbounded integers; the rounding of lengths beyond 2^53 is not modelled.
- ServerLifecycle.NoProcessIsLost: assumes that each owner has at most one server factory in flight, as the language client library does; "terminated" means told to terminate, not seen to have stopped.
- In the lifecycle a rejected promise abandons the action or the start that awaits it; what the library does while a client starts or is disposed is one step at each `await`.
- MountPoints.UriToWasmMountPoint: takes the library's lower-casing of an authority as a parameter.
- Characters are Unicode scalar values where the mount-point code has UTF-16 units, so lone surrogates do not occur; a path literal of the lint and the name of a preference are sequences of characters where Go has bytes; of a first character of several bytes a Go field name keeps the later ones, the model's only the U+FFFD.
- Canonical and relative path literals, and the matching of literals to path types.
- What the Go library calls an identifier or an exported name is a parameter, of which only "no dots" is used; what makes a property's types, parsing or tags invalid is given as the complaint it raises.
- Preferences.Validator.FieldsOf: for duplicate inherited preferences the error holds all of them; which one the program's message names depends on the order of a Go map.
- The control-flow graph, the AST that `containsBatchedCall` walks and the AST behind the edits are given, not built; how `addSyncEdit` and `addGeneratorEdit` choose edits is not modelled.
- The library's sort is a function that inserts in order, and stable as the library's is.
- SourceEdits.NestedShorteningExact: leaves open, for several outer edits whose nested ones lengthen, when two failures cancel; edits that share a start have only the meaning of their splices.
- CommonData.RoundTripExact: speaks of both decoders together; on nodes of data type 0 the TypeScript reader alone could use the two bits above.
- The user interface, settings, telemetry, file access, process spawning, code generation as text, and the constant tables.
