# Models of five Contiki cores

The project models five parts of Contiki in Dafny and proves what they are meant to do, or exactly when
they do it.

1. **Deluge** (`apps/deluge`), the dissemination of a file to many nodes. `DelugeNode` is one node: the
   object record with its handlers. `DelugeHandlers` says what they do together, and `DelugeCrc` what the checksum of
   packets detects. `DelugeProtocol` is a network of nodes that loses, duplicates and
   reorders messages; its inductive invariant gives safety over all runs. `DelugeProgress` and
   `DelugeCompletion` say what is never lost, what one request achieves, and which updates can finish.
2. **The Antelope query engine** (`apps/antelope`). `LvmCode`, `LvmAssembler`, `LvmRanges` and
   `LvmMachine` are the logic engine: prefix code, its evaluation, and the derivation of index ranges. `LvmLaws` are
   laws of its operators.
   `AqlText`, `AqlParser`, `AqlCorrect`, `AqlMeaning`, `AqlShape` and `AqlCompiler` are the compiler of WHERE
   clauses: the code is the prefix encoding of the clause, running it gives the meaning of the text, and the
   clauses that are accepted or rejected although they look otherwise. `Storage`, `InlineIndex`, `Selection`,
   `Query`, `Retrieval`, `IndexedQuery` and `Join` are rows in a file, the inline index, resumable SELECT and
   REMOVE, a whole SELECT from the derivation of ranges on, and the join coroutine. `StorageReopen` is a file that is
   opened again, `RowValues` is about values written to rows and selected by comparisons, and `JoinMap` sets up joins
   and says what they deliver in terms of tuples.
3. **The MaxHeap index** (`apps/antelope/index-maxheap.c`): `MaxHeapTree` (the ranges of the node array),
   `MaxHeapNodes` (search and insertion of ranges), `MaxHeapLayout` (where pairs are), `MaxHeapSearch`
   (what a lookup finds), `MaxHeapIndex` and `MaxHeapLookup` (the index with its bucket cache, and the
   iterator), and `MaxHeapRepeat` (an index in which a lookup misses a value).
4. **CoAP draft 12** (`apps/er-coap-12`): `CoapText` (paths and queries as several options),
   `CoapOptions` (the option format), `CoapFields`, `CoapReceive` and `CoapMessage` (packets, and the round
   trip), `CoapSerializer` and `CoapParser` (the code that writes and reads byte buffers, joining strings in
   place), `CoapUnknown` (options that the parser does not know), `CoapWire` (integers and a message as bytes),
   `CoapEndMark` (a message that does not come back), and `Blockwise` and `BlockwiseAnswers` (the sliced resource
   listing with the server's and the client's Block2 logic).
5. **tunslip** (`tools/tunslip.c`): `Checksum` (the Internet checksum of RFC 1071 and its incremental
   update), `ChecksumDetects` (what is accepted and what is refused), `Slip` and `SlipLine` (the framing of RFC 1055 at both ends of the line).

Code that updates fields or buffers in place is modelled by classes and methods over arrays, each method
proved against a function on values; the lemmas are about those functions.

## What the proofs show about the code

Most properties hold as the code and its comments promise. Where they do not, the exact condition is
proved:

- Deluge can update an outdated node if and only if the new version is 1, the object has at most 128 pages, and
  packets and profile fit the packet buffer (`DelugeCompletion.UpdatableIff`). The dispatcher multiplies the
  number of pages by the first version of a profile's vector, and so drops every profile of version 2 and more.
  A profile with one byte per page that does not fit the packet buffer beside the header of the radio stack is
  not sent. `current_tx_page` is an eight-bit signed number, so page 128 is never sent.
- A WHERE clause with a condition in parentheses is rejected unless there is a closing parenthesis too many
  (`AqlShape.ParenthesisRejected`): the last term inside takes the closing parenthesis, and the parser goes on as if
  inside the parentheses still.
- A condition that fails behind AND or OR makes parse_where return zero, which does not count as an error
  (`AqlShape.FailureAccepted`, `AqlShape.ZeroMeansFailure`).
- The range derived for a comparison with the constant on the left encloses the satisfying values only for
  equality and for a constant at the end of the long values (`LvmRanges.ConstantFirst`), and an OR of two comparisons is enclosed only if both are on the
  same variable (`LvmRanges.DisjunctionEnclosed`).
- `select_index` chooses the last suitable attribute, not the one with the smallest range, because the
  smallest range seen is never recorded (`Retrieval.SelectIndex`).
- An inline index on a column with equal values finds all rows of a value if and only if it occurs at most
  once (`InlineIndex.EqualityCoversIff`), and all rows of a range if and only if the search lands on the first row of
  the lower bound and the last of the upper one (`InlineIndex.RangeCoversIff`).
- An indexed SELECT for a single value that is absent ends in an error instead of an empty result
  (`Query.Query.FetchAll`, `Retrieval.IndexErrorMeansNoRows`).
- REMOVE drops rows whose predicate divides by zero (`Retrieval.RemoveConserves`), and copies rows completely only
  for relations with at most five attributes (`Retrieval.RemoveKeepsBytes`).
- A MaxHeap lookup misses values of a repeated key exactly when, in some bucket of the path, the key
  stands at or before the slot of a match further down (`MaxHeapLookup.LookupComplete`,
  `MaxHeapRepeat.RepeatedKeyIsMissed`).
- A CoAP message with 15 or more options is parsed with the end mark 0xF0 in front of its payload
  (`CoapMessage.RoundTripIff`, `CoapEndMark.FifteenSegments`). Proxy-Uri is read with its own number if and
  only if an option with number 6 or more stands before it (`CoapOptions.ProxyUriReadIff`).
- A blockwise transfer of the resource listing ends with the text of an error if the listing fills its last
  block and the last resource has attributes (`Blockwise.TransferIff`).
- A client that asks for blocks larger than the server's gets the whole listing if and only if it fits into one block
  of the server: blocks are placed by the size that was asked for and cut to the server's
  (`BlockwiseAnswers.CollectedIff`).
- A relation that is opened again on Coffee, which finds the end of a file at its last byte that is not zero, has the
  same rows if and only if the last byte of its last row is not ROW_XOR (`StorageReopen.ReopenedIff`).
- A number is selected by its own value if and only if it is not negative and fits its attribute
  (`RowValues.SelectedByValue`): a negative number is read back as one between 2^15 and 2^16, or 2^31 and 2^32.
- A UDP packet with one changed byte is accepted if and only if the bytes in the place of its checksum are then zero
  (`ChecksumDetects.TransportByteRefused`).
- SLIP packets come back if and only if none is empty or has 2000 bytes or more (`Slip.StreamReadIff`).

## Model

| member | source | states |
|---|---|---|
| DelugeNode.Node.constructor | apps/deluge/deluge.c:191-223 | a loaded object has all pages complete under its version |
| DelugeNode.Node.ChangeMode | apps/deluge/deluge.c:104-121 | leaving a mode stops the timers of that mode |
| DelugeNode.Node.NewRound | apps/deluge/deluge.c:672-683 | a round of the process forgets the summaries heard and starts both advertising timers |
| DelugeNode.Node.HighestAvailable | apps/deluge/deluge.c:226-237 | the number of complete pages before the first incomplete one |
| DelugeNode.Node.SendRequest | apps/deluge/deluge.c:240-266 | the request names the missing packets of the page being received; after CONST_LAMBDA requests the node gives up until it is offered pages again |
| DelugeNode.Node.AdvertiseSummary | apps/deluge/deluge.c:269-288 | a summary is sent unless enough equal ones were heard |
| DelugeNode.Node.HandleSummary | apps/deluge/deluge.c:291-344 | who offers more pages of the same version starts a request round, who is behind gets a profile |
| DelugeNode.Node.SendPage | apps/deluge/deluge.c:347-373 | exactly the wanted packets of the page go out, with their bytes and checksum |
| DelugeNode.Node.TxCallback | apps/deluge/deluge.c:376-395 | the whole node state after the transmission timer, and all packets sent |
| DelugeNode.Node.HandleRequest | apps/deluge/deluge.c:398-428 | a request for the own version and an available page is recorded; the page number is truncated to a signed byte |
| DelugeNode.Node.HandlePacket | apps/deluge/deluge.c:431-497 | a packet is kept only for the page and version being received; the last one completes the page, the last page the version |
| DelugeNode.Node.SendProfile | apps/deluge/deluge.c:500-521 | the version of every page goes out once after an outdated neighbour was heard |
| DelugeNode.Node.HandleProfile | apps/deluge/deluge.c:524-579 | a newer profile resets exactly the pages whose version it raises, and reception starts at the first incomplete one |
| DelugeNode.Node.Dispatch | apps/deluge/deluge.c:581-613 | a message is handled if it is long enough; a profile must have as many bytes as pages times its first version |
| DelugeHandlers.TwoRequests | apps/deluge/deluge.c:347-428 | two requests before a transmission: for one page, the packets that either wants are sent, and no others; for two pages, only those of the later request; none for page 128 and above |
| DelugeHandlers.AllRequestersServed | apps/deluge/deluge.c:347-428 | after any number of requests for one page, one transmission sends exactly the packets that some request wants or that were waiting |
| DelugeHandlers.RequestRefused | apps/deluge/deluge.c:398-415 | a request for another version, or for a page that does not exist or is not available, changes nothing |
| DelugeHandlers.GivesUp | apps/deluge/deluge.c:240-266 | without an answer, a node sends CONST_LAMBDA requests and returns to MAINTAIN with its pages as they were |
| DelugeHandlers.SummariesOfRound | apps/deluge/deluge.c:269-344 | a node keeps quiet in a round if and only if it heard its own summary, and sends a profile if and only if it heard an older version |
| DelugeHandlers.ProfileRenews | apps/deluge/deluge.c:524-579 | a newer profile resets the pages whose version it raises, leaves the others and the file alone, and starts at the first of them |
| DelugeCrc.AddDivides | core/lib/crc16.c:44-63 | the computation by bytes is eight steps of the division by x^16 + x^12 + x^5 + 1 |
| DelugeCrc.OneByteDetected | core/lib/crc16.c:65-75 | data with one wrong byte have another checksum |
| DelugeCrc.WrongByteRefused | apps/deluge/deluge.c:431-470 | a packet with one wrong byte is not counted as received, whatever page it is of |
| DelugeProtocol.RunKeeps | apps/deluge/deluge.c:104-579 | the invariant of the update holds after every run, whatever is lost, repeated or reordered |
| DelugeProtocol.Safety | apps/deluge/deluge.c:397-579 | in every reachable state a complete page of the new version holds the image's bytes, every packet of the new version carries them, and a node of the new version has the whole image |
| DelugeProtocol.NothingOutOfBounds | apps/deluge/deluge.c:430-497 | no message of a run leads outside the page table or the packet buffer of any node |
| DelugeProgress.NothingIsLost | apps/deluge/deluge.c:430-477 | complete pages and received packets of the current page never decrease in an update |
| DelugeProgress.FeedCollects | apps/deluge/deluge.c:430-477 | packets of one page in any order and with repetitions are collected until the page is complete |
| DelugeProgress.OneRequestCompletesThePage | apps/deluge/deluge.c:239-497 | a request served by an up-to-date node completes the page if all its packets arrive, for exactly the first 128 pages |
| DelugeCompletion.NeverStuck | apps/deluge/deluge.c:239-613 | if the new version is 1, there are at most 128 pages, and packets and profile fit, then from every reachable state an outdated node can still be brought up to date |
| DelugeCompletion.NeverUpdated | apps/deluge/deluge.c:346-613 | otherwise no run ever updates an outdated node |
| DelugeCompletion.ProfilesRefused | apps/deluge/deluge.c:603-608 | a profile of version 2 or more never makes a node start an update |
| DelugeCompletion.UpdatableIff | apps/deluge/deluge.c:239-613 | an outdated node can be updated if and only if the new version is 1, the object has at most 128 pages, and packets and profile fit the packet buffer |
| LvmMachine.Machine.JumpToOperand | apps/antelope/lvm.c:315-327 | one node is skipped, and the old position is returned for the operator |
| LvmMachine.Machine.ShiftForOperator | apps/antelope/lvm.c:330-348 | the code from a position on moves up by one node, and the end is set to the gap |
| LvmMachine.Machine.SetEndAt | apps/antelope/lvm.c:357-370 | the end is restored to a given position, and the old one is returned |
| LvmAssembler.ShiftInserts | apps/antelope/lvm.c:330-370 | shift, write and restore insert one operator before the code that was emitted since a position |
| LvmMachine.Machine.RegisterVariable | apps/antelope/lvm.c:442-460 | a name gets the first free slot of the variable table once, truncated to its length |
| LvmMachine.Machine.EvalExpr | apps/antelope/lvm.c:165-219 | the value of an arithmetic expression, with division truncating towards zero, or the error of an operand |
| LvmMachine.Machine.EvalLogic | apps/antelope/lvm.c:221-298 | the truth value of a condition; both sides are always evaluated |
| LvmMachine.Machine.Execute | apps/antelope/lvm.c:379-404 | the outcome and the final position of running the code from its start |
| LvmCode.ArgumentMeaning | apps/antelope/lvm.c:165-219 | prefix code of an expression evaluates to its number and stops behind it, or fails exactly if it divides by zero |
| LvmCode.ConditionMeaning | apps/antelope/lvm.c:221-298 | the same for the code of a predicate at any place of the code |
| LvmCode.ExecutionMeaning | apps/antelope/lvm.c:165-404 | running the prefix code of a predicate gives its truth value and ends behind it, or MATH_ERROR exactly if some divisor is zero |
| LvmLaws.RelationLaws | apps/antelope/lvm.c:280-297 | of two numbers exactly one of <, = and > holds, and <>, >= and <= are the opposites of the three |
| LvmLaws.OppositesRun | apps/antelope/lvm.c:221-298 | the codes of a comparison and of its opposite give opposite results, or both MATH_ERROR |
| LvmLaws.OneOfThreeRuns | apps/antelope/lvm.c:221-298 | without zero divisors, exactly one of the codes of e < f, e = f and e > f gives TRUE |
| LvmLaws.ConnectivesRun | apps/antelope/lvm.c:221-258 | NOT exchanges AND and OR |
| LvmLaws.NotRuns | apps/antelope/lvm.c:221-258 | the code of NOT p gives TRUE exactly if that of p gives FALSE, and an error exactly if it does |
| LvmLaws.IdentitiesRun | apps/antelope/lvm.c:195-211 | the code of the laws of addition, subtraction and multiplication gives TRUE for all operands |
| LvmLaws.DivisionTruncates | apps/antelope/lvm.c:205-211 | the value of a division is the one number whose remainder is smaller than the divisor and has the sign of the dividend |
| LvmMachine.Machine.DeriveRelation | apps/antelope/lvm.c:583-687 | the ranges that the derivation computes, and where it stops |
| LvmMachine.Machine.GetDerivedRange | apps/antelope/lvm.c:696-712 | the range of the first slot with the name, if one was derived |
| LvmRanges.DerivationOf | apps/antelope/lvm.c:583-687 | on prefix code the derivation succeeds exactly for predicates built from comparisons of a variable and a constant with AND and OR |
| LvmRanges.RangesEnclose | apps/antelope/lvm.c:496-687 | with variables on the left and equal variables in both parts of every OR, every satisfying assignment lies in the derived ranges |
| LvmRanges.ConjunctionIsItsBox | apps/antelope/lvm.c:496-537 | for conjunctions the ranges hold exactly the satisfying assignments |
| LvmRanges.DerivationEncloses | apps/antelope/lvm.c:690-694 | running the derivation on such code succeeds exactly if it can, and encloses every satisfying assignment |
| LvmRanges.ConstantFirst | apps/antelope/lvm.c:645-682 | deriving a comparison with the constant on the left succeeds, and its box encloses the satisfying assignments if and only if the relation is equality or the constant is at the end of the long values |
| LvmRanges.DisjunctionEnclosed | apps/antelope/lvm.c:540-580 | a disjunction of two comparisons is enclosed by its ranges if and only if they are on one variable |
| LvmRanges.DisjunctionLeast | apps/antelope/lvm.c:540-580 | the range of a disjunction on one variable is the least one that encloses the satisfying values |
| AqlCompiler.Compiler.Operand | apps/antelope/aql-parser.c:267-287 | the token consumed, the node emitted, and the variable registered by parse_operand |
| AqlCompiler.Compiler.Expr | apps/antelope/aql-parser.c:290-347 | the tokens consumed and the code left behind by parse_expr, for every token list |
| AqlCompiler.Compiler.Condition | apps/antelope/aql-parser.c:350-399 | the same for parse_comparison, including its rejections |
| AqlCompiler.Compiler.Where | apps/antelope/aql-parser.c:402-446 | the same for parse_where and its connectives |
| AqlCorrect.TermCompiles | apps/antelope/aql-parser.c:290-347 | a well-formed term is appended as its prefix code |
| AqlCorrect.ComparisonCompiles | apps/antelope/aql-parser.c:350-399 | a comparison is appended as its prefix code |
| AqlCorrect.ClauseCompiles | apps/antelope/aql-parser.c:290-447 | the emitted code is exactly the prefix encoding of the tree whose connectives nest to the right in the order of the text |
| AqlMeaning.WhereMeaning | apps/antelope/aql-parser.c:402-446 | compiling a clause and running the code gives the truth value of the text, or MATH_ERROR exactly if a divisor in it is zero |
| AqlShape.ParenthesisRejected | apps/antelope/aql-parser.c:290-447 | a clause with a clause in parentheses, whether it ends or goes on behind them, is a syntax error if and only if no closing parenthesis too many stands where the parser has come to |
| AqlShape.ClauseTaken | apps/antelope/aql-parser.c:402-447 | whatever has been emitted, parse_where takes a clause, and a closing parenthesis behind it |
| AqlShape.ComparisonAlike | apps/antelope/aql-parser.c:290-399 | what parse_comparison accepts and where it stops does not depend on the code emitted |
| AqlShape.FailureAccepted | apps/antelope/aql-parser.c:425-442 | a condition that fails behind a connective makes parse_where return zero, which is no error |
| AqlShape.ZeroMeansFailure | apps/antelope/aql-parser.c:425-442 | when parse_where returns zero, a condition has failed behind a connective, and it stopped there |
| Storage.VeiledTwice | apps/antelope/storage-cfs.c:403-437 | reading undoes the change of the last byte that writing makes |
| Storage.AppendAddsRow | apps/antelope/storage-cfs.c:440-490 | a stored row becomes the last row of the file, byte for byte, and all others stay |
| Storage.TupleFile.GetRow | apps/antelope/storage-cfs.c:404-437 | the row with the number is in the buffer, or DB_FINISHED beyond the last one |
| Storage.TupleFile.PutRow | apps/antelope/storage-cfs.c:441-490 | after any number of partial writes the row is in the file, or an error leaves a prefix of it; the caller's buffer is restored |
| Storage.TupleFile.GetRowAmount | apps/antelope/storage-cfs.c:493-509 | the number of whole rows in the file |
| StorageReopen.FileEnd | core/cfs/cfs-coffee.c:502-534 | the end of a file is behind its last byte that is not zero |
| StorageReopen.ReopenedIff | apps/antelope/storage-cfs.c:467-470 | a relation that is opened again has the same rows if and only if the last byte of its last row is not ROW_XOR |
| StorageReopen.AppendedIsLast | apps/antelope/storage-cfs.c:440-490 | a row that was appended is the last one in this sense |
| InlineIndex.BinarySearch | apps/antelope/index-inline.c:103-151 | in a column that never decreases the search ends at the target or next to where it would be; the exact form reports precisely the absent values |
| InlineIndex.LandingNearest | apps/antelope/index-inline.c:124-143 | the place where the search ends holds the target, or is the last row below it or the first above it |
| InlineIndex.RangeSearch | apps/antelope/index-inline.c:153-181 | the ends of a range of values, or an error exactly for a single absent value |
| InlineIndex.VisitedCovers | apps/antelope/index-inline.c:201-227 | at most one visited row at each end is outside the range, and every row in the range is visited if the values at its bounds occur at most once |
| InlineIndex.EqualityCoversIff | apps/antelope/index-inline.c:103-227 | an equality search visits every row with the value if and only if the value occurs at most once |
| InlineIndex.RangeCoversIff | apps/antelope/index-inline.c:103-227 | a range search visits every row in the range if and only if it lands on the first row of the lower bound and the last of the upper one |
| InlineIndex.EqualValuesAreMissed | apps/antelope/index-inline.c:103-151 | the search for the value of three equal rows lands on the middle one, and two are missed |
| InlineIndex.Iterator.GetNext | apps/antelope/index-inline.c:201-227 | the next visited row, or the end of the iteration |
| Selection.ResultsConcat | apps/antelope/relation.c:734-845 | rows are selected one by one: the results of two parts are the results of the whole |
| Selection.Overwritten | apps/antelope/relation.c:760-800 | what the variable table held for one row does not show in the next |
| Query.Query.ProcessAttributes | apps/antelope/relation.c:770-800 | the variable table holds the row's attributes and the result row its stored columns |
| Query.Query.Process | apps/antelope/relation.c:734-845 | one call looks at one more row, of the relation or of the index, and delivers it exactly if its predicate has the wanted outcome |
| Query.Query.FetchAll | apps/antelope/relation.c:713-845 | repeated calls deliver the projections of the accepted rows in order and store the same rows in the result relation |
| Retrieval.SelectIndex | apps/antelope/relation.c:630-672 | the last indexed attribute with a derived range is chosen, or none if there is none |
| Retrieval.AcceptedIsInRange | apps/antelope/relation.c:734-760 | a row that satisfies the predicate has its index value in the derived range |
| Retrieval.IndexedEqualsScan | apps/antelope/relation.c:630-845 | the rows that the inline index visits deliver the same results in the same order as a scan of the relation |
| IndexedQuery.Select | apps/antelope/relation.c:630-845 | from the derivation of ranges over the choice of an index to the last call: the accepted rows are delivered in order, whatever indexes there are |
| Retrieval.IndexErrorMeansNoRows | apps/antelope/relation.c:734-760 | when the index reports that a value is absent, a scan delivers nothing |
| Retrieval.RemoveKeepsBytes | apps/antelope/relation.c:675-732 | REMOVE writes a row back byte for byte if and only if the relation has at most five attributes |
| Retrieval.RemoveStores | apps/antelope/relation.c:713-845 | the rows written by REMOVE are exactly those whose predicate is false, in order |
| Retrieval.RowsArePartitioned | apps/antelope/relation.c:734-845 | every row is selected, or kept by REMOVE, or meets a division by zero, with multiplicities |
| Retrieval.RemoveConserves | apps/antelope/relation.c:713-845 | selected and kept rows together are all rows if and only if no predicate divides by zero |
| RowValues.ValueToPhy | apps/antelope/result.c:117-146 | the bytes of the number are in their place and nothing else changed |
| RowValues.PhysicalRead | apps/antelope/result.c:117-146 | a number that was written is read back by the query if and only if it is not negative and fits |
| RowValues.SlotHoldsValue | apps/antelope/relation.c:786-801 | the number written at the place of an attribute is in the variable of the attribute, modulo its size |
| RowValues.SelectedByRelation | apps/antelope/relation.c:786-845 | the row is selected by a comparison of the attribute with a constant exactly if it holds of the number written, modulo the size of the attribute |
| RowValues.SelectedByValue | apps/antelope/relation.c:786-845 | a number that fits is found by `attribute = w` for exactly that w; one that does not fit is not found by its own value |
| RowValues.AttributeDelivered | apps/antelope/relation.c:803-813 | every stored attribute has its own bytes in the delivered row, behind the stored attributes before it |
| RowValues.OppositeRows | apps/antelope/relation.c:816-845 | the rows that a comparison selects are those that REMOVE keeps with its opposite, in order, and the other way round |
| RowValues.OppositesDivideRows | apps/antelope/relation.c:816-845 | without zero divisors, the queries for a comparison and its opposite select every row once between them |
| Join.Process.Assemble | apps/antelope/relation.c:1026-1036 | the result row is the concatenation of the mapped attributes of the two rows |
| Join.AttributeJoined | apps/antelope/relation.c:1030-1044 | every attribute of the joined row has the bytes of its place in the left or the right row, behind the attributes before it |
| Join.Process.Next | apps/antelope/relation.c:962-1056 | one call delivers the first of what is left, wherever the last call left the loops, or the error that comes first; every attribute of a delivered row has the bytes of its place in the left row in the buffer or in a row of the right relation; after the end the join starts anew |
| Join.Process.FetchAll | apps/antelope/relation.c:962-1056 | repeated calls deliver all items of the join in order and store them, or stop at the first fault |
| Join.JoinIsNestedLoop | apps/antelope/relation.c:962-1056 | with an index that yields matching rows in order, the join is the nested loop over both relations, row for row |
| Join.JoinIsNestedLoopUpToOrder | apps/antelope/relation.c:962-1056 | with an index that yields each matching row once in any order, the join delivers the same rows |
| Join.SameGroup | apps/antelope/relation.c:979-1052 | in that case the rows of every left row are the same, so that the order is still by left row |
| Join.EqualRows | apps/antelope/index-inline.c:201-227 | the calls of get_next for a value yield exactly the matching rows if and only if the value occurs at most once |
| JoinMap.AttributeFind | apps/antelope/relation.c:118-129 | the first attribute with the name |
| JoinMap.AttributeValueOffset | apps/antelope/relation.c:131-147 | the bytes in front of the attribute, or -1 |
| JoinMap.GenerateJoinResult | apps/antelope/relation.c:1057-1107 | every attribute of the result is mapped to its bytes in the left row, or in the right row if the left relation does not have it; DB_NAME_ERROR exactly if neither has one of them |
| JoinMap.RelationJoin | apps/antelope/relation.c:1109-1191 | the join is refused exactly for a missing attribute or a missing index; otherwise the map fits both relations and fills the result row |
| JoinMap.JoinedValues | apps/antelope/relation.c:1030-1107 | the joined row of two stored tuples is the stored form of the tuple of projected values |
| JoinMap.JoinIsEquijoin | apps/antelope/relation.c:962-1191 | the calls deliver the equi-join: for every pair of tuples with equal numbers in the join attribute, in order, the projected values of both |
| JoinMap.JoinHasEquijoinRows | apps/antelope/relation.c:962-1191 | with an index in another order they deliver the same rows |
| MaxHeapTree.SpanWidth | apps/antelope/index-maxheap.c:416-445 | a range on level l has width 65536/2^l, so no node that is in use looks empty |
| MaxHeapTree.ChildrenPartition | apps/antelope/index-maxheap.c:416-445 | the ranges of the two children partition the range of their parent |
| MaxHeapTree.OnPath | apps/antelope/index-maxheap.c:262-292 | the nodes whose range holds a hash value are exactly one place per level |
| MaxHeapTree.SplitKeepsShape | apps/antelope/index-maxheap.c:416-445 | after a split the nodes are still a binary tree with the ranges of their places |
| MaxHeapNodes.NodeFile.HeapInsert | apps/antelope/index-maxheap.c:225-260 | the scan puts a child's range at the child's place, or finds no room exactly on the last level |
| MaxHeapNodes.NodeFile.HeapFind | apps/antelope/index-maxheap.c:262-292 | the search finds the usable node of the next level on the path, if there is one |
| MaxHeapNodes.NodeFile.BucketSplit | apps/antelope/index-maxheap.c:416-445 | both children are created, or none if they exist already |
| MaxHeapIndex.MaxHeap.BucketAppend | apps/antelope/index-maxheap.c:394-414 | a pair is written behind the others of its bucket unless the bucket is full; the invariants stay |
| MaxHeapIndex.MaxHeap.InsertItem | apps/antelope/index-maxheap.c:447-492 | an insertion keeps the tree and the layout, adds exactly its pair, and fails exactly if all eight usable buckets on the path are full |
| MaxHeapIndex.MaxHeap.Load | apps/antelope/index-maxheap.c:330-392 | loading a bucket keeps the index and never changes a slot count; an up-to-date cache stays so |
| MaxHeapSearch.ChainFinds | apps/antelope/index-maxheap.c:709-737 | the search through the buckets of a path finds only values that are there, and all exactly if their slots descend along the path |
| MaxHeapRepeat.RepeatedKeyIsMissed | apps/antelope/index-maxheap.c:709-737 | an index with one key in the first slots of the full root bucket and of the bucket below: a lookup yields one of its two values |
| MaxHeapSearch.BagIsValues | apps/antelope/index-maxheap.c:447-492 | the buckets on the path of a key hold exactly the values inserted under it |
| MaxHeapLookup.KeyIterator.SearchKey | apps/antelope/index-maxheap.c:692-737 | one search step for a key: the next value, or none; a value returned was inserted under the key, or is zero under key zero |
| MaxHeapLookup.KeyIterator.GetNext | apps/antelope/index-maxheap.c:668-750 | each call yields the next value of the range of keys; what it yields was inserted under the key even if the cached bucket is out of date or another iterator was used |
| MaxHeapLookup.KeyIterator.FetchAll | apps/antelope/index-maxheap.c:668-750 | all calls together yield the values found for the keys of the range, key by key |
| MaxHeapLookup.LookupComplete | apps/antelope/index-maxheap.c:668-750 | a lookup yields a part of the values inserted under its key, and all of them if and only if the slots descend along the path |
| MaxHeapLookup.LookupOnce | apps/antelope/index-maxheap.c:668-750 | a key inserted at most once is found exactly as often as it was inserted |
| MaxHeapLookup.RangeOnce | apps/antelope/index-maxheap.c:739-750 | an emulated range query over such keys yields the values of its keys in the order of the keys |
| CoapText.SplitMerge | apps/er-coap-12/er-coap-12.c:191-265 | splitting a string into options and merging them gives it back if and only if it has no separator in front and every cut is followed by a character other than a slash |
| CoapText.PathSurvives | apps/er-coap-12/er-coap-12.c:191-265 | a path survives if and only if it has no empty segment |
| CoapText.QuerySurvives | apps/er-coap-12/er-coap-12.c:191-265 | a query survives if it has no empty segment and no slash after a separator |
| CoapText.SlashInQueryIsLost | apps/er-coap-12/er-coap-12.c:229 | a slash after the separator of a query is lost |
| CoapOptions.ExtensionRead | apps/er-coap-12/er-coap-12.c:511-521 | the chained length bytes are added up to the length they were made of |
| CoapOptions.OneReadIff | apps/er-coap-12/er-coap-12.c:129-165 | any option is read with its value, and with its number if and only if the jump was counted as it is read, which it is for differences below 30 |
| CoapOptions.OneReadFrom | apps/er-coap-12/er-coap-12.c:484-523 | the same when writer and reader have come to different numbers |
| CoapOptions.ProxyUriReadIff | apps/er-coap-12/er-coap-12.c:129-165 | Proxy-Uri, with any value, is read with its number if and only if an option with number 6 or more stands before it |
| CoapFields.IntRead | apps/er-coap-12/er-coap-12.c:84-96 | an integer without leading zero bytes is parsed to itself |
| CoapWire.ParseIntIsNetwork | apps/er-coap-12/er-coap-12.c:84-96 | integers are read in network order, modulo 2^32 |
| CoapWire.IntBytesAreNetwork | apps/er-coap-12/er-coap-12.c:168-189 | integers are written in network order without leading zeros |
| CoapWire.RequestBytes | apps/er-coap-12/er-coap-12.c:340-408 | the bytes of a request with path, query, token and block as section 3 of the draft lays them out |
| CoapFields.BlockRead | apps/er-coap-12/er-coap-12.h:299-312 | block number, more bit and size come back, and the offset is number times size |
| CoapFields.FieldRead | apps/er-coap-12/er-coap-12.h:260-312 | every sendable value of a field is rebuilt from the options it is sent as |
| CoapFields.AcceptKeepsFirst | apps/er-coap-12/er-coap-12.c:588-595 | of many Accept options the first two are kept |
| CoapFields.LastCounts | apps/er-coap-12/er-coap-12.c:515-635 | of several integers, byte arrays or blocks with one number the last one counts |
| CoapFields.ArrayKeepsFirst | apps/er-coap-12/er-coap-12.c:532-609 | a token, an entity tag or a condition keeps its first eight bytes |
| CoapReceive.ReceiveEncoded | apps/er-coap-12/er-coap-12.c:470-650 | the parser's loop takes over exactly the encoded options with the numbers as they are read, known or not, and stops behind the last one, at the end mark, or where one is refused |
| CoapReceive.NearRead | apps/er-coap-12/er-coap-12.c:484-510 | options less than 30 apart are read with their own numbers |
| CoapMessage.ReceiveMessage | apps/er-coap-12/er-coap-12.c:470-652 | all options of a serialized packet are received, whatever follows in memory |
| CoapMessage.RoundTrip | apps/er-coap-12/er-coap-12.c:339-668 | parsing a serialized message gives back header, options and values, with the end mark of 15 or more options left in front of the payload, which is cut to a chunk |
| CoapMessage.RoundTripIff | apps/er-coap-12/er-coap-12.c:339-668 | the packet itself comes back if and only if it has at most 14 options and its payload fits a chunk, or its payload is a full chunk of end marks |
| CoapEndMark.FifteenSegments | apps/er-coap-12/er-coap-12.c:478-482 | a path of 15 segments makes a message whose payload is parsed with 0xF0 in front |
| CoapUnknown.UnknownAsRead | apps/er-coap-12/er-coap-12.c:470-650 | any message is rejected with 4.02 if and only if among its options, as they are read, an unknown one with an odd number stands before any Proxy-Uri, with 5.05 if and only if a Proxy-Uri stands before any such option, and is parsed otherwise |
| CoapUnknown.UnknownOptions | apps/er-coap-12/er-coap-12.c:470-650 | with options less than 30 apart, their own numbers decide |
| CoapUnknown.UnknownIgnored | apps/er-coap-12/er-coap-12.c:640-648 | a message with unknown options that are not critical is parsed to the same header and fields as the message without them |
| CoapUnknown.TakeOutcomes | apps/er-coap-12/er-coap-12.c:527-648 | which options refuse a list of options, and with which code |
| CoapUnknown.OtherVersions | apps/er-coap-12/er-coap-12.c:436-447 | a datagram is rejected with 4.00 exactly if its version is not 1 |
| CoapSerializer.SetOptionHeader | apps/er-coap-12/er-coap-12.c:100-127 | the header bytes for any difference and length are in the buffer, and nothing else changed |
| CoapSerializer.InsertOptionJump | apps/er-coap-12/er-coap-12.c:129-165 | the jump bytes and the number they lead to |
| CoapSerializer.SerializeInt | apps/er-coap-12/er-coap-12.c:168-189 | the option is in the buffer although its header is written after its value |
| CoapSerializer.WriteParts | apps/er-coap-12/er-coap-12.c:200-234 | the loop over the characters writes exactly the segments of the string |
| CoapSerializer.SerializeArray | apps/er-coap-12/er-coap-12.c:193-242 | the encoded options of a string, and their number |
| CoapSerializer.SerializeOptions | apps/er-coap-12/er-coap-12.c:352-371 | all options in the order of their numbers, and their number |
| CoapSerializer.SerializeMessage | apps/er-coap-12/er-coap-12.c:340-408 | the buffer holds the message, or zero is returned for a header over 70 bytes |
| CoapParser.JoinedHolds | apps/er-coap-12/er-coap-12.c:244-265 | joining a value to a string in the buffer changes no byte that has not been parsed and no other string |
| CoapParser.Parser.NextOption | apps/er-coap-12/er-coap-12.c:484-523 | number, place and length of the option at the current position |
| CoapParser.Parser.GrowString | apps/er-coap-12/er-coap-12.c:244-265 | the string in place has grown by separator and value, and the bytes behind the option are unchanged |
| CoapParser.Parser.TakeOption | apps/er-coap-12/er-coap-12.c:527-648 | the packet after one option, or the code that refuses it |
| CoapParser.Parser.ParseOptions | apps/er-coap-12/er-coap-12.c:470-650 | the in-place loop gives the options of the message as it was received |
| CoapParser.ParseMessage | apps/er-coap-12/er-coap-12.c:426-668 | header, options, strings and payload after parsing in place are those of the message as it was received |
| Blockwise.Printer.Print | apps/er-coap-12/er-coap-12-engine.c:409-420 | the part of a string that falls into the window is in the buffer |
| Blockwise.Printer.PrintResource | apps/er-coap-12/er-coap-12-engine.c:387-459 | when printing stops, and what the buffer shows then |
| Blockwise.WellKnownCore | apps/er-coap-12/er-coap-12-engine.c:307-481 | the payload is the slice of the listing at the offset, and the new offset is -1 exactly if the listing ends there |
| Blockwise.Serve | apps/er-coap-12/er-coap-12-engine.c:139-198 | the answer to a block request: number, more bit and slice, or an error beyond the end |
| BlockwiseAnswers.AnsweredWithBlock | apps/er-coap-12/er-coap-12-engine.c:139-198 | a request for a block of a size that the server can send is answered with that block of the listing and the right more bit, or with an error behind the last one |
| BlockwiseAnswers.FirstAnswer | apps/er-coap-12/er-coap-12-engine.c:139-198 | the first answer is the first block, whatever size was asked for |
| BlockwiseAnswers.CutBlock | apps/er-coap-12/er-coap-12-engine.c:139-198 | a larger block is cut to the server's size, at the place of the size that was asked for |
| BlockwiseAnswers.CollectedIff | apps/er-coap-12/er-coap-12-engine.c:139-198 | a client that asks for all blocks by their size gets the listing if and only if the server sends that size or the listing fits into one block of the server |
| Blockwise.BlockingRequest | apps/er-coap-12/er-coap-12-engine.c:515-581 | the callback gets blocks 0, 1, 2 and so on without gap or repeat; if no answer is lost, they are the blocks of the listing, with an error text behind it exactly if it overshoots |
| Blockwise.ConcatBlocks | apps/er-coap-12/er-coap-12-engine.c:515-581 | the blocks of a string put together are the string |
| Blockwise.TransferIff | apps/er-coap-12/er-coap-12-engine.c:387-581 | the chunks are the listing if and only if it does not fill its last block with a resource that has attributes |
| Checksum.SumIsFold | tools/tunslip.c:343-361 | ip4sum is the sum of the words modulo 65535 |
| Checksum.SumComposes | tools/tunslip.c:343-361 | sums of pieces of even length can be continued |
| Checksum.SumPassesIff | tools/tunslip.c:364-412 | a sum passes the check if and only if the words add up to a multiple of 65535 |
| Checksum.Ip4Sum | tools/tunslip.c:343-361 | the loop computes the sum of the bytes at its pointer |
| Checksum.CheckIp | tools/tunslip.c:364-412 | the verdict on the packet at the start of the memory |
| ChecksumDetects.AcceptedIff | tools/tunslip.c:364-412 | a packet is accepted if and only if version and length are right and header and transport part add up to multiples of 65535, where UDP may do without |
| ChecksumDetects.HeaderByteRefused | tools/tunslip.c:364-412 | one changed byte of the header behind its first is refused, with the code for the length or the header sum |
| ChecksumDetects.TransportByteRefused | tools/tunslip.c:364-412 | one changed byte behind the header is refused for ICMP and TCP, and for UDP if and only if the packet then has a checksum that is not zero |
| Checksum.UpdateBalances | tools/tunslip.c:642-650 | the new checksum makes up for the new identification in either byte order of the host |
| Checksum.RenumberedAccepted | tools/tunslip.c:636-655 | an accepted packet with a header of at least five words is accepted with its new identification |
| Checksum.FillChecksums | tools/tunslip.c:301-327 | the two checksum fields of a DHCP reply are filled so that check_ip accepts it |
| Slip.RunCut | tools/tunslip.c:454-584 | reading on after a cut gives what reading without it gives |
| Slip.EndOnlyAtEnd | tools/tunslip.c:660-680 | no frame has the end byte inside, and it has at most twice the bytes of the packet |
| Slip.UnknownEscape | tools/tunslip.c:561-580 | an escape byte before another byte than the two substitutes is dropped, and the byte is kept |
| Slip.StreamRead | tools/tunslip.c:471-584 | the frames of non-empty packets below 2000 bytes are read as the packets |
| Slip.StreamReadIff | tools/tunslip.c:471-584 | packets come back if and only if none is empty or as long as the buffer |
| Slip.CutStreamRead | tools/tunslip.c:561-580 | however the stream is cut, also right after an escape byte, the same packets are found |
| SlipLine.SlipWriter.Flush | tools/tunslip.c:605-624 | partial writes lose and repeat nothing |
| SlipLine.SlipWriter.Renumber | tools/tunslip.c:642-650 | identification and checksum are rewritten in place for exactly the packets that need it |
| SlipLine.SlipWriter.WriteToSerial | tools/tunslip.c:627-680 | an accepted packet with a regular header is never dropped by the second check, and its frame is appended to the output |
| SlipLine.SlipReader.SerialToTun | tools/tunslip.c:454-584 | one call reads all bytes that have arrived, and puts an escape byte at the end back |
| SlipLine.LineDelivers | tools/tunslip.c:454-680 | accepted packets framed one after another and read in any pieces are written out unchanged and in order |

## Left out

- Input and output, clocks, timers, processes, the network and file systems: timers fire at any time, files
  are byte sequences, and a lost answer or a partial write happens at any time.
- Debug printing, shell commands, serial devices and the code around the five parts.
- Deluge: several overlapping updates, objects whose number of pages changes, corrupted packets, and a
  partial last page. Unicast messages may reach any node. Bit masks are sets of positions.
- Deluge: a request for a page beyond the page table reads memory that is not modelled; it is a parameter of
  the request. The layers below say only which messages fit; sizes of structures are those with 16-bit
  alignment.
- DelugeNode.Node.HandleSummary: the comparison of the last request and data with the clock is a parameter.
- DelugeNode.Node.HandleProfile: a profile with another number of pages, which resizes the object.
- The logic engine: positions count nodes instead of bytes; arithmetic is on unbounded integers, and `int` and `long`
  have one width; the variable tables have as many slots as the loops assume.
- LvmMachine.Machine.ShiftForOperator: its test for free space counts nodes, where the program counts the bytes of
  the operator without its node type.
- The AQL parser: everything but WHERE clauses, and the lexer's text. parse_select demands the end of the statement
  behind the clause.
- The AQL parser: strings and floating-point literals are accepted as operands for which nothing is emitted, as the
  code does; clauses with them have no stated meaning.
- AqlCompiler.Compiler.Operand: does not model the attribute that is added to the query for processing.
- Operator chains without parentheses and parentheses on the left of an operator: the code they compile to is
  modelled by the parser functions, but has no stated meaning.
- Storage.TupleFile.PutRow: a write that takes no byte, which the program repeats for ever.
- Relations: the list of relations, renaming files, and errors of reading files.
- Query.Query.Process: aggregation, and queries without a predicate.
- Query.Query.FetchAll: aggregation, and queries without a predicate.
- REMOVE with an index.
- InlineIndex.BinarySearch: a search below the first value or in an empty relation, where the program's unsigned
  maximum wraps around and it reads rows that do not exist.
- InlineIndex.RangeSearch: bounds below the first value, for the same reason.
- InlineIndex.Iterator.GetNext: bounds below the first value, for the same reason.
- Join: the index is known by what its iterator yields.
- JoinMap.RelationJoin: creating the result relation, which fails when there is no memory; attributes marked as invalid,
  which no code of the program does.
- RowValues.ValueToPhy: strings.
- StorageReopen.FileEnd: an area without a byte of the file, which ends in the header.
- MaxHeap: reloading an index from its files, failing storage, and several indexes at a time.
- MaxHeapLookup.KeyIterator.GetNext: which values come in which order is stated only for a cached bucket that is up to date
  and for one iterator at a time, because otherwise the code repeats or misses values.
- CoAP: the other draft versions, the functions that set and get single fields, transactions and
  observers.
- CoAP: the fields of a packet are a map from option number to value.
- CoapUnknown.UnknownIgnored: options 30 and more above the one before, which are read with other numbers, as
  CoapUnknown.UnknownAsRead takes into account.
- CoapSerializer.SerializeMessage: needs a buffer for the whole message; the program writes options before it
  checks the length of the header.
- CoapParser.Parser.TakeOption: option numbers of 40 and more, for which the program's bitmap has no room, are ordinary
  members of a set.
- CoapParser.ParseMessage: reading or writing outside the buffer is one outcome, without what it does.
- CoAP option numbers do not wrap around at 32 bits, which a datagram cannot reach.
- Proxy-Uri in the round trip: it is refused by the parser.
- Blockwise.WellKnownCore: link-format filtering.
- Blockwise.Serve: Block1, resources other than the listing, and the size in the Block2 option of the answer.
- tunslip: copying options into replies, and address commands on the line.
- Slip.RunCut: the variant that skips the length test for the first byte of a call.
- SlipLine.SlipReader.SerialToTun: the same variant, address commands, and relaying DHCP requests.
- SlipLine.LineDelivers: relaying, which takes accepted DHCP requests off the line.
- Checksum.CheckIp: a transport part beyond the memory is one outcome, without what is read there.
