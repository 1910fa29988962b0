# Quickstep: verified models of six components

A Dafny model of parts of the Quickstep database, with proofs. `dafny verify dfyconfig.toml`
checks the whole project.

- **Compression dictionary** (`MemoryBytes`, `CodeWidth`, `ValueOrder`, `DictionaryLayout`,
  `DictionaryBuilder`, `DictionaryReader`, `DictionaryQueries`, `DictionaryRun`, `IntColumn`). The builder collects
  distinct values with insert and undo, keeps its counters incrementally, sorts, and writes bytes. The
  reader opens those bytes and turns codes into values, values into codes, and comparisons into code
  ranges. Proved: for every run of inserts and undos the opened dictionary lists exactly what is left in
  the builder; decoding undoes encoding; searching the bytes for a value gives the builder's code for it;
  both sides agree on sizes and widths; and filtering a column by code range equals filtering its values,
  for equality with exactly the exception named below.
- **Command-line reader** (`CommandAutomaton`, `CommandGrammar`, `CommandSplit`, `LineReader`,
  `LineReaderCommands`). The scanner jumps over a growing buffer in seven states and forgets white space
  that is left on the last line of a command. Proved: each call returns what an automaton finds that reads
  the text one character at a time; the automaton finds exactly the commands of a grammar of strings,
  strings with escapes, comments and dot lines; and over whole sessions the commands are, up to white
  space before them, those of the automaton started again after each, exactly if no forgotten vertical
  tab or form feed stands before a dot or backslash command.
- **Block locator** (`BlockLocator`, `BlockLocatorReaders`). A message loop over two mutually inverse
  indexes, with lookups that take two locks. Proved: what every message log leaves behind, and what a
  lookup can return in any interleaving.
- **Partition routing** (`RangePartition`, `HashPartition`). Binary search over lexicographic
  boundaries; bit mask against modulus.
- **Catalog** (`CatalogDatabase`, `CatalogRelationSchema`, `CatalogDatabaseCache`). Relations in an id
  vector with holes and a name map; incrementally cached layout data; a cache that updates in two phases.
- **Network request hand-off** (`RequestHandOff`). Producers, consumer and shutdown, in all
  interleavings (safety only).

## How the model stands to the code

- Values are byte strings of at least one byte. A type gives their sizes and a strict total order that
  agrees with equality. A probe of another type is known only by how stored values compare with it.
- Words are little-endian. 32-bit and 64-bit wrap-around is written out where it can occur. The shift
  `1u << code_length_bits_` is a power of two; `EntryCountIsSmall` proves that its 32-bit form is always
  defined.
- `LOG(FATAL)`, exceptions and error returns are outcomes. `DCHECK`s on arguments are preconditions.
- The standard library's searches, sort and `substr` are written out; the order in which a hash table
  yields its keys is left open, and `ListingIsUnique` shows that it does not matter.
- Locked regions are atomic steps. The input source of the command-line reader is the sequence of lines
  it will still give, each ending in its only newline, as the interface demands; the text is shorter than
  2^64 characters. For `LineReaderBuffered`, which puts a whole text into the leftover, no such demand is
  made on the leftover.
- The scanner's loop body is split into functions and a method per kind of step; branches and their order
  are those of the source.

Where the code does not do what its documentation says, the model follows the code:

- *Undo* is said to remove the last entry added. After an insert of NULL that succeeds and another of
  NULL that fails it does not (`UndoTakesBackLastInsert`, `RepeatedNullUndoesTheWrongEntry`).
- The *size check* for fixed-length dictionaries is said to reject too little memory, but it rejects too
  much (`FixedLengthInBoundsIffExact`, `HeaderAlonePassesSizeCheck`).
- The *equality range* for a probe of another type holds one code, also where several stored values equal
  the probe, such as the INTs 16777216 and 16777217 and the FLOAT 16777216.0
  (`GetLimitCodesForComparison`, `FloatEqualsTwoInts`).
- A *leftover with a newline before a dot or backslash command* is cut at that newline. Without the debug
  check there, the call returns nothing, or the command that it leaves over as well (`GetNextCommand`,
  `HiddenNewlineExample`, `CommandTwiceExample`).
- The rest of the line after a command is *cleared* if it is white space, which is said to matter only for
  the positions in error messages. White space includes vertical tabs and form feeds, which otherwise keep
  a dot or backslash from beginning a command, so `;\v\n.x\n` gives two commands where the text without
  clearing has one (`SplitsAgree`, `VerticalTabExample`).
- *Domain ids* are 16-bit; without debug checks they wrap, and a second worker's address is lost
  (`IdsAscendUpToLimit`, `IdsDistinctUpToWrap`, `IdsWrapExample`, `IdsRepeatExample`).
- With no partitioning attributes, `lessThan` is true of two empty tuples (`LessThan`).

## Model

| member | source | states |
|---|---|---|
| MemoryBytes.ReadsBackUint32 | compression/CompressionDictionaryBuilder.cpp:85-88 | a 32-bit word written to memory is read back unchanged |
| CodeWidth.CodeWidthIsLeast | compression/CompressionDictionaryLite.hpp:84-92 | the code width is the least number of bits (at least one) that gives every entry a code |
| CodeWidth.CodesFit | compression/CompressionDictionaryBuilder.hpp:87-95 | every code fits in the code width and in the width padded to 1, 2 or 4 bytes |
| CodeWidth.PaddedIsLeast | compression/CompressionDictionaryBuilder.hpp:87-95 | the padded width is the least of 1, 2 and 4 bytes that holds the code width |
| CodeWidth.ReaderCodeWidth | compression/CompressionDictionaryLite.cpp:50-54 | the shift loop gives the least sufficient width from two codes on, 0 for one code and 32 for none |
| ValueOrder.RankOfListed | compression/CompressionDictionaryBuilder.cpp:104-110 | the position of a value in sorted order is the number of smaller values |
| ValueOrder.ListingIsUnique | compression/CompressionDictionaryBuilder.cpp:92-104 | the sorted listing does not depend on the order in which the hash table yields its keys |
| ValueOrder.SortValues | compression/CompressionDictionaryBuilder.cpp:104 | sorting yields the ascending listing of exactly the given values |
| ValueOrder.ListingConservesSize | compression/CompressionDictionaryBuilder.cpp:175 | sorting conserves the total number of value bytes |
| ValueOrder.ByteLimitBoundsCount | compression/CompressionDictionaryBuilder.cpp:139-180 | fewer than 2^31 distinct values fit in 2^32 - 1 bytes |
| DictionaryLayout.ValueSlice | compression/CompressionDictionaryBuilder.cpp:44-66 | each value's bytes stand in the value region right after those of the smaller values |
| DictionaryLayout.OffsetSlice | compression/CompressionDictionaryBuilder.cpp:53-66 | the offset word of a value is the number of value bytes before it |
| DictionaryLayout.CopyFixedLengthValuesToLocation | compression/CompressionDictionaryBuilder.cpp:44-51 | the loop overwrites exactly the bytes of the concatenated values |
| DictionaryLayout.CopyVariableLengthValuesToLocation | compression/CompressionDictionaryBuilder.cpp:53-66 | the loop overwrites exactly offsets and values, and its 32-bit offset never wraps |
| DictionaryBuilder.DuplicatesKeepEntries | compression/CompressionDictionaryBuilder.cpp:126-136 | failed inserts change nothing but that one of NULL clears the mark that NULL came last |
| DictionaryBuilder.UndoTakesBackLastInsert | compression/CompressionDictionaryBuilder.hpp:187-192 | undo restores the contents before the last successful insert, whatever failed inserts came between, if and only if that insert was not of NULL followed by a failed one of NULL |
| DictionaryBuilder.InsertAndUndo | compression/CompressionDictionaryBuilder.cpp:121-205 | on the builder: a new value, then values already in, then undo; contents, entry count, code width and total byte size are all as before if and only if this was not NULL tried twice |
| DictionaryBuilder.RepeatedNullUndoesTheWrongEntry | compression/CompressionDictionaryBuilder.cpp:126-135 | a value, NULL and NULL again, then undo: the value is gone and NULL is still there |
| DictionaryBuilder.IncrementalWidthIsLeast | compression/CompressionDictionaryBuilder.cpp:131-174 | the incrementally kept width is the least sufficient one, and every code fits in it and in its padded form |
| DictionaryBuilder.EntryCountIsSmall | compression/CompressionDictionaryBuilder.cpp:131-143 | within the byte limit there are fewer than 2^31 entries, so the 32-bit shift is defined and the entry-count limit is never reached |
| DictionaryBuilder.CompressionDictionaryBuilder.constructor | compression/CompressionDictionaryBuilder.cpp:70-82 | a new builder is valid and empty |
| DictionaryBuilder.CompressionDictionaryBuilder.InsertEntry | compression/CompressionDictionaryBuilder.cpp:121-183 | reports whether the value was there, fails exactly when the bytes exceed 32 bits, otherwise adds the value and keeps every counter right |
| DictionaryBuilder.CompressionDictionaryBuilder.UndoLastInsert | compression/CompressionDictionaryBuilder.cpp:185-205 | takes out what was marked as inserted last and keeps every counter right |
| DictionaryBuilder.CompressionDictionaryBuilder.CountOneMore | compression/CompressionDictionaryBuilder.cpp:171-174 | one more entry, and the width that belongs to the new count |
| DictionaryBuilder.CompressionDictionaryBuilder.CountOneLess | compression/CompressionDictionaryBuilder.cpp:198-204 | one entry less, and the width that belongs to the new count |
| DictionaryBuilder.CompressionDictionaryBuilder.SizeIsLayoutSize | compression/CompressionDictionaryBuilder.hpp:103-110 | the reported size is the number of bytes of the layout, without 32-bit wrap-around |
| DictionaryBuilder.CompressionDictionaryBuilder.GetCodeForValue | compression/CompressionDictionaryBuilder.hpp:135-143 | after the build the code of a value is its rank, and NULL comes after all values |
| DictionaryBuilder.CompressionDictionaryBuilder.BuildDictionary | compression/CompressionDictionaryBuilder.cpp:84-119 | writes exactly the reported number of bytes, namely header, offsets and sorted values, touches nothing else, and gives every value its rank as code |
| DictionaryReader.Open | compression/CompressionDictionaryLite.cpp:34-80 | opens exactly if the size check passes, with the number of codes (NULL counted), the code width and the start of the value region |
| DictionaryReader.LayoutHolds | compression/CompressionDictionaryLite.hpp:39-51 | header words, offsets and value bytes read from a written layout are those of the sorted values |
| DictionaryReader.FixedLengthDecodes | compression/CompressionDictionaryLite.hpp:260-270 | decoding a code of a fixed-length dictionary stays in memory and gives the value of that rank |
| DictionaryReader.VariableLengthDecodes | compression/CompressionDictionaryLite.hpp:272-290 | decoding a code of a variable-length dictionary, the last one included, stays in memory and gives the value of that rank |
| DictionaryReader.LayoutIsReadable | compression/CompressionDictionaryLite.hpp:53-57 | a reader on a written layout maps code i to the i-th smallest value and the code after the last to NULL if NULL is in |
| DictionaryReader.LayoutPassesSizeCheck | compression/CompressionDictionaryLite.cpp:56-75 | memory of exactly the written size passes the size check, for both kinds of type |
| DictionaryReader.SizeCheckIsLeastLayout | compression/CompressionDictionaryLite.cpp:56-75 | the size compared with is that of the layout of as many values of the least size |
| DictionaryReader.ParanoidOffsetsCheck | compression/CompressionDictionaryLite.cpp:85-101 | the check passes if and only if all offsets ascend strictly and point into memory and the start of the value region has not wrapped to 0 |
| DictionaryReader.LayoutPassesOffsetCheck | compression/CompressionDictionaryLite.cpp:85-101 | every written layout passes the offset check |
| DictionaryReader.CheckedOffsetsStayInBounds | compression/CompressionDictionaryLite.cpp:56-67 | any variable-length memory that passes both checks can be decoded without leaving it, and no value is empty |
| DictionaryReader.FixedLengthInBoundsIffExact | compression/CompressionDictionaryLite.cpp:69-75 | fixed-length memory that passes the size check can be decoded throughout if and only if it holds all values whose code is not that of NULL; with the NULL code after the values, if and only if its size is exact |
| DictionaryReader.HeaderAlonePassesSizeCheck | compression/CompressionDictionaryLite.cpp:69-75 | a bare header announcing one value passes the size check, and decoding that value leaves memory |
| DictionaryQueries.SameTypeIsComparable | compression/CompressionDictionary.hpp:111-121 | a value of the dictionary's own type is a lawful probe |
| DictionaryQueries.ComparisonsAgree | compression/CompressionDictionary.cpp:209-238 | for every lawful probe a stored value is exactly one of less, equal and greater, and the other three comparisons are the unions of two of these |
| DictionaryQueries.OwnTypeComparisons | compression/CompressionDictionary.cpp:209-238 | for a value of the dictionary's own type the six comparisons are those of the type's order and equality, and none holds of NULL or against it |
| DictionaryQueries.LowerBound | compression/CompressionDictionary.cpp:307-328 | binary search over decoded values finds how many come before the probe |
| DictionaryQueries.UpperBound | compression/CompressionDictionary.cpp:335-355 | binary search over decoded values finds how many do not come after the probe |
| DictionaryQueries.GetLowerBoundCode | compression/CompressionDictionary.cpp:330-333 | the first code whose value is not less than the probe; past the last value the number of codes, which counts NULL unless told to ignore it |
| DictionaryQueries.GetCodeForUntypedValue | compression/CompressionDictionary.cpp:183-199 | the first code whose value equals the probe, the number of codes if there is none, the NULL code for NULL |
| DictionaryQueries.GetCodeForDifferentTypedValue | compression/CompressionDictionary.cpp:243-262 | the same for a probe of another type |
| DictionaryQueries.OwnTypeCodeIsRank | compression/CompressionDictionaryBuilder.hpp:124-134 | the reader's search finds the same code as the builder's hash lookup, and the number of codes for absent values |
| DictionaryQueries.GetLimitCodesForComparison | compression/CompressionDictionary.cpp:201-241 | a code is in the returned range if and only if its value is not NULL and satisfies the comparison; for equality exactly when at most one stored value equals the probe; "not equal" is fatal |
| DictionaryQueries.OwnTypeAtMostOneEqual | compression/CompressionDictionary.cpp:211-216 | a probe of the dictionary's own type equals at most one stored value |
| DictionaryQueries.FilterColumn | compression/CompressionDictionary.hpp:197-207 | filtering any column by the range returned for a comparison keeps exactly the rows whose values satisfy it; for equality if and only if every row equal to the probe has the first code that is |
| IntColumn.IntTypeIsOrdered | types/operations/comparisons/ComparisonUtil.hpp:248-251 | four-byte integers in signed order are an ordered type |
| IntColumn.FloatEqualsTwoInts | types/operations/comparisons/ComparisonUtil.hpp:256-258 | the FLOAT 16777216.0 is a lawful probe of INT columns that equals 16777216 and 16777217; in every dictionary of these two no range of at most one code is exact for equality |
| DictionaryQueries.FilterCommutes | compression/CompressionDictionary.hpp:197-207 | selecting a column's codes by a sound range and decompressing equals decompressing and comparing values if and only if the range misses no code of the column |
| DictionaryQueries.OpenBuilt | compression/CompressionDictionaryLite.cpp:34-80 | opening what was written for sorted values succeeds, gives them back, and passes the offset check |
| DictionaryQueries.BuildAndOpen | compression/CompressionDictionaryBuilder.hpp:145-152 | building into memory of the reported size and opening it: every inserted value decodes from the builder's code for it, and both sides agree on the number of codes and, from two on, on their width |
| DictionaryRun.RunBuilder | compression/CompressionDictionaryBuilder.cpp:121-205 | any legal run of inserts and undos succeeds if and only if the values fit the byte limit after every prefix, and leaves what the run says |
| DictionaryRun.InsertInRun | compression/CompressionDictionaryBuilder.cpp:121-183 | after any run one more insert adds that value and nothing else |
| DictionaryRun.UndoInRun | compression/CompressionDictionaryBuilder.cpp:185-205 | after any run an insert of a new value followed by undo leaves the contents as they were |
| DictionaryRun.DictionaryOfRun | compression/CompressionDictionaryBuilder.cpp:84-205 | after every legal run there is a dictionary if and only if the values always fitted, and built and opened it lists exactly what is left |
| DictionaryRun.LookUpAfterRun | compression/CompressionDictionaryBuilder.hpp:124-143 | after every legal run the reader's search for a value gives the code the builder's hash table has for it, or the number of codes if the value is not there |
| CommandAutomaton.EndIsFirstDone | cli/LineReader.hpp:56-61 | the first command of a text ends where the automaton first says so |
| CommandAutomaton.CharacterClasses | cli/LineReader.cpp:146-148 | white space, punctuation and blanks, character by character |
| CommandGrammar.PiecesPass | cli/LineReader.cpp:98-212 | after any well-formed sequence of characters, strings, strings with escapes and comments the automaton is in plain SQL and remembers just what the last characters say |
| CommandGrammar.SqlCommandEnds | cli/LineReader.cpp:102-110 | a semicolon after any such sequence ends the command, whatever follows |
| CommandGrammar.DotCommandEnds | cli/LineReader.cpp:173-228 | blanks, a dot or backslash and its line are a command, whatever follows |
| CommandGrammar.EndIffCommand | cli/LineReader.hpp:56-61 | a command ends at a position if and only if the text up to it is one by the grammar, so no other is ever found |
| CommandGrammar.EscapeStringEnds | cli/LineReader.cpp:141-156 | in a string after a letter E neither semicolons nor escaped characters, quotes included, end anything |
| CommandGrammar.StringEnds | cli/LineReader.cpp:111-120 | in a plain string nothing but its own quote ends anything |
| CommandGrammar.LineCommentEnds | cli/LineReader.cpp:121-140 | in a comment nothing but the newline ends anything |
| CommandGrammar.EscapedQuoteExample | cli/LineReader.cpp:187-202 | a string with an escaped quote and a semicolon, followed by a semicolon, is one command |
| CommandAutomaton.SkipSql | cli/LineReader.cpp:55-59 | characters without special meaning leave the automaton in plain SQL, with what it remembers given by the text alone |
| CommandAutomaton.SkipQuoted | cli/LineReader.cpp:60-82 | inside quotes nothing but the quote (and the escape character) matters |
| CommandAutomaton.SkipToNewline | cli/LineReader.cpp:83-87 | in comments and commands nothing but the newline matters |
| CommandSplit.ShownIs | cli/LineReader.cpp:110-228 | the command returned is all the text up to the semicolon, or from the dot or backslash to the end of its line |
| LineReaderCommands.NextCommandIsFirst | cli/LineReader.hpp:56-71 | the reference of a call returns the one beginning of the text that is a command by the grammar, or nothing if there is none |
| LineReader.SqlMoveAgrees | cli/LineReader.cpp:98-186 | at every special character of plain SQL the scanner does what the automaton does, with one character of look-ahead |
| LineReader.NestedMoveAgrees | cli/LineReader.cpp:187-212 | at every special character of a quote or comment the scanner does what the automaton does |
| LineReader.RunsOut | cli/LineReader.cpp:90-95 | at the end of the buffer the scanner either goes on in the next line in the same state or there is no further command |
| LineReader.MovesOn | cli/LineReader.cpp:96-212 | each jump ends the command where the automaton does or keeps scanner and automaton together |
| LineReader.CommandFinishes | cli/LineReader.cpp:213-228 | the newline found ends the dot or backslash command, unless the leftover hides a newline before it |
| LineReader.EarlyCommandDiffers | cli/LineReader.cpp:176-177 | with a hidden newline the call leaves behind another rest than the reference |
| LineReader.EarlyCommandOutcome | cli/LineReader.cpp:213-228 | with a hidden newline the call returns nothing if the command follows the newline at once, otherwise all from the command on, and leaves over what follows the newline |
| LineReader.HiddenNewlineExample | cli/LineReader.cpp:223-227 | an empty line before a dot command in one leftover: the reference finds the command, the call returns the empty string |
| LineReader.CommandTwiceExample | cli/LineReader.cpp:223-227 | a blank after the newline: the call returns the command and leaves it over, and the next call returns it once more |
| LineReader.LineReader.GetMoreInput | cli/LineReader.cpp:235-248 | appends the next line, or reports the end of input; a blank first line does not switch to the continuation prompt |
| LineReader.LineReader.TakeCommand | cli/LineReader.cpp:213-228 | returns and leaves behind what the reference does if and only if no newline is hidden before the command, and states what it does otherwise |
| LineReader.LineReader.ScanTurn | cli/LineReader.cpp:52-232 | one turn of the loop returns the reference's command or gets further in the text |
| LineReader.LineReader.GetNextCommand | cli/LineReader.cpp:34-233 | command, leftover and remaining input are those of the one-character-at-a-time reference if and only if the leftover does not hide a newline before a dot or backslash command, and are stated otherwise, too; every call terminates |
| LineReader.AdvanceIsRest | cli/LineReader.cpp:104-110 | what a call leaves behind is the text after the command, without the rest of its line if that is white space |
| LineReader.CallTakesOneCommand | cli/LineReader.hpp:64-71 | on lines of input one call takes exactly the first command off the text |
| LineReader.LineReader.ReadSession | cli/LineReader.hpp:56-71 | the commands returned until the input ends are exactly those of the text read with clearing, and equal those of the plain automaton up to white space before them if and only if no command end is followed by a cleared vertical tab or form feed and then a dot or backslash |
| CommandSplit.CommandBegins | cli/LineReader.cpp:173-178 | the automaton takes a dot or backslash for a command only after nothing but blanks |
| CommandSplit.SpaceShiftsState | cli/LineReader.cpp:105-109 | white space before a text moves the automaton's states along, unless it holds a vertical tab or form feed and a dot or backslash comes next |
| CommandSplit.SpaceKeepsSplit | cli/LineReader.cpp:105-109 | such white space changes the plain split only by white space before the first command |
| CommandSplit.ObstacleChangesSplit | cli/LineReader.cpp:107-109 | otherwise the commands found with and without clearing are never the same |
| CommandSplit.SplitsAgree | cli/LineReader.cpp:104-109 | over every text of lines, clearing finds the commands of the plain split up to white space before them if and only if no such obstacle is cleared |
| CommandSplit.VerticalTabExample | cli/LineReader.cpp:107-109 | a text of two commands with clearing and of one without |
| BlockLocator.HeldIffLastIsAdd | query_execution/BlockLocator.cpp:82-157 | after every log a domain is listed for a block if and only if, of the messages that add or remove it there, the last is an add |
| BlockLocator.AddressesAre | query_execution/BlockLocator.cpp:137-173 | after every log a domain has an address if and only if its id was given out and not unregistered since, and it is that of the registration which found the id free |
| BlockLocator.ShiftbossIsFirst | query_execution/BlockLocator.cpp:70-81 | after every log a domain's Shiftboss index is the first it was given |
| BlockLocator.RepliesAre | query_execution/BlockLocator.cpp:165-215 | in every log a registration is answered with its number modulo 2^16, a request for addresses with those recorded so far, and nothing else is answered |
| BlockLocator.HandledIsBeforePoison | query_execution/BlockLocator.cpp:158-160 | the messages handled are all those before the first poison message |
| BlockLocator.IssuedAre | query_execution/BlockLocator.cpp:165-173 | there are as many ids handed out as registrations in the log, and they are 1, 2, 3, ... modulo 2^16, whatever else is in the log |
| BlockLocator.IdsAscendUpToLimit | query_execution/BlockLocator.cpp:165-170 | ids ascend if and only if the log has at most 65535 registrations, which is the debug limit |
| BlockLocator.IdsDistinctUpToWrap | query_execution/BlockLocator.cpp:165-170 | no id is reused, after unregistration or not, if and only if the log has at most 65536 registrations |
| BlockLocator.IdsWrapExample | query_execution/BlockLocator.cpp:165-170 | the last of 65536 registrations gets id 0, below the one before it |
| BlockLocator.IdsRepeatExample | query_execution/BlockLocator.cpp:165-170 | the last of 65537 registrations gets the id of the first, whose address stays recorded under it |
| BlockLocator.EvictionKeepsInverse | query_execution/BlockLocator.cpp:145-153 | erasing a domain from the sets of just its own blocks erases it everywhere |
| BlockLocator.BlockLocator.constructor | query_execution/BlockLocator.hpp:62-66 | the locator starts with nothing registered and inverse indexes |
| BlockLocator.BlockLocator.Process | query_execution/BlockLocator.cpp:62-161 | one message changes the relation of blocks and domains, the addresses and the Shiftboss map as stated, replies accordingly, and keeps the indexes inverse |
| BlockLocator.BlockLocator.AddLocation | query_execution/BlockLocator.cpp:82-105 | adds the pair to both indexes; the two insertions always agree on whether it was new |
| BlockLocator.BlockLocator.DeleteLocation | query_execution/BlockLocator.cpp:106-132 | removes the pair from both indexes |
| BlockLocator.BlockLocator.EvictDomain | query_execution/BlockLocator.cpp:145-153 | removes all pairs of the domain and no others |
| BlockLocator.BlockLocator.RegisterDomain | query_execution/BlockLocator.cpp:165-173 | counts up, records the address if the id is free, and replies with the id |
| BlockLocator.BlockLocator.Run | query_execution/BlockLocator.cpp:48-163 | the loop handles the messages up to the first poison message, state and replies included |
| BlockLocator.BlockLocator.GetBlockDomains | query_execution/BlockLocator.hpp:102-114 | exactly the domains that hold the block |
| BlockLocator.BlockLocator.GetBlockLocalityInfo | query_execution/BlockLocator.hpp:125-144 | finds an index if and only if some domain of a valid block has one, and then one of those |
| BlockLocatorReaders.ShiftbossIsPermanent | query_execution/BlockLocator.cpp:70-81 | in every execution a recorded Shiftboss index is never overwritten or removed |
| BlockLocatorReaders.ReaderHistory | query_execution/BlockLocator.hpp:125-140 | the domains a reader holds are those of its block at the reader's latest first read, and its answer comes from a second read after that |
| BlockLocatorReaders.AnswerIsPermanentShiftboss | query_execution/BlockLocator.hpp:125-144 | in every interleaving a returned index is for good that of a domain which held the block at the first read of that very lookup |
| BlockLocatorReaders.NoAnswerMeansNone | query_execution/BlockLocator.hpp:125-144 | in every interleaving a lookup that finds nothing read domains of which none had an index at its second read |
| RangePartition.LexIrreflexive | catalog/PartitionSchemeHeader.hpp:363-368 | no tuple is less than itself |
| RangePartition.LexIsFirstDifference | catalog/PartitionSchemeHeader.hpp:363-368 | a tuple is less than another if and only if it is less at the first place where they differ |
| RangePartition.LexTransitive | catalog/PartitionSchemeHeader.hpp:363-368 | the lexicographic order is transitive |
| RangePartition.LexTotal | catalog/PartitionSchemeHeader.hpp:363-368 | any two tuples are equal or one is less |
| RangePartition.LessThan | catalog/PartitionSchemeHeader.hpp:369-386 | the loop decides the lexicographic order for at least one attribute, and says true for none |
| RangePartition.CheckPartitionRangeBoundaries | catalog/PartitionSchemeHeader.hpp:351-361 | comparing neighbours decides whether all boundaries have the right size and ascend |
| RangePartition.GetPartitionId | catalog/PartitionSchemeHeader.hpp:315-334 | the partition is the number of boundaries not greater than the tuple |
| RangePartition.PartitionsTile | catalog/PartitionSchemeHeader.hpp:271-278 | a tuple lies in exactly one partition's half-open interval, the one it is routed to |
| RangePartition.BoundaryGoesUp | catalog/PartitionSchemeHeader.hpp:271-278 | a boundary tuple belongs to the partition above it |
| RangePartition.RoutingIsMonotone | catalog/PartitionSchemeHeader.hpp:315-334 | a greater tuple is never routed to a lower partition |
| HashPartition.TestIsExact | catalog/PartitionSchemeHeader.hpp:188-192 | the bit test holds exactly of the powers of two |
| HashPartition.MaskIsModulo | catalog/PartitionSchemeHeader.hpp:208-210 | masking with 2^k - 1 is the remainder modulo 2^k |
| HashPartition.RoutingIsModulo | catalog/PartitionSchemeHeader.hpp:207-214 | every path gives the hash modulo the number of partitions |
| CatalogDatabase.NamesCountSlots | catalog/CatalogDatabase.hpp:360-363 | there are as many names as live slots |
| CatalogDatabase.ToLowerIdentifies | utility/StringUtil.cpp:49-53 | lower-case names are equal if and only if the names differ at most in capital and small letters |
| CatalogDatabase.RunEvolves | catalog/CatalogDatabase.cpp:100-137 | over any run of adds and drops, failing or not, slots are only appended or emptied |
| CatalogDatabase.RunKeepsIdsAndNames | catalog/CatalogDatabase.cpp:100-137 | after any run each relation sits in the slot of its id and no two live ones share a name up to case |
| CatalogDatabase.IdsAreNeverReused | catalog/CatalogDatabase.cpp:109-113 | over any run of adds and drops an id once given out never stands for another relation |
| CatalogDatabase.LiveIffAddedAndKept | catalog/CatalogDatabase.cpp:100-137 | after every run the relations there, with their ids, are exactly those added and not dropped since, by id or by name in any case |
| CatalogDatabase.RunOperations | catalog/CatalogDatabase.cpp:100-137 | performing any run on an empty database gives the slots that the run is defined to give, with names and ids consistent |
| CatalogDatabase.SlotInProto | catalog/CatalogDatabase.cpp:139-152 | where each slot, hole or relation, is found in the serialized form |
| CatalogDatabase.ProtoDeterminesSlots | catalog/CatalogDatabase.cpp:59-78 | two databases with the same serialized relations and holes have the same slots |
| CatalogDatabase.CatalogDatabase.constructor | catalog/CatalogDatabase.hpp:158-163 | a new database is empty and consistent |
| CatalogDatabase.CatalogDatabase.AddRelation | catalog/CatalogDatabase.cpp:100-116 | collides exactly if a live name differs at most in capital and small letters, overflows exactly past the largest id, otherwise appends the relation with its slot as id |
| CatalogDatabase.CatalogDatabase.DropRelationByName | catalog/CatalogDatabase.cpp:118-127 | empties the one live slot whose name differs at most in capital and small letters, or reports that there is none |
| CatalogDatabase.CatalogDatabase.DropRelationById | catalog/CatalogDatabase.cpp:129-137 | empties that slot, or reports that it is not live |
| CatalogDatabase.CatalogDatabase.GetRelationByName | catalog/CatalogDatabase.cpp:80-88 | finds the live relation whose name differs at most in capital and small letters, if there is one |
| CatalogDatabase.CatalogDatabase.Size | catalog/CatalogDatabase.hpp:360-363 | the size of the name map is the number of live slots |
| CatalogDatabase.CatalogDatabase.GetProto | catalog/CatalogDatabase.cpp:139-152 | the loop lists live relations and holes in order |
| CatalogDatabase.CatalogDatabase.FromProto | catalog/CatalogDatabase.cpp:59-78 | rebuilding from the serialized form of any valid database gives back its slots, holes and ids |
| CatalogDatabase.CatalogDatabase.RestoreSlot | catalog/CatalogDatabase.cpp:67-77 | one turn of the rebuilding loop restores the next slot |
| CatalogRelationSchema.LayoutTiles | catalog/CatalogRelationSchema.cpp:146-171 | attributes laid out by a measure cover every position below the total exactly once |
| CatalogRelationSchema.FixedSlotsTile | catalog/CatalogRelationSchema.hpp:328-342 | every byte below the fixed length lies in the slot of exactly one fixed-length attribute |
| CatalogRelationSchema.TotalsMean | catalog/CatalogRelationSchema.cpp:146-171 | each restricted total is the plain total over just the variable-length, fixed-length, nullable or non-nullable attributes |
| CatalogRelationSchema.TotalsSplit | catalog/CatalogRelationSchema.hpp:241-326 | for types with sound sizes each total is its fixed part plus its variable part, and the estimate lies between the extremes |
| CatalogRelationSchema.NumbersAreUsedOnce | catalog/CatalogRelationSchema.hpp:362-374 | an index array numbers its attributes 0, 1, 2, ... in id order, each number once |
| CatalogRelationSchema.OffsetsOneMore | catalog/CatalogRelationSchema.cpp:156-161 | resizing the offsets with the old fixed length keeps every offset the sum of the fixed lengths before it |
| CatalogRelationSchema.CatalogRelationSchema.constructor | catalog/CatalogRelationSchema.hpp:440-460 | a schema without attributes has matching caches |
| CatalogRelationSchema.CatalogRelationSchema.AddAttribute | catalog/CatalogRelationSchema.cpp:132-181 | appends the attribute with the next id and keeps every cached total and index equal to its recomputation |
| CatalogRelationSchema.CatalogRelationSchema.AccountFor | catalog/CatalogRelationSchema.cpp:146-169 | each total grows by what the type contributes to it |
| CatalogRelationSchema.CatalogRelationSchema.UpdateVariableLengthIndex | catalog/CatalogRelationSchema.cpp:146-161 | numbers of variable-length attributes and offsets of fixed-length ones stay right |
| CatalogRelationSchema.CatalogRelationSchema.UpdateNullableIndex | catalog/CatalogRelationSchema.cpp:166-171 | numbers of nullable attributes stay right |
| CatalogRelationSchema.CatalogRelationSchema.UpdateMaxByteLengths | catalog/CatalogRelationSchema.cpp:173-177 | the vector of lengths ends with the new attribute, also if it was sized beforehand |
| CatalogRelationSchema.CatalogRelationSchema.FromProto | catalog/CatalogRelationSchema.cpp:43-73 | rebuilding from the attributes of a schema gives the same attributes and matching caches |
| CatalogDatabaseCache.MissingAreIndices | catalog/CatalogDatabaseCache.cpp:67-79 | the first phase collects exactly the positions of relations that are not in the cache |
| CatalogDatabaseCache.InstallingAdds | catalog/CatalogDatabaseCache.cpp:81-86 | the second phase adds just the collected relations and replaces none |
| CatalogDatabaseCache.InstalledIsFirst | catalog/CatalogDatabaseCache.cpp:82-86 | each schema that is new is that of the first collected relation with its id |
| CatalogDatabaseCache.FirstCollectedIsFirst | catalog/CatalogDatabaseCache.cpp:70-78 | the first collected relation with an id is the first of the whole message |
| CatalogDatabaseCache.CatalogDatabaseCache.CollectMissing | catalog/CatalogDatabaseCache.cpp:67-79 | the loop under the shared lock |
| CatalogDatabaseCache.CatalogDatabaseCache.Install | catalog/CatalogDatabaseCache.cpp:81-86 | the loop under the exclusive lock |
| CatalogDatabaseCache.CatalogDatabaseCache.DropRelationById | catalog/CatalogDatabaseCache.cpp:97-105 | the relation is gone, whether it was there or not |
| CatalogDatabaseCache.InstalledStays | catalog/CatalogDatabaseCache.cpp:62-105 | in every interleaving an installed schema stays and is not replaced until it is dropped |
| CatalogDatabaseCache.CachedSchemaIsFirst | catalog/CatalogDatabaseCache.cpp:62-105 | in every interleaving each cached schema is that of the first relation with its id in the message of the update that installed it, and was not dropped since |
| CatalogDatabaseCache.WritePhaseIsEnabled | catalog/CatalogDatabaseCache.cpp:82-84 | in every interleaving the collected positions are positions of the message |
| CatalogDatabaseCache.CompletedUpdateIsPresent | catalog/CatalogDatabaseCache.cpp:62-95 | in every interleaving a completed update leaves its relations present unless one that its first phase found is gone when its second phase starts |
| RequestHandOff.StepKeepsInv | cli/NetworkIO.hpp:152-202 | every step of producer, consumer and shutdown keeps each request in one place |
| RequestHandOff.InExactlyOnePlace | cli/NetworkIO.hpp:152-221 | in every interleaving an accepted request is exactly one of queued, in service, being canceled, answered or canceled, and a rejected one is none |
| RequestHandOff.OutcomeIsFinal | cli/NetworkIO.hpp:70-95 | once the response is ready the producer reads the same outcome ever after |
| RequestHandOff.OutcomeIsWhatHappened | cli/NetworkIO.hpp:70-118 | in every interleaving a request reads as answered if and only if it was answered, and as canceled if and only if a shutdown canceled it |
| RequestHandOff.CompletedAtMostOnce | cli/NetworkIO.hpp:192-221 | no request is answered twice, canceled twice, or both |
| RequestHandOff.FirstComeFirstOut | cli/NetworkIO.hpp:163-187 | the requests taken so far followed by the queued ones are the accepted ones in order: none is lost or overtaken |
| RequestHandOff.StoppedQueueOnlyDrains | cli/NetworkIO.hpp:157-168 | once the service has stopped nothing enters the queue; later queues are tails of it |
| RequestHandOff.QueueEmptyAfterKill | cli/NetworkIO.hpp:192-202 | once a shutdown has returned the queue is and stays empty |

## Left out

- Concrete types, literals, hashing and out-of-line storage of values: a type is its sizes and its order.
- Values of size zero, and orders that disagree with the hash table's equality (such as negative zero).
- The accessors for 8-bit and 16-bit codes repeat the 32-bit one; that codes fit is proved.
- Whether a probe's type is subsumed by the dictionary's is a parameter of the range lookup.
- NULL among the partitioning values of a tuple, and the random partition scheme.
- Serialization of partition scheme headers: a field-by-field copy.
- Range routing with a single partition reads before the first boundary in the source; the model requires two.
- The map from attribute names to attributes of a schema.
- CatalogRelationSchema.CatalogRelationSchema.FromProto: takes no gaps; an uninitialized attribute fails the validity check at the head of the constructor (catalog/CatalogRelationSchema.cpp:61-63, catalog/CatalogAttribute.cpp:37-40), and the empty slot it leaves without that check is not modelled.
- The pointers from relations to their database, and relation objects shared by map and vector: relations are values.
- LineReader.LineReader.GetNextCommand: prompts and history of the concrete readers, and input that breaks the one-newline-per-line contract, are not modelled.
- Liveness of the request hand-off: a shutdown may wait forever if the consumer takes the request it has seen.
- The texts of requests and responses, gRPC, protocol buffers, the message bus, locks and logging.
- Query optimizer, parser, storage, expressions, operators and scheduling.
