# lr-gateway: models and proofs

This project models the self-contained algorithms of the LR gateway and proves what they are for.
The gateway keeps data tables that a server sends as marked lines, evaluates expressions over them
for its automation, and stores them in a text file.

- **Arguments** (`Gcd`, `Rotation`, `LongOptions`, `Getopt`, `ArgumentLists`, `Scanner`): the
  getopt of `src/deps/getopt`, with the exchange of argument blocks by gcd-many cycles, the
  matching of long options, and the scanner that permutes argv while it runs. `Getopt.Scan` is the
  scan that leaves the words in place, `ArgumentLists` writes options and operands as words and
  shows that it gives them back, and `GetoptScanner.Scanner` works on the array.
- **Slab allocator** (`SlabLayout`, `MemPool`, `Pool`): an addressed memory of words in which free
  lists run through the objects and the same word names the slab of a live object. The number of
  slots per slab is a parameter (128 in the source).
- **Tables** (`CStrings`, `Fields`, `Tables`, `TableLists`, `TableText`, `FileForm`,
  `TableRoundTrip`, `TableFiles`): records cut in place, tables, their lookup by a remembered
  position, and the file they are dumped to and loaded from. `TableText` says what the text is and
  what loading it means; `TableFiles` does both in loops over a file position.
- **Data protocol** (`Latin1`, `Framing`, `Lines`, `TableUpdates`, `Requests`, `RequestSteps`,
  `IdleEvents`, `Channel`, `DataProtocol`): frames out of arbitrary reads in a growing buffer,
  conversion to UTF-8, the assembly of tables, and the queue of requests with its idle event.
  `Framing.Consume` and `Receive` are the reference reading, `Lines.Run` and `Completions` the
  reference assembly, `Requests.Next` the step of the protocol; the classes `Receiver`,
  `RequestChannel` and `TableList` are proved against them.
- **Expressions** (`Values`, `TextFunctions`, `Expressions`, `ExpressionLaws`, `Evaluation`):
  integers and texts that are read as each other, the operators, TOKEN, LPAD, RPAD, LENGTH and
  LOOKUP, and operands that are cast where they stand.

The loops and classes are proved against functions that say what they compute; what these
functions mean is stated once more, by laws in texts, numbers and fields written out
(`ArgumentLists`, `FileForm`, `RequestSteps`, `ExpressionLaws`, and the lemmas named `...Is`).

## What the proofs found

- A name that exactly matches a long option is reported as ambiguous when two longer names it
  abbreviates come before it (`LongOptions.ExactNameFound` says exactly when it is found).
- An STX that opens a frame and is the last byte of a read is dropped; the rest of the frame can
  then make the move at the end of the read start in front of the buffer
  (`Framing.CutFrameOverruns`). `Framing.WholeStream` and `DataProtocol.Receiver.ReadFrames` show
  that this is the only thing that goes wrong with a stream of frames.
- A write between the reply that makes the connection idle and the callback it activates can leave
  two requests unanswered at once, whatever came before (`IdleEvents.WindowWriteBreaks`);
  `IdleEvents.WindowExact` shows that a write is safe exactly if it does not fall there. Such a
  write also overtakes the queue; `Requests.OrderKept` gives the exact condition for the order.
- When the timer of the idle event runs out before a reply is read and the callback then comes for
  both, it does nothing: requests stay queued with nothing pending until the next write, which
  overtakes them (`IdleEvents.StalledQueueOvertaken`). `IdleEvents.StalledExactly` shows that this
  is the only way for the queue to stand still, and `IdleEvents.OrderOfQuestions` what it means
  for the order.
- The loop that should shift tables to the place of a new one assigns the new slot only, so a
  table is always created last.
- A table copied to itself is empty afterwards. A table without columns comes back from its file
  with one column that has an empty name.
- A column given by a text that is a number n is answered with n - 1
  (`Tables.Table.GetFieldIndex`), while columns are counted from 1 everywhere else.
- TOKEN answers an empty field in front of another one with the delimiter and that other field
  (`TextFunctions.TokenOfFields`).
- LTH is not transitive across integers and texts (`Values.ComparisonCycle`). It is for three
  integers and for operands of which at most one is an integer (`Values.LessTransitive`); on
  integers together with all other texts it is exactly if the texts of the integers are in no
  other order than the integers (`Values.TransitiveExactly`, `Values.BetweenExact`).
- LPAD and RPAD do not end when they are to fill up with an empty text: no number of rounds
  changes anything (`TextFunctions.NothingFilled`). They end in all other cases and in no other
  (`TextFunctions.PaddingEnds`).

## What is assumed

- A C string is a text without NUL; `char` stands for a byte. Command line words, lines, files and
  the messages written to the data protocol are such texts. Character classes and comparisons that
  ignore case are those of the C locale.
- Option letters are below 128, or plain char is unsigned. Where it is signed, getopt answers and
  reports a letter c from 128 on as c - 256, so a letter 255 in the option string is answered with
  -1 and ends the caller's loop.
- The idle event of libevent is modelled by three flags: its timer runs, its timer has run out, a
  reply has activated it. When the timer runs out, the event becomes due for the timeout alone;
  activating an event that is due already adds a reason; starting the timer of an event that is
  due because of its timer takes it off the list; and as the event is not persistent, nothing of
  it is pending any more when its callback is called.
- malloc returns an aligned block of words apart from all others, with any contents.
- The strings of the ANTLR library: `subString` excludes its end and never reaches beyond the
  text, `charAt` gives the terminator behind the last character, `compareS` orders like strcmp.
- mbstowcs is a function from texts to numbers, `Env.length`.

## Model

| member | source | states |
|---|---|---|
| Gcd.Compute | src/deps/getopt/getopt.c:121-134 | the result of the remainder loop divides both lengths and is divided by each of their common divisors |
| Gcd.GcdIsCombination | src/deps/getopt/getopt.c:121-134 | the greatest common divisor is an integer combination of the two lengths, which is what makes the cycles meet every position |
| Rotation.OrbitReturns | src/deps/getopt/getopt.c:156-170 | an orbit of the position step is back at its start after exactly `cyclelen` steps and meets no position twice before |
| Rotation.NoEarlyReturn | src/deps/getopt/getopt.c:159-169 | no two visits less than `cyclelen` steps apart are to one position |
| Rotation.OrbitCovers | src/deps/getopt/getopt.c:156-163 | every position is on the orbit that starts in its residue class modulo the gcd |
| Rotation.OrbitsPartition | src/deps/getopt/getopt.c:153-170 | every position of the range is at exactly one place of exactly one of the gcd-many orbits |
| Rotation.FollowCycle | src/deps/getopt/getopt.c:157-169 | one cycle moves every element on its path one place on, and touches nothing else |
| Rotation.PathShape | src/deps/getopt/getopt.c:157-163 | the positions of one cycle: they start and end at `cstart`, stay in the range and are distinct |
| Rotation.MovedNext | src/deps/getopt/getopt.c:156-170 | after a cycle one more residue class has its final elements, and the others are as they were |
| Rotation.RotateClass | src/deps/getopt/getopt.c:156-170 | one round of the outer loop, on the array |
| Rotation.StepExchanges | src/deps/getopt/getopt.c:141-171 | elements that moved by the position step have exchanged the two blocks, each keeping its order |
| Rotation.PermuteArgs | src/deps/getopt/getopt.c:141-171 | the array is the old one with the blocks [start, mid) and [mid, end) exchanged, and nothing else changed |
| LongOptions.MatchLong | src/deps/getopt/getopt.c:198-226 | the search loop, tied to the matching rule whose meaning is proved below |
| LongOptions.ResolveMeaning | src/deps/getopt/getopt.c:198-226 | a word is ambiguous iff two entries that it abbreviates come before any exact name, unknown iff nothing matches, and an index found is an exact match or the only abbreviation |
| LongOptions.ExactNameFound | src/deps/getopt/getopt.c:204-225 | an exact name is answered with an exact match if and only if no two abbreviations come before it |
| LongOptions.ExactNameCanBeAmbiguous | src/deps/getopt/getopt.c:198-226 | a table in which an exact name is reported as ambiguous |
| LongOptions.NamedExactly | src/deps/getopt/getopt.c:198-226 | a word is resolved to entry i iff i is the first entry of exactly that name and at most one longer name it begins comes first, or no entry has that name and i is the only one whose name it begins |
| LongOptions.UnknownExactly | src/deps/getopt/getopt.c:198-226 | it is unknown iff it is and begins no name; one letter that may be a short option begins none |
| LongOptions.ErrorCodes | src/deps/getopt/getopt.c:91-92 | errors over arguments are ':' if the option letters start with one, else '?'; other errors '?' |
| Getopt.ScanSplits | src/deps/getopt/getopt.c:296-486 | a scan splits the words in two: those it looked at merge option words and operands in their original order, the rest is untouched; skipped words are operands |
| Getopt.NeverHalts | src/deps/getopt/getopt.c:408-437 | with long options a scan never stops at a lone dash |
| GetoptScanner.CodesAreNotEnd | src/deps/getopt/getopt.c:408-486 | no option is answered with -1, the code for the end, its letter being no negative char |
| GetoptScanner.MoveOperands | src/deps/getopt/getopt.c:335-340 | exchanging the operands skipped with the options behind them puts all options before all operands |
| GetoptScanner.Scanner.Permute | src/deps/getopt/getopt.c:337-338 | permute_args is only called with 1 <= nonopt_start < nonopt_end < optind <= nargc, and sorts the words looked at into options and operands |
| GetoptScanner.Scanner.Settle | src/deps/getopt/getopt.c:335-348 | at the end all options come first, then the operands, and optind is the first operand |
| GetoptScanner.Scanner.EndOfVector | src/deps/getopt/getopt.c:333-350 | -1 at the end of the vector, in the final layout |
| GetoptScanner.Scanner.SkipOperand | src/deps/getopt/getopt.c:369-381 | an operand joins the block of those skipped, wherever that block is |
| GetoptScanner.Scanner.GiveOperand | src/deps/getopt/getopt.c:354-361 | with a `-` prefix an operand is the argument of option 1 |
| GetoptScanner.Scanner.EndOfOptions | src/deps/getopt/getopt.c:390-405 | `--` counts as an option word and ends the scan in the final layout |
| GetoptScanner.Scanner.FindOption | src/deps/getopt/getopt.c:330-405 | the loop at the label start: it ends, gives what the reference scan gives, or stands at an option letter |
| GetoptScanner.Scanner.ParseLongOptions | src/deps/getopt/getopt.c:178-290 | the value, argument, index and optopt that the reference gives for a long option; optind moves by the words used |
| GetoptScanner.Scanner.TryLong | src/deps/getopt/getopt.c:414-428 | a long option is consumed whole; otherwise nothing has changed |
| GetoptScanner.Scanner.ShortOption | src/deps/getopt/getopt.c:430-485 | one letter, its argument in the same or the next word, unknown letters and missing arguments |
| GetoptScanner.Scanner.TakeOption | src/deps/getopt/getopt.c:408-485 | the option at place is the next event of the reference scan |
| GetoptScanner.Scanner.Next | src/deps/getopt/getopt.c:296-486 | a call returns the next event of the scan that never permutes and strictly decreases (words left, letters left); -1 exactly when no event is left |
| GetoptScanner.ParseAll | src/oris_gateway.c:95-150 | the whole option loop: the codes and arguments are those of the scan that never permutes; afterwards argv is all option words, then all operands, each in order, and optind is at the first operand; a scan without long options that stops at a lone dash leaves the operands as one block among the options |
| ArgumentLists.LettersScanned | src/deps/getopt/getopt.c:430-485 | letters in one word are scanned one by one, unknown ones with the error code, the last with its argument, joined or in the next word, or without an optional one |
| ArgumentLists.LongScanned | src/deps/getopt/getopt.c:178-290 | a long option written by its name or a beginning of it is scanned as that option with that argument, or as an error if it takes none |
| ArgumentLists.NoNameScanned | src/deps/getopt/getopt.c:191-282 | a word that names no long option, or several, is an error, with or without a value |
| ArgumentLists.LackingLetterScanned | src/deps/getopt/getopt.c:463-483 | a last letter that wants an argument which does not come is an error, behind the letters before it |
| ArgumentLists.LackingNameScanned | src/deps/getopt/getopt.c:242-272 | so is a long option at the end that needs an argument |
| ArgumentLists.ItemsScanned | src/deps/getopt/getopt.c:296-486 | scanning the words of any options, operands and wrong options gives back exactly these and goes on behind them as if they were not there; with a `-` prefix operands are arguments of option 1 |
| ArgumentLists.LineScanned | src/deps/getopt/getopt.c:296-486 | a whole command line up to `--`: the options with their arguments come back in order, their words and the operands are sorted apart |
| ArgumentLists.StopsAtOperand | src/deps/getopt/getopt.c:362-368 | without permutation the scan ends at the first operand |
| ArgumentLists.DashesEnd | src/deps/getopt/getopt.c:390-405 | without long options any word with two dashes ends the scan |
| ArgumentLists.DashOption | src/deps/getopt/getopt.c:351-352 | a lone dash can be an option letter, with or without an argument |
| ArgumentLists.DashStops | src/deps/getopt/getopt.c:430-437 | without long options a dash behind letters ends the scan there, unless it is an option |
| ArgumentLists.DashInside | src/deps/getopt/getopt.c:414-423 | with long options it starts a long option |
| ArgumentLists.LetterW | src/deps/getopt/getopt.c:446-462 | -W with a text, in its word or the next, is that text as a long option; without a text an error |
| ArgumentLists.LetterWInside | src/deps/getopt/getopt.c:446-462 | so is a W behind other letters |
| ArgumentLists.OneDashScanned | src/deps/getopt/getopt.c:414-428 | where one dash is enough, a word behind any letters that names an entry gives that entry |
| ArgumentLists.OneDashNoName | src/deps/getopt/getopt.c:414-428 | one that names none is an error, unless it begins no name and may be a short option |
| SlabLayout.Layout.SlotsApart | src/deps/mempool/mem_pool.c:88-108 | distinct slots of one or of separate slabs do not overlap, link words included |
| SlabLayout.Layout.LinkFollows | src/deps/mempool/mem_pool.c:42-50 | the link word of a slot is aligned, inside its slab and behind those of earlier slots |
| SlabLayout.Layout.AddressesAre | src/deps/mempool/mem_pool.c:5-38 | slot i is 16 + i * (obj_size + 8) bytes into its slab, its link word behind the object |
| MemPool.Shape.PopPartition | src/deps/mempool/mem_pool.c:146-151 | taking the first free slot keeps free lists and live objects a partition of all slots, and the slot was not live |
| MemPool.Shape.PushPartition | src/deps/mempool/mem_pool.c:156-165 | releasing an object keeps the partition |
| MemPool.Shape.PopLinks | src/deps/mempool/mem_pool.c:146-149 | after the two writes of an allocation every free list is still threaded through its slots, and every link word of a live object names its slab |
| MemPool.Shape.PushLinks | src/deps/mempool/mem_pool.c:160-162 | the same after the two writes of a release |
| MemPool.Shape.AddSlabPartition | src/deps/mempool/mem_pool.c:65-81 | a new slab keeps the partition: all its slots are free |
| MemPool.Shape.AddSlabLinks | src/deps/mempool/mem_pool.c:52-81 | a new slab, threaded by init_slab and linked in front, gives a well-formed pool |
| MemPool.Shape.PayloadKeeps | src/deps/mempool/mem_pool.c:38-50 | what the owner of a live object writes into it disturbs no list, link word or slab header |
| MemPool.Shape.LinkApart | src/deps/mempool/mem_pool.c:42-50 | no link word is another one or a slab header |
| MemPool.TotalFreeUpdate | src/deps/mempool/mem_pool.c:146-164 | the summed length of the free lists when one of them changes |
| Pool.RoundUp | src/deps/mempool/mem_pool.c:92-97 | the object size is the least multiple of a word that is not smaller |
| Pool.MemoryPool.constructor | src/deps/mempool/mem_pool.c:88-108 | an empty pool with zero counters |
| Pool.MemoryPool.InitSlab | src/deps/mempool/mem_pool.c:52-63 | the slots of a slab are threaded in ascending order and nothing outside it is written |
| Pool.MemoryPool.AddNewSlab | src/deps/mempool/mem_pool.c:65-81 | a slab is linked in front; the counters grow by the slots of one slab; payloads of live objects are unchanged |
| Pool.MemoryPool.FindSlab | src/deps/mempool/mem_pool.c:135-142 | the scan finds the first slab with a free slot, or there is none |
| Pool.MemoryPool.PickSlab | src/deps/mempool/mem_pool.c:130-144 | which slab serves a request: the recent one, the first with a free slot, or a new one |
| Pool.MemoryPool.TakeSlot | src/deps/mempool/mem_pool.c:146-151 | the first free slot of the slab becomes live; it was not live before |
| Pool.MemoryPool.Alloc | src/deps/mempool/mem_pool.c:125-154 | an allocation never returns a live object, whichever slab serves it, and changes no payload |
| Pool.MemoryPool.OwnerOf | src/deps/mempool/mem_pool.c:160 | the link word of a live object names its slab |
| Pool.MemoryPool.Free | src/deps/mempool/mem_pool.c:156-165 | a released object is first in its slab's free list and changes no payload |
| Pool.MemoryPool.WritePayload | src/deps/mempool/mem_pool.c:38-50 | writing a live object's payload keeps the pool well-formed |
| Pool.MemoryPool.Destroy | src/deps/mempool/mem_pool.c:110-123 | every slab is released once, in the order of the list |
| Pool.MemoryPool.SlabsMatchPeak | src/deps/mempool/mem_pool.c:65-81 | in every reachable state slab_nr is the ceiling of (peak number of live objects / slots per slab), obj_nr follows, and free_obj_nr is obj_nr minus the live objects |
| Pool.MemoryPool.BusyMeansNoneFree | src/deps/mempool/mem_pool.c:130-144 | no slab has a free slot if and only if free_obj_nr is 0 |
| Pool.FreeUndoesAlloc | src/deps/mempool/mem_pool.c:125-165 | releasing the object just allocated restores the pool |
| Pool.AllocUndoesFree | src/deps/mempool/mem_pool.c:125-165 | allocating from the slab of the object just released gives that object again and restores the pool |
| CStrings.DecimalReadsBack | src/oris_util.c:47-64 | an int printed in decimal is read back by oris_strtoint as itself |
| CStrings.ReadsAs | src/oris_util.c:47-64 | oris_strtoint accepts exactly the empty text, as 0, and white space, an optional sign and digits that denote a number of 32 bits, as that number |
| CStrings.NumberOfNext | src/oris_util.c:47-64 | one digit more makes a number ten times as large, and adds the digit |
| CStrings.DecimalForm | src/grammars/oris_interpret_tools.c:183-193 | decimal digits, the highest first, and a minus sign |
| CStrings.SignsRead | src/oris_util.c:47-64 | signs and white space, in front only |
| CStrings.EqIgnoreCaseMeans | src/oris_table.c:310-319 | two names are equal iff they are as long as each other and have the same letters in either case |
| CStrings.GreaterMeans | src/grammars/oris_interpret_tools.c:262-303 | strcmp decides by the first difference, or else by length |
| CStrings.SpaceIs | src/oris_table.c:475 | white space is six characters |
| Fields.JoinSplit | src/oris_table.c:37-51 | the pieces of a record contain no delimiter and join to the record |
| Fields.SplitUnique | src/oris_table.c:37-51 | they are the only delimiter-free fields that join to it |
| Fields.CutAtDelimiters | src/oris_table.c:37-43 | the first pass cuts the buffer in place and counts the pieces |
| Fields.CopyPiece | src/oris_table.c:48-51 | strdup from a piece's start copies that piece, and the next one starts behind its end |
| Fields.SplitRecord | src/oris_table.c:32-53 | both passes together yield the split |
| Latin1.DecodeUtf8 | src/oris_protocol_data.c:111-139 | decoding the output by section 3 of RFC 3629 gives the input bytes as code points |
| Latin1.ToUtf8Injective | src/oris_protocol_data.c:127-136 | different lines are converted to different texts |
| Latin1.EncodeIs | src/oris_protocol_data.c:128-135 | the octets of a character: itself below 128, else 192 plus the upper and 128 plus the lower bits |
| Latin1.ToUtf8Split | src/oris_protocol_data.c:111-139 | conversion commutes with splitting at an ASCII delimiter |
| Latin1.CountOctets | src/oris_protocol_data.c:116-120 | the first pass counts exactly the octets of the result |
| Latin1.StrdupIso8859ToUtf8 | src/oris_protocol_data.c:111-139 | the second pass fills exactly the counted octets and the terminator |
| Tables.Table.Init | src/oris_table.c:75-87 | no name, rows or columns, cursor unset, complete, not temporary |
| Tables.FreshIs | src/oris_table.c:334-336 | a created table has its name and is otherwise so |
| Tables.Table.AddRow | src/oris_table.c:23-72 | the row's fields come last, the columns are filled up with unnamed ones, all else stays; no row is wider than the table and the cursor stays inside |
| Tables.Table.Clear | src/oris_table.c:101-113 | no rows, no columns, cursor unset; name, state and the temporary flag stay |
| Tables.Table.CopyTo | src/oris_table.c:140-156 | rows and columns are those of the source, the cursor is unset, all else stays; a table copied to itself is empty; no row is wider than the table |
| Tables.Table.AddField | src/oris_table.c:158-166 | a named column comes last |
| Tables.Table.GetFieldIndex | src/oris_table.c:168-187 | a name gives its column counted from 1, a text that is a number n gives n - 1 |
| Tables.ColumnNamedIs | src/oris_table.c:178-186 | the first column of exactly that name, counted from 1, or -1 if there is none |
| Tables.FieldAtIs | src/oris_table.c:189-216 | the fields of the row under the cursor, or of the first row, are numbered from 1 |
| Tables.Table.GetFieldByIndex | src/oris_table.c:189-215 | the field under the cursor, which is set to the first row if it was unset; the cursor stays unset or on a row |
| TableLists.FoundAnywhere | src/oris_table.c:310-319 | with distinct names any table of a name is the one a scan finds: why the remembered position may be used |
| TableLists.PlacesAreKept | src/oris_table.c:300-343 | over any run of lookups and creations names stay distinct, tables keep their places and contents, and each is found by its name ever after |
| TableLists.TableList.Lookup | src/oris_table.c:310-319 | the remembered position and the scan give the first table of the name |
| TableLists.TableList.Append | src/oris_table.c:321-339 | a created table comes last and fresh; no other table changes, despite the loop meant to shift them |
| TableLists.TableList.GetOrCreate | src/oris_table.c:300-343 | lookup and creation, with and without create |
| TableLists.TableList.OnlyOneChanged | src/oris_table.c:300-343 | changing a table of the list changes no other |
| TableFiles.TextFile.GetLine | src/oris_table.c:446 | getline: the next line with its newline; nothing at the end |
| TableFiles.FindTableInFile | src/oris_table.c:438-460 | the file stands behind the first header of the table, if there is one |
| FileForm.HeaderIs | src/oris_table.c:448-451 | a header is a bracket, the name in any case, and a bracket, whatever follows |
| FileForm.BehindHeader | src/oris_table.c:446-456 | a table's section is what follows its first header |
| FileForm.LastLineRead | src/oris_table.c:446 | a last line without a newline is read, too |
| TableFiles.RowText | src/oris_table.c:479-486 | the text added for a line: the control character at its end removed, `=` of a definition replaced |
| FileForm.RowOfLine | src/oris_table.c:479-489 | one control character at the end of a line is dropped, the rest is split at semicolons |
| FileForm.DefinitionOfLine | src/oris_table.c:479-489 | in a definition the first equals sign counts as a semicolon |
| FileForm.RowsUpTo | src/oris_table.c:474-491 | reading ends at the first line that starts with white space, and only there |
| TableFiles.ReadTableFromFile | src/oris_table.c:462-494 | the rows up to a line that starts with white space are added, and counted |
| TableFiles.AddFieldsFromDefinition | src/oris_table.c:496-512 | the columns are those of the definition |
| TableFiles.LoadDefinition | src/oris_table.c:530-543 | one definition: its table is found or created, its columns and rows are set |
| FileForm.DefinitionFollowed | src/oris_table.c:530-543 | a table that is there keeps its rows and flags, gets the columns named, and the rows read come behind its own; an empty name is passed over |
| TableFiles.LoadFromFile | src/oris_table.c:514-547 | the list of tables is what the reference loader makes of the text |
| TableFiles.DumpDefinition | src/oris_table.c:360-371 | the definition line that the next two rows state |
| TableRoundTrip.DefinitionWritten | src/oris_table.c:360-371 | the name, an equals sign and the columns between semicolons, unnamed ones by their number counted from 1 |
| FileForm.LinesWritten | src/oris_table.c:358-392 | all lines of the file for two tables, one of them temporary |
| FileForm.UnlinesFirst | src/oris_table.c:358-392 | each line is written with a newline behind it |
| TableFiles.DumpSection | src/oris_table.c:376-391 | a table's header and rows; nothing for a temporary table |
| TableFiles.DumpToFile | src/oris_table.c:345-397 | the file written is the reference text |
| TableRoundTrip.ReadUnlines | src/oris_table.c:446 | reading lines back from a text gives the lines written |
| TableRoundTrip.OtherHeader | src/oris_table.c:448-451 | a header is not taken for that of a table of another name, not even of one that starts alike |
| TableRoundTrip.DefinitionRead | src/oris_table.c:360-371 | a definition written is read as name and columns |
| TableRoundTrip.DefinitionsRead | src/oris_table.c:358-374 | the definitions written are read back, up to the blank line |
| TableRoundTrip.RowsRead | src/oris_table.c:381-391 | the rows written are read back, up to the blank line |
| TableRoundTrip.SectionOfOther | src/oris_table.c:375-392 | no line of a section reads as the header of another table |
| TableRoundTrip.SectionFound | src/oris_table.c:438-460 | the section of each table is found behind those of the tables before it |
| TableRoundTrip.RowsOfTable | src/oris_table.c:462-494 | reading a table from the dumped text gives its rows, and none for a temporary table |
| TableRoundTrip.TablesLoaded | src/oris_table.c:528-544 | the loop over the definitions rebuilds table after table |
| TableRoundTrip.DumpThenLoad | src/oris_table.c:345-547 | dumping a well-formed list and loading the text into an empty one restores every name in order, every row of every non-temporary table and every column name; temporary tables come back empty, and an unnamed column is named by its number counted from 1, which is read back as that number |
| Framing.ConsumeStream | src/oris_protocol_data.c:82-107 | one read of the beginning of a stream hands on the complete payloads and keeps the unfinished frame, unless it is a lone STX, which is dropped |
| Framing.ReceiveStream | src/oris_protocol_data.c:67-108 | without a cut directly after an opening STX every complete payload is handed on once, in order, and the buffer holds exactly the unfinished frame |
| Framing.ReceiveDrops | src/oris_protocol_data.c:83-107 | with such a cut a byte is lost or the buffer is overrun |
| Framing.ReceivedExactly | src/oris_protocol_data.c:67-108 | so exactly the complete payloads have been received if and only if no cut falls directly after an opening STX |
| Framing.WholeStream | src/oris_protocol_data.c:67-108 | the same for the whole stream: all payloads and an empty buffer |
| Framing.CutFrameOverruns | src/oris_protocol_data.c:83-107 | a frame cut after its STX after which the move starts in front of the buffer |
| Framing.FrameBehind | src/oris_protocol_data.c:83-94 | bytes in front of a frame are skipped |
| Framing.NoFrame | src/oris_protocol_data.c:104-107 | bytes without an STX are moved by one, behind a zero octet or from in front of the buffer |
| Framing.PartBehind | src/oris_protocol_data.c:88-100 | the beginning of a frame is kept, without the bytes in front, unless it is a lone STX |
| Framing.AfterOpeningIs | src/oris_protocol_data.c:83-88 | directly after an opening STX is behind some whole frames and one byte of another |
| Framing.CutIs | src/oris_protocol_data.c:83-88 | the cuts of a stream in pieces are where pieces end |
| Framing.ConsumeWeight | src/oris_protocol_data.c:82-107 | the payloads handed on, with their frames' marks, and the bytes kept are together no longer than the bytes read |
| Requests.EveryRun | src/oris_protocol_data.c:254-332 | after every run: sent and queued messages are those submitted, each once; the queue is in order of submission; the wire holds exactly the frames of the messages sent; waiting implies that the timer runs or that a callback which will act is due |
| Requests.FirstInFirstOut | src/oris_protocol_data.c:292-327 | over every run the messages that entered the queue are those that left it, followed by those still in it, all in the order of submission |
| Requests.OrderKept | src/oris_protocol_data.c:254-332 | messages sent followed by those queued are those submitted, in order, if and only if no write found the connection idle with messages queued |
| RequestSteps.FrameOctets | src/oris_protocol_data.c:267-271 | a message goes out between the octets 2 and 3 |
| RequestSteps.RequestNameIs | src/oris_protocol_data.c:276-288 | the name asked for is cut at the first '\|' behind its first character |
| RequestSteps.EmptyReplyIs | src/oris_protocol_data.c:141-156 | an empty reply is the name, `!`, anything, and `\|0` |
| RequestSteps.SubmitIdle | src/oris_protocol_data.c:265-291 | a write to an idle protocol goes out at once; it starts a wait iff the message starts with a question mark, and leaves the event and the name asked for alone otherwise |
| RequestSteps.SubmitBusy | src/oris_protocol_data.c:292-300 | a write during a wait is put last in the queue and changes nothing else |
| RequestSteps.CompletedIs | src/oris_protocol_data.c:214-221 | only the completion of the table asked for, or its empty reply, ends the wait and activates the event |
| RequestSteps.CallbackIs | src/oris_protocol_data.c:303-332 | what the callback does in each case, to every variable |
| RequestSteps.NothingWaits | src/oris_protocol_data.c:254-332 | in a run without a message that starts with a question mark nothing ever waits, the queue stays empty, and sent equals submitted |
| IdleEvents.SendsSeparated | src/oris_protocol_data.c:211-332 | with questions only and no write between a reply and the callback it activates, two sends are always separated by a matching reply or a timeout |
| IdleEvents.WindowWriteBreaks | src/oris_protocol_data.c:214-221 | every write in that window, whatever came before, can leave two requests unanswered at once |
| IdleEvents.WindowExact | src/oris_protocol_data.c:211-332 | a write keeps all sends separated however things go on if and only if it does not fall into the window |
| IdleEvents.WindowOpens | src/oris_protocol_data.c:214-221 | a run that opens the window |
| IdleEvents.OrderOfQuestions | src/oris_protocol_data.c:254-332 | with questions only and no write between a reply and the callback, messages sent followed by those queued are those submitted, in order, if and only if nothing was written while the queue was stalled |
| IdleEvents.QuestionsKeepOrder | src/oris_protocol_data.c:254-332 | so they are, if no callback comes for a timeout and a reply together |
| IdleEvents.StalledExactly | src/oris_protocol_data.c:303-322 | with questions only, requests are queued with nothing pending if and only if a callback for a timeout and a reply together was ignored and nothing has been written since |
| IdleEvents.QueueIsAwake | src/oris_protocol_data.c:254-332 | with questions only, a queue or a wait has a timer or a due callback, with that one exception |
| IdleEvents.StalledQueueOvertaken | src/oris_protocol_data.c:309-311 | a run in which the callback is ignored and the next write overtakes the queue |
| IdleEvents.CallbacksDrain | src/oris_protocol_data.c:303-332 | however a run goes on without writes, by replies or by timeouts: n callbacks that are not ignored send the first n queued messages, in order, or all of them if there are fewer, and nothing else is sent |
| IdleEvents.AllCallbacksAct | src/oris_protocol_data.c:309-311 | every callback counts for that if none is ignored |
| IdleEvents.RepliesDrain | src/oris_protocol_data.c:211-222 | with questions only, n replies, each followed by the callback, are always possible and send the first n queued messages |
| IdleEvents.TimeoutsDrain | src/oris_protocol_data.c:303-332 | so are n timeouts, each with its callback, unless the queue is stalled or about to be |
| Channel.RequestChannel.TableName | src/oris_protocol_data.c:276-288 | the name is cut at the first '\|' behind its first character |
| Channel.RequestChannel.Send | src/oris_protocol_data.c:265-291 | a message goes out between STX and ETX; a question starts the timer and the wait, as one step of the model |
| Channel.RequestChannel.Write | src/oris_protocol_data.c:254-301 | a write is one step of the model: sent if idle, else queued |
| Channel.RequestChannel.TimerExpires | src/oris_protocol_data.c:280 | the end of the timer is one step of the model |
| Channel.RequestChannel.IdleEvent | src/oris_protocol_data.c:303-332 | the callback is one step of the model: idle, and the next message sent; for a timeout and a reply together it does nothing, though nothing is pending any more |
| Channel.RequestChannel.TableCompleted | src/oris_protocol_data.c:214-221 | a matching reply ends the wait and activates the idle event |
| Channel.RequestChannel.IsEmpty | src/oris_protocol_data.c:141-156 | true iff the reply is the name, `!`, and anything that ends in `\|0` |
| Lines.ApplyLookup | src/oris_protocol_data.c:198-211 | a line changes the table it names, ignoring case, by what that table was, and no other |
| Lines.LineRead | src/oris_protocol_data.c:166-196 | how every line of a name, a separator and a row is read: '0' behind the name marks the last line, '1' one that others follow, anything else a response; a single character is ignored |
| Lines.LineIgnored | src/oris_protocol_data.c:173-189 | a line without a separator, or with nothing in front of it, is ignored |
| Lines.TextSeen | src/oris_protocol_data.c:166-170 | a line reaches up to its first NUL |
| Lines.ReceiveIs | src/oris_protocol_data.c:205-211 | a complete table, or one that receives a response, starts anew; what is kept and what is set |
| Lines.OnlyOwnLinesMatter | src/oris_protocol_data.c:158-226 | after any interleaved stream of lines a table and its completions depend only on the lines that name it |
| Lines.CompletionsAreBlocks | src/oris_protocol_data.c:205-213 | when all lines name one table, each completion comes once, in order, with exactly the rows of its block: the lines since the previous completion, or the single response line |
| TableUpdates.EndOfName | src/oris_protocol_data.c:173-176 | the name ends at the first '\|' |
| TableUpdates.ParseLine | src/oris_protocol_data.c:166-196 | a line is taken apart as `Lines.LineRead` and `Lines.LineIgnored` say |
| TableUpdates.ReceiveRow | src/oris_protocol_data.c:205-213 | cleared first if it was complete; the row is added; completed by a last or response line |
| TableUpdates.UpdateTable | src/oris_protocol_data.c:198-213 | a line's table is found or created and receives its row; the others are unchanged |
| Lines.OwnBlocks | src/oris_protocol_data.c:158-226 | in any interleaved stream of lines the completions of a table are the blocks of the lines that name it, once each and in order, and the table holds the rows of its current block |
| Lines.RunKeepsCursors | src/oris_protocol_data.c:205-211 | no stream of lines leaves a table's cursor behind its rows |
| DataProtocol.Locate | src/oris_protocol_data.c:83-89 | the first STX, and the first ETX behind it |
| DataProtocol.Receiver.Grow | src/oris_protocol.c:93-100 | the capacity suffices, and is kept if it did before |
| DataProtocol.Receiver.Recv | src/oris_protocol.c:83-116 | the bytes are appended to the buffer, whatever its capacity |
| DataProtocol.Receiver.HandleLine | src/oris_protocol_data.c:198-222 | the tables, the completion told and the reply noticed for one line |
| DataProtocol.ReplyIs | src/oris_protocol_data.c:212-221 | which payloads tell the request waiting a completion: the table's name as read, and the line as it came |
| DataProtocol.Receiver.ProcessLine | src/oris_protocol_data.c:158-226 | tables and completions stay those of all lines delivered so far |
| DataProtocol.Receiver.NextFrame | src/oris_protocol_data.c:83-101 | one round of the loop: a frame is handed on, or the loop ends with what is to be kept |
| DataProtocol.Receiver.TakeFrames | src/oris_protocol_data.c:82-102 | the whole loop, in place, does what the reference reading of the buffer does |
| DataProtocol.Receiver.ReadCb | src/oris_protocol_data.c:67-108 | a read hands on the payloads and keeps the bytes of the reference reading; the move stays inside the buffer unless the reference says it does not |
| DataProtocol.Receiver.ReadAll | src/oris_protocol_data.c:67-108 | any sequence of reads, likewise |
| DataProtocol.Receiver.ReadFrames | src/oris_protocol_data.c:67-226 | a stream of frames in any pieces: every payload handed on once, in order, and an empty buffer, if and only if no read ends directly after an opening STX; tables, completions and replies are then those of the lines sent |
| Values.TextDecides | src/grammars/oris_interpret_tools.c:373-411 | the integer a value is read as is the integer its text is read as |
| Values.TagsUnseenByOperators | src/grammars/oris_interpret_tools.c:314-337 | operands with the same texts have the same result, for every operator |
| Values.OnIntegers | src/grammars/oris_interpret_tools.c:195-242 | PLUS, MINUS and MUL of two integers, where in range, and OR and AND |
| Values.PlusUndoesMinus | src/grammars/oris_interpret_tools.c:218-230 | what MINUS takes away PLUS puts back |
| Values.CompareIntegers | src/grammars/oris_interpret_tools.c:244-273 | the six comparisons of integers, 1 or 0 |
| Values.OnTexts | src/grammars/oris_interpret_tools.c:195-216 | PLUS joins texts, left before right; the other operators have no result on them |
| Values.CompareTexts | src/grammars/oris_interpret_tools.c:274-303 | the six comparisons of texts by strcmp |
| Values.OnMissing | src/grammars/oris_interpret_tools.c:314-337 | a missing operand leaves no result |
| Values.ModDefined | src/grammars/oris_interpret_tools.c:228-230 | MOD has a result iff DIV has one |
| Values.DivisionLaw | src/grammars/oris_interpret_tools.c:218-230 | (a DIV b) MUL b PLUS (a MOD b) is a, and the remainder is smaller than b and on a's side of 0 |
| Values.DivisionDefined | src/grammars/oris_interpret_tools.c:226-228 | DIV has a result iff the divisor is not 0 and it is not INT_MIN by -1 |
| Values.ComparisonsAgree | src/grammars/oris_interpret_tools.c:244-303 | every comparison has a result that agrees with the mirrored and the negated comparison |
| Values.LessTransitive | src/grammars/oris_interpret_tools.c:244-303 | LTH is transitive for three operands that are all integers, or of which at most one is |
| Values.BetweenExact | src/grammars/oris_interpret_tools.c:244-303 | between two integers a and c, of which a is not the lesser, some operand b has a LTH b and b LTH c if and only if their texts are in the other order |
| Values.TransitiveExactly | src/grammars/oris_interpret_tools.c:244-303 | LTH is transitive on a set of integers and all texts that are none if and only if the texts of the integers are in no other order than the integers |
| Values.ComparisonCycle | src/grammars/oris_interpret_tools.c:244-303 | three operands each less than the next, in a circle |
| TextFunctions.StartOfToken | src/grammars/oris_interpret_tools.c:488-493 | the loop skips nr - 1 delimiters |
| TextFunctions.EndOfToken | src/grammars/oris_interpret_tools.c:495-496 | the end is the next delimiter, from the second character on |
| TextFunctions.TakeToken | src/grammars/oris_interpret_tools.c:484-499 | the token of the loops is that of the specification below |
| TextFunctions.TokenOfFields | src/grammars/oris_interpret_tools.c:466-506 | every token in terms of the fields of the record splitter |
| TextFunctions.TokenExact | src/grammars/oris_interpret_tools.c:466-506 | TOKEN(s, k, d) is the k-th field if and only if that field is not empty or is the last |
| TextFunctions.PadLeft | src/grammars/oris_interpret_tools.c:523-527 | the loop, or any number of its first rounds: it has ended iff the text is long enough, and then has put the least number of fill texts that suffices in front |
| TextFunctions.PadRight | src/grammars/oris_interpret_tools.c:548-552 | the same behind |
| TextFunctions.PaddingEnds | src/grammars/oris_interpret_tools.c:523-552 | the loops end if and only if the text is long enough or there is something to fill up with |
| TextFunctions.NothingFilled | src/grammars/oris_interpret_tools.c:523-552 | any number of rounds with an empty fill text leaves the text as it was |
| Expressions.FirstRow | src/grammars/oris_interpret_tools.c:590-600 | the row LOOKUP uses is the first whose field equals the value, ignoring case |
| ExpressionLaws.LeafIs | src/grammars/configTree.g:158-166 | the value of a numeral and of a text |
| ExpressionLaws.OperatorOf | src/grammars/configTree.g:135-138 | an operator is applied to the values of its operands, left and right |
| ExpressionLaws.MinusOf | src/grammars/configTree.g:135-138 | MINUS subtracts the right operand's value from the left one's |
| ExpressionLaws.FunctionOf | src/grammars/configTree.g:154-157 | a function gets the values of its arguments in order |
| ExpressionLaws.UndefinedArgument | src/grammars/configTree.g:154-157 | it has no result if an argument has none |
| ExpressionLaws.NamesOfFunctions | src/grammars/oris_interpret_tools.c:43-50 | functions are known by their names in any case |
| ExpressionLaws.PadIs | src/grammars/oris_interpret_tools.c:508-555 | LPAD puts the least number of fill texts that suffices in front, RPAD behind |
| ExpressionLaws.PadWithoutLength | src/grammars/oris_interpret_tools.c:508-555 | without a length the text stays |
| ExpressionLaws.TokenIs | src/grammars/oris_interpret_tools.c:466-506 | TOKEN's arguments: the record, the number counted from 1, and the delimiter, of which the first character counts |
| ExpressionLaws.LengthIs | src/grammars/oris_interpret_tools.c:448-454 | LENGTH is that of its argument's text; unknown functions have a missing value |
| ExpressionLaws.LookupIs | src/grammars/oris_interpret_tools.c:557-607 | LOOKUP(value, table, c, w) is the field w of the first row whose field c is the value, columns being given by number or by name |
| ExpressionLaws.LookupFindsNone | src/grammars/oris_interpret_tools.c:590-603 | it is empty if no row has the value |
| ExpressionLaws.LookupNowhere | src/grammars/oris_interpret_tools.c:571-581 | it is empty if there is no such table or first column |
| ExpressionLaws.LookupNoField | src/grammars/oris_interpret_tools.c:583-588 | it is empty if there is no such second column |
| ExpressionLaws.MissingArguments | src/grammars/oris_interpret_tools.c:448-607 | without the texts they need functions have no result |
| ExpressionLaws.RecordIs | src/grammars/oris_interpret_tools.c:133-162 | a field by its column's number or name, in the row under the cursor |
| ExpressionLaws.NoRecord | src/grammars/oris_interpret_tools.c:133-162 | without the table or rows a number gives the empty text, a name no result |
| Expressions.TagsUnseenByFunctions | src/grammars/oris_interpret_tools.c:448-607 | LENGTH, TOKEN, LPAD, RPAD and LOOKUP see no more of their arguments than their texts |
| Expressions.TagsUnseen | src/grammars/configTree.g:133-166 | replacing integers anywhere in an expression by the texts of their decimal forms changes neither whether it has a result nor how the result reads |
| Expressions.CursorUnseen | src/grammars/oris_interpret_tools.c:133-162 | no expression can see the cursor that other expressions have set by reading fields |
| Evaluation.Cell.CastToStr | src/grammars/oris_interpret_tools.c:183-193 | the cast in place changes neither reading of the value |
| Evaluation.EvalPlus | src/grammars/oris_interpret_tools.c:195-216 | the sum, or the texts joined; the operands read as before |
| Evaluation.EvalLogOp | src/grammars/oris_interpret_tools.c:244-303 | the comparison, of integers or of texts; the operands read as before |
| Evaluation.EvalBinaryOp | src/grammars/oris_interpret_tools.c:314-337 | every operator, where its result is defined, as the laws of `Values` state it; the operands read as before |
| Evaluation.BuiltInToken | src/grammars/oris_interpret_tools.c:466-506 | the token; a missing value if the number is none |
| Expressions.PadDefined | src/grammars/oris_interpret_tools.c:508-555 | LPAD and RPAD have a result if and only if their loop ends |
| Evaluation.BuiltInPad | src/grammars/oris_interpret_tools.c:508-555 | the text padded, or unchanged if the length is no number; or where the loop stands after any number of rounds |
| Evaluation.ScanRows | src/grammars/oris_interpret_tools.c:590-601 | the scan finds the field of the first matching row and puts the cursor back |
| Evaluation.ColumnGiven | src/grammars/oris_interpret_tools.c:576-588 | a column by number or by name |
| Evaluation.BuiltInLookup | src/grammars/oris_interpret_tools.c:557-607 | the field found, or the empty text; the tables are left as they were |
| Evaluation.ValueFromRecord | src/grammars/oris_interpret_tools.c:133-148 | the field under the cursor or the empty text; at most cursors are set |

## Left out

- POSIXLY_CORRECT, optreset and the reset by an optind of 0, and the printing of warnings in getopt.
- argv is modelled by the texts of its words, not by pointers to them.
- LongOptions.Resolve: a table of long options is a sequence, so its end mark is not modelled.
- Running out of memory, pointers that are stale after realloc, leaks, and sizes beyond the range of size_t.
- Pool.MemoryPool.Free: an object that is not live is not released; a double release corrupts the lists of the source.
- oris_table_set_field: its growth passes the wrong pointer to realloc.
- Tables.Table.GetFieldByIndex: requires what every operation on tables keeps, a cursor that is unset or on a row; with another one the source reads outside its rows.
- Evaluation.ValueFromRecord: requires the same.
- Fields.SplitRecord: the text copied out of the buffer is a value; the copies are not separate heap strings.
- TableFiles.LoadFromFile: the getline written for Windows, files that cannot be opened, and files that hold NUL are not modelled.
- TableRoundTrip.DumpThenLoad: for well-formed lists loaded into an empty one; for other lists `TableText.Load` says what comes back.
- DataProtocol.Receiver.ReadCb: where the move starts in front of the buffer the result says so and the model ends, as what the source would copy is undefined.
- Framing.WholeStream: streams with bytes between frames are covered by `Framing.Receive`, but not by this theorem.
- The actions of the automation and the dump after each completed table: a completion is an entry of a log.
- Evaluation.EvalBinaryOp: not for division by zero, results beyond 32 bits, arithmetic on texts that are no numbers, or missing operands, all undefined in the source; `Values.BinaryOp` has no result there.
- QUOTE, which takes an expression for a string of the library.
- Evaluation.BuiltInLookup: evaluates values already at hand; the tree walker generated from the grammar is the function `Expressions.Eval`.
- oris_expr_eval_unary_op, which the grammar does not use, and the release of operands to the memory pool.
- The control console, HTTP, JSON, connections, TLS, logging, the configuration parser and the lexer.
