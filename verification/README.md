# SBU operating system: a verified model of its loader, console and shell

The project models the parts of the repository that hold most of its logic, and proves what
they are meant to do for every input, every run and every way of cutting a file into reads.

* **Configuration loader** (`rootfs/boot/support.4th`). `LineReader` joins lines across refills of
  an 80-byte buffer; `Grammar` and `LineParser` give the declarative grammar of a line and the
  state machine over `line_pointer`; `Settings`, `OptionMap` and `ModuleOptions` give what an
  assignment does, in values and in the linked list, and `AssignmentMeaning` says it name by name;
  `ConfFile` and `ConfLoader` put them together
  and prove the round trip of a file. `ConfFileNames` and `ConfIncludes` load every file that
  `loader_conf_files` names, and the files that those name in turn. `KernelSearch` is the search
  for a kernel and what it does to `module_path`; `ArgvStack` the words of a command line on the
  data stack.
* **Kernel console** (`sys/kprintf.c`). `Console` is video memory, the cursor and the printers;
  `ScreenLog` the unbounded log of rows that the screen is a window of; `Numerals` the digits.
* **Shell** (`bin/sbush`, `libc/getenv.c`). `ShellWords` and `CommandParser` are the tokenizer,
  `PipeSplit` the in-place splitting at pipes, `Pipeline` the descriptors of the commands of a
  pipeline, `Environment` the table behind `getenv` and `setenv`.
* **Interrupt table** (`sys/idt.c`, `sys/pic.c`). `InterruptTable`, following the 64-bit gate layout
  of section 6.14.1 of the Intel Software Developer's Manual, Volume 3A.

`Splitting`, `Lines`, `Buffers` and `Optional` are shared. Code that changes things step by step is
modelled by classes and methods, each proved against a function on values, and the properties are
lemmas about those functions.

What the model takes from outside: `fread` hands over any number of bytes that fits, or fails if
the file is not reliable; the loader's `load`, the command interpreter and process creation are parameters or always succeed as
stated below; a buffer that was never allocated is an array of length 0; a fresh C allocation is
zero-filled. Pipes are numbered within one pipeline.

## Where the code does less than it promises

Each of these is proved, with the exact condition under which the promise holds.

* The comment above the line parser allows a backslash before any character in a quoted value. The
  code drops every backslash, escaped or not: a value comes back exactly when it has no backslash
  (`ConfFile.QuotedValueReturns`, `ConfFile.BackslashIsLost`). The code also takes `-` for a digit, `.`
  in names, and any character between quotes; the model follows the code.
* A non-empty line of blanks is refused when the character after it in memory is a letter
  (`LineParser.BlankIff`, `LineParser.BlankLineRefused`).
* A load that starts with text left in the read buffer reads that text again in front of the file;
  this is harmless for every file exactly when the text is only line feeds
  (`Lines.StaleTextHarmless`, `Lines.StaleTextMixes`). A load without an exception leaves none. One
  with an exception leaves the end of what it read, and if that holds a whole refused line, no file
  loaded next is reached (`ConfIncludes.RefusedLineBlocks`, `ConfIncludes.StuckRun`).
* A string or number that does not fit in the cells left on the screen is written past the bottom
  row, and the screen then shows no log at all (`Console.Console.Convert`, `Console.Console.Kprintf`,
  `Console.NumberAcrossTheCorner`) until the next access, which scrolls once
  (`Console.OverflowRecovers`).
* The shell parses a line inside its buffers exactly when it has at most 20 arguments, words of at
  most 19 characters and at most 498 characters up to the end of the last word
  (`ShellWords.TypedLineInsideIff`). The shell reads lines of up to 999 characters, and the check for
  too many arguments lets a 21st through (`ShellWords.CheckComesTooLate`, `ShellWords.ManyArguments`,
  `ShellWords.LongWord`, `ShellWords.WideGap`).
* A pipe is found exactly when no line feed stands before the last one (`PipeSplit.PipesFoundIff`).
* The parent of a pipeline never closes the read ends, so a command inherits those of all earlier
  pipes (`Pipeline.ReadEndsInherited`).

## Model

| member | source | states |
|---|---|---|
| LineReader.File.Fread | rootfs/boot/support.4th:362-365 | any chunk of the rest of the file that fits, 0 only at its end, or an error, which only an unreliable file gives |
| LineReader.LineReader.SkipNewlines | rootfs/boot/support.4th:295-305 | drops the line feeds at the front of the buffer and nothing else |
| LineReader.LineReader.ScanBuffer | rootfs/boot/support.4th:307-323 | takes the buffered text up to the next line feed or the end of the buffer |
| LineReader.LineReader.LineBufferResize | rootfs/boot/support.4th:325-336 | keeps the line read so far and makes exactly the room asked for |
| LineReader.LineReader.AppendToLineBuffer | rootfs/boot/support.4th:338-343 | the line grows by the scanned text, which fits the resized buffer |
| LineReader.LineReader.ReadFromBuffer | rootfs/boot/support.4th:345-349 | no character is lost or made up between the line and what is pending |
| LineReader.LineReader.RefillBuffer | rootfs/boot/support.4th:356-366 | a refill leaves the pending text as it was and either fills the buffer or meets the end, and fails only when the read did |
| LineReader.LineReader.StartLoad | rootfs/boot/support.4th:370-372 | what is pending is the text left in the buffer and then the file |
| LineReader.LineReader.FillLine | rootfs/boot/support.4th:374-383 | the line has no line feed, and with the pending text it is what was pending, however the file is cut into reads; it fails only when a read did |
| LineReader.LineReader.ReadLine | rootfs/boot/support.4th:374-383 | the non-empty lines pending are the line read, if not empty, and those pending afterwards; every call makes progress, and fails only when a read did |
| Lines.LinesOfUnlines | rootfs/boot/support.4th:295-323 | lines written with line feeds, the last one with or without, are read back without the empty ones |
| Splitting.PeelWord | rootfs/boot/support.4th:295-323 | skipping separators and taking up to the next one peels exactly one word off |
| Splitting.WordsAreSplit | rootfs/boot/support.4th:295-323 | the words are the pieces of a split that are not empty |
| Lines.StaleTextHarmless | rootfs/boot/support.4th:370-372 | leftover text is harmless for every file if and only if it is only line feeds |
| Lines.StaleTextMixes | rootfs/boot/support.4th:370-372 | a leftover that runs into the first line of a file |
| Grammar.QuoteEndIsQuoted | rootfs/boot/support.4th:490-505 | the closing quote found ends a well-formed quoted body |
| Grammar.QuoteEndFinds | rootfs/boot/support.4th:490-505 | the closing quote of every well-formed quoted body is found |
| Grammar.DecomposeText | rootfs/boot/support.4th:387-393 | every reading of the grammar is found again from its text |
| Grammar.TextDecompose | rootfs/boot/support.4th:387-393 | a reading that is found is well-formed and has the line as its text |
| Grammar.AtMostOneReading | rootfs/boot/support.4th:387-393 | a line has at most one reading as an assignment |
| Grammar.BlankLineIff | rootfs/boot/support.4th:387-393 | a line is blank or a comment if and only if nothing or a comment follows its blanks |
| LineParser.AssignmentIff | rootfs/boot/support.4th:451-584 | a line is taken as an assignment of a name and a value if and only if the grammar reads it so |
| LineParser.BlankIff | rootfs/boot/support.4th:562-584 | a line is taken as blank if and only if the grammar says so, but for blanks with a letter after them in memory |
| LineParser.BlankLineRefused | rootfs/boot/support.4th:562-567 | the line of one blank whose fate hangs on the next byte of memory |
| LineParser.AssignmentShape | rootfs/boot/support.4th:463-472 | an accepted assignment has a proper name and a value that is not empty |
| ConfFile.WellFormedMeans | rootfs/boot/support.4th:387-449 | which characters the grammar allows where, spelled out |
| ConfFile.TypedAssignment | rootfs/boot/support.4th:451-584 | a typed assignment hands over its name and its whole value, a bare word or a text between quotes |
| ConfFile.TypedRemark | rootfs/boot/support.4th:451-584 | a typed line of blanks, or of blanks and a comment, hands over nothing |
| LineParser.OutlookOfLine | rootfs/boot/support.4th:523-584 | running the state words one after the other decides what the grammar decides |
| LineParser.LineParser.EatSpace | rootfs/boot/support.4th:455-461 | the pointer moves over the blanks and no further |
| LineParser.LineParser.ParseName | rootfs/boot/support.4th:463-472 | takes the longest run of name characters |
| LineParser.LineParser.ParseQuote | rootfs/boot/support.4th:490-507 | succeeds if and only if the quote is closed, with the backslashes removed |
| LineParser.RemoveBackslashes | rootfs/boot/support.4th:474-488 | the copy is the text without its backslashes |
| LineParser.LineParser.ReadValue | rootfs/boot/support.4th:514-521 | the value buffer holds the value at the pointer, quoted or not |
| LineParser.LineParser.DoWhiteSpace1 | rootfs/boot/support.4th:562-567 | keeps the outcome of the line, or fails where the outcome is a syntax error |
| LineParser.LineParser.DoVariableName | rootfs/boot/support.4th:557-560 | keeps the outcome, with the name in its buffer |
| LineParser.LineParser.DoWhiteSpace2 | rootfs/boot/support.4th:551-555 | keeps the outcome, or fails where it is a syntax error |
| LineParser.LineParser.DoAssignmentSign | rootfs/boot/support.4th:546-549 | keeps the outcome |
| LineParser.LineParser.DoWhiteSpace3 | rootfs/boot/support.4th:538-544 | keeps the outcome, or fails where it is a syntax error |
| LineParser.LineParser.DoVariableValue | rootfs/boot/support.4th:533-536 | keeps the outcome, with the value in its buffer, or fails where it is a syntax error |
| LineParser.LineParser.DoWhiteSpace4 | rootfs/boot/support.4th:527-531 | keeps the outcome, or fails where it is a syntax error |
| LineParser.LineParser.Execute | rootfs/boot/support.4th:571-579 | every pass raises the rank of the state word, reaches the end of the line or fails, and the pointer stays within the line |
| LineParser.LineParser.GetAssignment | rootfs/boot/support.4th:571-584 | succeeds if and only if the line parses, with the buffers both empty or both holding the assignment |
| Settings.AtMostOneTest | rootfs/boot/support.4th:590-623 | no name meets two of the tests, so their order does not matter |
| Settings.TestOfIff | rootfs/boot/support.4th:751-766 | the test chosen is the one the name meets |
| ModuleOptions.BuildSetCommand | rootfs/boot/support.4th:626-634 | the command fits the buffer allocated for it |
| ModuleOptions.LoaderSettings.AppendToModuleOptionsList | rootfs/boot/support.4th:651-659 | the list grows by one node at its end, which the tail pointer then names |
| ModuleOptions.LoaderSettings.FindModuleOption | rootfs/boot/support.4th:673-683 | the first node of that name, or none if and only if there is none |
| ModuleOptions.LoaderSettings.GetModuleOption | rootfs/boot/support.4th:685-695 | the node of that name, put at the end if there was none |
| ModuleOptions.LoaderSettings.SetModuleField | rootfs/boot/support.4th:697-736 | one field of one entry of the list changes |
| AssignmentMeaning.ApplyMeans | rootfs/boot/support.4th:620-766 | what each name does, spelled out: `m_load`, `m_name`, `m_type`, `m_flags`, `m_before`, `m_after` and `m_error` set that one field of module `m` to a yes or to the text of the value, the five other names their global or command, and any other name runs a `set` |
| AssignmentMeaning.PutBecomes | rootfs/boot/support.4th:651-736 | one field of one entry changes, at the end of the list if it is new, and all other entries stay as they were |
| AssignmentMeaning.OnlyText | rootfs/boot/support.4th:258-261 | a value stands for one text: itself, or what is between its quotes |
| ModuleOptions.LoaderSettings.ProcessAssignment | rootfs/boot/support.4th:751-766 | the settings change as the name and the value say, spelled out; the list stays well linked, and the assignment is recorded as handed over |
| OptionMap.PutLookup | rootfs/boot/support.4th:697-736 | a change sets one field of one module and leaves all else alone |
| OptionMap.PutNames | rootfs/boot/support.4th:673-695 | a new module goes to the end, a known one stays where it is |
| OptionMap.FillNames | rootfs/boot/support.4th:651-695 | after any changes the names are distinct and in order of first mention |
| OptionMap.FillLookup | rootfs/boot/support.4th:697-736 | after any changes each field holds the last value assigned to it |
| OptionMap.OnlyMap | rootfs/boot/support.4th:651-736 | a list is the ordered map of some changes in one way only |
| OptionMap.ApplyAllFills | rootfs/boot/support.4th:751-766 | of any assignments, with or without an exception, exactly the module settings up to the one that raises it reach the list |
| OptionMap.RunKeepsMap | rootfs/boot/support.4th:751-766 | any run of assignments, with or without an exception and from whatever earlier files left, leaves the ordered map from module and field to the last value of all changes so far |
| ConfFile.ConfIsApplyAll | rootfs/boot/support.4th:783-794 | a file without syntax errors hands its assignments over in order, each with a name |
| ConfFile.ConfFills | rootfs/boot/support.4th:783-794 | exactly the module settings of the lines up to the one that raises an exception reach the list |
| ConfFile.ConfKeepsMap | rootfs/boot/support.4th:783-794 | any file, with or without an exception and from whatever earlier files left, leaves the ordered map of all changes so far |
| ConfFile.ItemsAssigned | rootfs/boot/support.4th:783-794 | no line of a well-formed file is refused, and its assignments are exactly the settings it was written from, in order |
| ConfFile.FileRoundTrip | rootfs/boot/support.4th:783-794 | a file written from a list of settings, blanks and comments hands over exactly that list of settings in order, and has its effect |
| ConfFile.QuotedValueReturns | rootfs/boot/support.4th:259-261 | a quoted value is recovered if and only if it has no backslash |
| ConfFile.BackslashIsLost | rootfs/boot/support.4th:474-488 | the value of one backslash comes back empty |
| ConfFile.WrittenText | rootfs/boot/support.4th:387-449 | how an entry, a bare entry and a note stand in the file |
| ConfFile.ContentsReturn | rootfs/boot/support.4th:259-261 | settings written between quotes or bare are handed over with their own names and contents, in order |
| ConfFile.WrittenFileReturns | rootfs/boot/support.4th:783-794 | the whole round trip from names and contents to a file and back: the assignments of the file, unquoted, are the names and contents in order |
| ConfLoader.ConfLoader.ProcessConf | rootfs/boot/support.4th:783-794 | for every way of cutting the file, the settings end as processing its non-empty lines in order says; what was handed over is what the lines up to the first exception assign, in order; a read error comes only from a failed read and leaves the effect of a prefix of the lines |
| ConfLoader.ConfLoader.LoadConf | rootfs/boot/support.4th:813-822 | the lines processed are those of the leftover text and the file, as exactly as for `ProcessConf`; a load without an exception leaves the read buffer empty, and one with an exception other than a read error leaves the end of what was read; what it reaches afterwards is old or new |
| ConfFileNames.GetNextFile | rootfs/boot/support.4th:910-939 | the next space-separated name, or nothing if and only if none is left |
| ConfIncludes.IncludeConfFiles | rootfs/boot/support.4th:905-981 | every file named is loaded, each followed by those it names in turn; only a command that fails stops the loading, and any other exception does not; each load follows from the settings and the read buffer, stops at the line that raises its exception, and meets a read error only on a file that is not reliable |
| ConfIncludes.RunBelow | rootfs/boot/support.4th:971-981 | the names still to come wait, untouched, until all that a file leads to is loaded |
| ConfIncludes.LoadsNeverMix | rootfs/boot/support.4th:971-981 | from an empty read buffer, and while files raise no exception of their own, the settings are those of each file's own lines in turn, depth first |
| ConfIncludes.CleanNeverFails | rootfs/boot/support.4th:945-981 | files that can be read and raise no exception are all loaded to their end |
| ConfIncludes.IncludesKeepMap | rootfs/boot/support.4th:945-981 | over all files of a run, whatever exceptions they raise, the list of modules stays the ordered map of all assignments handed over so far, each load handing over its lines up to the one that raises an exception |
| ConfIncludes.ReadConf | rootfs/boot/loader.4th:152-155 | the loads made are a run of the files named; from an empty read buffer, files that can be read and raise no exception are all loaded, and the settings and the assignments handed over are those of each file's own lines in turn; whatever happens, the list of modules is the ordered map of all assignments handed over |
| ConfIncludes.Start | rootfs/boot/loader.4th:122-124 | the same for a new loader, which has nothing set and nothing in its buffer |
| ConfIncludes.LoadFirst | rootfs/boot/support.4th:813-822 | a new loader processes exactly the lines of its first file |
| ConfIncludes.LoadWritten | rootfs/boot/support.4th:783-822 | the round trip through the running loader: a file written from names and contents hands over exactly those, in order and each once, up to an exception |
| ConfIncludes.RefusedLineBlocks | rootfs/boot/support.4th:813-822 | a whole refused line left in the read buffer raises its exception again before any line of the next file is reached |
| ConfIncludes.StuckRun | rootfs/boot/support.4th:368-383 | a run in which one refused line, read whole with its file, keeps every file after it from being processed |
| KernelSearch.ParseSemicolon | rootfs/boot/support.4th:1174-1188 | the text before the first semicolon and the text after it |
| KernelSearch.CandidatesAreSplit | rootfs/boot/support.4th:1174-1214 | the candidates are the pieces between semicolons, less a last empty one |
| KernelSearch.TryMeans | rootfs/boot/support.4th:1192-1214 | a search makes its attempts in order up to the first that succeeds, and fails if and only if all do |
| KernelSearch.TryAppend | rootfs/boot/support.4th:1226-1249 | searching one plan after another is searching both |
| KernelSearch.DirectoryMade | rootfs/boot/support.4th:1281-1331 | the attempts of a directory search: every kernel of `bootfile` and then of `kernel` under `/boot/` and the path, and only if all fail under the path alone, with the same flags, up to the first success |
| KernelSearch.PathMade | rootfs/boot/support.4th:1355-1368 | the same, and only if all fail the kernels of the path taken as a list, under the old `module_path` |
| KernelSearch.KernelLoader.TryMultipleKernels | rootfs/boot/support.4th:1192-1214 | the attempts made and the result are those of the search through the candidates |
| KernelSearch.KernelLoader.LoadAKernel | rootfs/boot/support.4th:1226-1249 | the candidates of `bootfile` are tried before those of `kernel` |
| KernelSearch.KernelLoader.TryDirectories | rootfs/boot/support.4th:1268-1331 | the kernels are tried in `/boot/` and the path and then in the path alone, with `module_path` the directory tried last |
| KernelSearch.KernelLoader.RestoreEnv | rootfs/boot/support.4th:1139-1148 | `module_path` reads as it did before, whether it was set or not, and no other variable changes |
| KernelSearch.KernelLoader.LoadFromDirectory | rootfs/boot/support.4th:1268-1331 | the attempts made are those, `/boot/` first; on failure the environment is as before; on success `module_path` is the directory of the kernel in front of the old value; no append passes the allocated length |
| KernelSearch.KernelLoader.LoadDirectoryOrFile | rootfs/boot/support.4th:1355-1368 | the path is tried as a directory and then as a list of kernels under the old `module_path`, with exactly these attempts up to the first success |
| ArgvStack.Stack.QueueArgv | rootfs/boot/support.4th:1427-1433 | the word goes below all words queued before it |
| ArgvStack.Stack.UnqueueArgv | rootfs/boot/support.4th:1435-1437 | the word queued first is taken off |
| ArgvStack.Stack.GetArguments | rootfs/boot/support.4th:1499-1508 | the words of the line are queued in order |
| ArgvStack.Stack.ArgLength | rootfs/boot/support.4th:1409-1417 | the length picked out of the stack is that of the word asked for |
| ArgvStack.Stack.StrlenArgv | rootfs/boot/support.4th:1440-1454 | the length of all words with a space after each |
| ArgvStack.Stack.ConcatArgv | rootfs/boot/support.4th:1456-1471 | the buffer holds the words first in first out, each with a space, and is filled to the last byte |
| Numerals.ReadBack | sys/kprintf.c:165-168 | the digits have no leading zero and read back as the number |
| Numerals.OnlyNumeral | sys/kprintf.c:165-168 | a number has one canonical numeral only |
| Numerals.NumeralReadsBack | sys/kprintf.c:210-231 | the printed text reads back as the number and starts with `0` only for zero |
| Numerals.SignedNumeralReadsBack | sys/kprintf.c:148-175 | the printed text of a signed number reads back as that number |
| Numerals.DigitsFitScratch | sys/kprintf.c:151-168 | the digits of every 32-bit and every 64-bit number fit the scratch array |
| ScreenLog.RunMeans | sys/kprintf.c:73-146 | in the log every cell holds the character that falls on it, and the window follows the cursor |
| ScreenLog.PassedCellsStay | sys/kprintf.c:118-146 | no character ever falls on a cell already passed |
| ScreenLog.CharacterStays | sys/kprintf.c:118-146 | a character stays in the log whatever is printed after it |
| Console.ScrollShows | sys/kprintf.c:18-35 | copying the rows up in place moves the window down by one row |
| Console.WriteShows | sys/kprintf.c:118-146 | text that fits is shown as the log has it |
| Console.WriteAnywhere | sys/kprintf.c:140-146 | after writing a text the screen shows the log if and only if the text fits |
| Console.CellAt | sys/kprintf.c:18-46 | where each cell of the log and its attribute are in video memory |
| Console.SignedPieces | sys/kprintf.c:148-175 | `%d` prints one decimal number, with a minus sign if it is negative, that reads back as the argument |
| Console.UnsignedPieces | sys/kprintf.c:210-231 | `%x` prints one decimal number that reads back as the argument |
| Console.AddressPieces | sys/kprintf.c:177-207 | `%p` prints `0`, or a NUL and an upper-case hexadecimal number that reads back as the argument |
| Console.TextPieces | sys/kprintf.c:73-116 | `%s` and `%c` print their argument, an unknown conversion nothing, a line feed starts a row, and other characters print themselves |
| Console.PiecesAppend | sys/kprintf.c:73-116 | formats that follow each other print one after the other, so these say what every format prints |
| Console.OverflowShowsNothing | sys/kprintf.c:41-46 | a cursor past the bottom row is the cursor of no log |
| Console.NumberAcrossTheCorner | sys/kprintf.c:210-231 | 100 printed at the last cell overwrites the status row |
| Console.Console.ScrollUp | sys/kprintf.c:21-34 | all rows move up by one and the bottom row is blank |
| Console.Console.GetCurrentAddress | sys/kprintf.c:18-39 | the address is on the screen, after one scroll if the cursor stood below it, wherever below |
| Console.Console.HandleString | sys/kprintf.c:140-146 | the text and its attributes are written from the address on, and nothing else |
| Console.Console.HandleSignedInt | sys/kprintf.c:148-175 | writes the sign and the decimal numeral |
| Console.Console.HandleUnsignedInt | sys/kprintf.c:210-231 | writes the decimal numeral, also for `%x` |
| Console.Console.HandleAddress | sys/kprintf.c:177-207 | writes the hexadecimal numeral, after one NUL cell if it is not zero |
| Console.Console.HandleNewLine | sys/kprintf.c:134-138 | the screen shows the log with the cursor on the next row |
| Console.Console.HandleEverythingElse | sys/kprintf.c:118-126 | the screen shows the log with the character, or with a new row for a line feed |
| Console.Console.Convert | sys/kprintf.c:85-109 | the screen shows the log with the text of the conversion if and only if it fits, and the attributes stay |
| Console.ChainMeans | sys/kprintf.c:73-116 | the log is shown after every piece if and only if each piece fits when its turn comes |
| Console.AnyScreenResumes | sys/kprintf.c:18-39 | every screen, also one whose cursor has run past the bottom row, can be printed on as a log of its own |
| Console.OverflowRecovers | sys/kprintf.c:18-39 | after an overflow the next access scrolls once and shows a log again, with the cursor at the start of a blank bottom row |
| Console.LastLogResumes | sys/kprintf.c:73-116 | after any pieces the screen goes on from a log, the expected one if it is shown |
| Console.Console.Kprintf | sys/kprintf.c:73-116 | the screen shows the log of all that was printed after every piece if and only if each piece fits when its turn comes, and then the status row is untouched; after a piece that does not fit the printing goes on from what is on the screen |
| ShellWords.SlotsAppend | bin/sbush/parser.c:71-111 | one more character moves the command and the arguments on by exactly that character |
| ShellWords.WordsOfRender | bin/sbush/parser.c:63-115 | words written with any runs of spaces between them are the words of the line |
| ShellWords.ParseOfRender | bin/sbush/parser.c:30-115 | a typed command comes back with its arguments, and in the background if and only if its tail has an ampersand |
| ShellWords.TypedLineMeans | bin/sbush/parser.c:30-115 | a typed line is its first word with the others as arguments, in the background if and only if its tail has an ampersand; it stays inside the buffers if and only if it has at most 20 arguments, words of at most 19 characters and 498 characters up to the last word |
| ShellWords.StaysInsideIff | bin/sbush/parser.c:53-111 | every write of the parser is inside its buffer if and only if the trimmed copy fits, and the words fit in number and length |
| ShellWords.TypedLineInsideIff | bin/sbush/parser.c:53-111 | the same for any typed line, by its number of words, their lengths and the length of the line |
| ShellWords.CheckComesTooLate | bin/sbush/parser.c:89-95 | the check for too many arguments is never met before a write outside |
| ShellWords.ManyArguments | bin/sbush/parser.c:89-102 | a line of 21 arguments that the shell can be given |
| ShellWords.LongWord | bin/sbush/parser.c:77-81 | a command of 20 characters that the shell can be given |
| ShellWords.WideGap | bin/sbush/parser.c:53-58 | two words too far apart, in a line that the shell can be given |
| CommandParser.FindBody | bin/sbush/parser.c:37-51 | the line without its leading spaces and its tail of spaces, line feeds and ampersands |
| CommandParser.Trim | bin/sbush/parser.c:30-61 | the trimmed line is in its buffer as a C string, and the background flag is set as it should be |
| CommandParser.Advance | bin/sbush/parser.c:71-111 | the buffers hold the slots after one more character |
| CommandParser.ParseInput | bin/sbush/parser.c:63-115 | the buffers hold the command and the arguments of the line as C strings |
| PipeSplit.CountNumberOfPipes | bin/sbush/sbush.c:357-366 | one less than the pieces of the line |
| PipeSplit.Strchr | libc/strchr.c:4-14 | the first occurrence, unless a line feed comes before it |
| PipeSplit.CutPiece | bin/sbush/sbush.c:389-399 | the piece before the pipe becomes a C string and the rest of the line stays one |
| PipeSplit.PipesFoundIff | libc/strchr.c:4-14 | every pipe is found if and only if no line feed stands before the last one |
| PipeSplit.ParsePipeCommand | bin/sbush/sbush.c:385-401 | every slot holds the parse of its piece of the original line |
| PipeSplit.IsValidateParsedPipeInput | bin/sbush/sbush.c:376-383 | valid if and only if every piece has a command |
| PipeSplit.PipelineReturns | bin/sbush/sbush.c:385-401 | a typed pipeline comes back command by command |
| Pipeline.Process.Duplicate | bin/sbush/sbush.c:312-322 | the new descriptor takes over and the old one is closed, unless they are the same |
| Pipeline.Process.RunPiping | bin/sbush/sbush.c:324-353 | every command is started once, in order, with its exact table of descriptors, for any choice of unused descriptors |
| Pipeline.Wired | bin/sbush/sbush.c:324-353 | each command reads from its predecessor's pipe and alone holds the write end of its own |
| Pipeline.ReadEndsInherited | bin/sbush/sbush.c:346-349 | a command holds the read end of a pipe if and only if the pipe is an earlier one |
| Pipeline.ExecutePipeline | bin/sbush/sbush.c:417-426 | the whole pipeline is wired so, and the shell's own descriptors are untouched |
| Environment.OverwriteLookup | libc/getenv.c:42-60 | overwriting changes the value of one key |
| Environment.AppendLookup | libc/getenv.c:30-43 | a later duplicate of a key is not seen |
| Environment.RunsAreMaps | libc/getenv.c:17-64 | any run of calls is a run of map updates, in mode 0 only for absent keys, and a failed call does nothing |
| Environment.EnvironmentTable.Getenv | libc/getenv.c:17-26 | the value of the first entry with the key |
| Environment.EnvironmentTable.Setenv | libc/getenv.c:28-64 | succeeds exactly when a slot is left or, in mode 1, the key is there; the entries stay a prefix, each old or new |
| Environment.EnvironmentTable.SetenvAll | libc/getenv.c:28-64 | any run of calls on the table is the run of the same calls on its entries |
| InterruptTable.HandlerOfGate | sys/idt.c:87-96 | no bit of a handler's address is lost in a gate |
| InterruptTable.GateFields | sys/idt.c:81-97 | each part of the address is in its field, with selector 8 and type 0x8E |
| InterruptTable.GatesAfter | sys/pic.c:191-213 | after any calls each gate leads to the last handler installed at it, or the default, field by field |
| InterruptTable.DescriptorTable.SetInterruptServiceRoutine | sys/idt.c:81-97 | one gate is replaced and no other, or none for a null handler or a number past the table |
| InterruptTable.DescriptorTable.SetIrInIdt | sys/pic.c:208-213 | a null handler or a number out of range changes nothing |
| InterruptTable.DescriptorTable.GetIrFromIdt | sys/pic.c:191-206 | the handler of the gate, or null for a number out of range |
| InterruptTable.DescriptorTable.InitIdt | sys/idt.c:57-79 | every gate leads to the default handler |

## Left out

- LineReader.LineReader.ReadLine: an allocation failure (`ENOMEM`) is not modelled, here or elsewhere in the configuration loader.
- ModuleOptions.LoaderSettings.ProcessAssignment: the text of an `exec` or `set` command is handed to an interpreter that may succeed or fail but changes nothing else in the model, because what it runs is an arbitrary script.
- ConfIncludes.IncludeConfFiles: makes at most `budget` loads, because files may name each other without end; any number is allowed, so what is proved holds after every number of loads. A file opens exactly if it is on the disk, and the text of the warnings is not modelled.
- ConfLoader.ConfLoader.LoadConf: after a read error nothing is said about the text left in the buffer, which a failed read may have overwritten.
- Console.Console.HandleSignedInt: excludes the least `int`, whose negation overflows in C.
- Console.Console.Kprintf: a format must not end in a single `%` and must be given arguments of the types it asks for, as C demands.
- CommandParser.ParseInput: the line must stay inside the buffers, by the exact condition of `ShellWords.TypedLineInsideIff`; what C does outside them is undefined. For a line that does not begin with a space and has nothing but spaces, line feeds and ampersands, if anything, the C code also reads, and ignores, the byte before it.
- CommandParser.Trim: the same, for the copy of the trimmed line.
- PipeSplit.ParsePipeCommand: no line feed may stand before a pipe, by the exact condition of `PipeSplit.PipesFoundIff`; the C code would go on from a null pointer. A line read by `fgets` has its line feed at its end.
- Pipeline.Process.RunPiping: `pipe`, `fork` and `dup2` succeed; that the commands run at the same time is left out because each process has its own descriptor table.
- Environment.EnvironmentTable.Setenv: a value is the pointer that was passed in; what happens to the memory behind it later is not modelled.
- InterruptTable.DescriptorTable.SetInterruptServiceRoutine: excludes a handler for gate 256, which the check of the number lets through although it does not exist; nothing calls it so.
- `standard_kernel_search`, `load_kernel`, `set_tempoptions`: thin wrappers around the search and the argument words.
- `load_module` and its retries, `include_nextboot_file`, `peek_file`, error messages: they depend on scripts and output.
- The allocator, system call stubs, keyboard, timer, PCI and PIC programming: straight-line device code.
- `printTime`, `printKeypress`: fixed cells of the status row.
- `cd`, `pwd`, `echo`, `export`, the prompt, script execution and waiting for processes: input and output plumbing.
