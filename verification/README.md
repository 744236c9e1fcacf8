# Verification of the LCDproc cores

This project models the deterministic cores of LCDproc, the LCD display server and its clients, and
proves what they promise. `dafny verify dfyconfig.toml` checks all of it.

Code that works step by step is modelled step by step. The static cursor of getopt, the linked list, the
screen list, the argument block of the tokenizer, the configuration parser, the menu items, the tree of
widgets and the interface cache are classes whose methods update fields, arrays and links as the program
does. Each such method is proved against a function, and the laws are proved about those functions. What is read (command
lines, formats, messages, configuration files, keys) is also defined apart from its reader, by the ways of
writing it, and every way is proved to be read as what it means.
Messages to clients are a trace of values, and draw calls are a list of drawn strings.

| Part | Files |
|---|---|
| getopt, short options in permuting order; the command lines it reads | `Getopt.dfy`, `OptionTable.dfy` |
| linked list, its sort and its priority queue | `Sorting.dfy`, `LinkedList.dfy` |
| screen scheduler: invariant over runs, rotation, the program | `Schedule.dfy`, `Rotation.dfy`, `ScreenList.dfy` |
| bounded formatted printing, its layout and its formats | `Snprintf.dfy`, `SnprintfLayout.dfy`, `FormatText.dfy` |
| message tokenizer, the messages it reads, and the line printer of lcdvc | `Tokenizer.dfy`, `MessageForm.dfy`, `ParseMessage.dfy`, `LcdLink.dfy` |
| configuration files and their lines | `ConfigFile.dfy`, `ConfigLine.dfy` |
| IP address editor and its keys | `IpText.dfy`, `IpEditor.dfy`, `IpKeys.dfy`, `StripLoop.dfy`, `IpItem.dfy` |
| text and number editors and their keys | `TextEditors.dfy`, `TextKeys.dfy`, `TextItems.dfy` |
| scrollers and frames | `Scroller.dfy`, `Frames.dfy`, `FrameRenderer.dfy` |
| interface names and the interface cache | `NameOrder.dfy`, `InterfaceCache.dfy` |
| shared: nullable values, strings in buffers, digits | `Common.dfy`, `CStrings.dfy`, `Numbers.dfy` |

## Where the code does not do what one might expect

Each of these is proved, with the condition under which the code does what one expects.

- An integer conversion with the length modifier `h` decides sign, prefix and emptiness on the int that was
  passed, not on the short that is printed: `%+hd` of 32768 prints both signs. `LayoutIsStandardIff` says
  exactly when the output meets section 7.19.6.1 of ISO/IEC 9899:1999.
- The previous key undoes the next key only while the current screen belongs to the highest priority class or
  is followed by a screen of its own priority (`PrevUndoesNext`).
- An IPv6 value that is not in the full form passes the check of an IP item but does not fill its edit text;
  `ResettableIff` gives the condition, `CompressedIsShort` the address `::1`.
- Padding and stripping an address turn its hexadecimal digits to lower case. A canonical full-form address
  comes back exactly if it has no digit in upper case (`StripOfPadIff`); the server's own test item,
  `1080:0:0:0:8:800:200C:417A`, does not (`UpperCaseIsLost`).
- DOWN takes back UP in an IP group unless UP wrapped from a value other than the limit (`DownUndoesUp`).
- The UP and DOWN keys of a text item are inverse exactly over an alphabet without duplicates
  (`KeysAreInverse`, `DuplicatesBreakTheCycle`); `AlphabetIsDistinctIff` says when the settings give one.
- Names such as `eth`, `eth0` and `eth00` compare equal (`NamesThatCompareEqual`), and in general exactly the
  names with the same key do (`KeysOpposite`).
- An interface name of 16 or more characters is placed by its full text but stored cut. The cache stays strictly
  ascending exactly if the name is already present or the cut does not move it past a cached name
  (`AddedIsAscendingIff`), and the name is found again exactly if it was present or compares equal to its cut
  form (`AddedIsFoundIff`); `LongNameIsDoubled` shows a name that fails both.
- In a configuration file a comment right behind a value, without a blank, hides the whole setting, and nothing is
  reported (`CommentHidesSetting`).
- A name without `=` is an error. When a blank stands between it and the line end, the whole next line is ignored
  as well (`SecondWordFails`).
- A carriage return is a blank in front of a line and ends a value, but behind a label it is an error, and nothing
  else of that line is read (`StrangeBehindItem`). A `]` behind a label or value is an error too, but what follows
  it is read at once (`BracketBehindItem`).
- `LL_Next` on the tail sentinel leaves the list with a null cursor, and so does `LL_Prev` on the head
  (`LinkedList.Next`, `LinkedList.Prev`).

## Model

| member | source | states |
|---|---|---|
| `Getopt.ScanIsStablePartition` | shared/getopt.c:88-97 | the left-to-right scan puts every element on exactly one side, options or operands, in its original order, and an element with option syntax is an operand only behind `--` |
| `Getopt.RescanIsSilent` | shared/getopt.c:587-597 | scanning the operands that are left over reports nothing, unless `--` protected some |
| `Getopt.ScanSkips` | shared/getopt.c:561-566 | a run of operands in front changes the scan only by those operands |
| `Getopt.SwapBlocks` | shared/getopt.c:346-370 | two blocks of equal length are exchanged element by element and nothing else moves |
| `Getopt.RotatedAt` | shared/getopt.c:289-296 | the rotation of two adjacent blocks, element by element |
| `Getopt.RotateShortBottom` | shared/getopt.c:340-356 | after swapping a short bottom block to the top, rotating the rest gives the rotation of the whole |
| `Getopt.RotateShortTop` | shared/getopt.c:357-373 | the same for a short top block swapped to the bottom |
| `Getopt.Getopt.Exchange` | shared/getopt.c:302-380 | argv[first_nonopt..optind) becomes its exact rotation, nothing else changes, the loop ends, and the two indices follow the operands |
| `Getopt.Getopt.Initialize` | shared/getopt.c:519-526 | starting a scan changes nothing of what is still to be reported |
| `Getopt.Getopt.BringForward` | shared/getopt.c:544-559 | the options found since the last operands are moved in front of them, after an optind moved back by the caller has been respected |
| `Getopt.Getopt.SkipOperands` | shared/getopt.c:561-567 | exactly the operands in front are passed |
| `Getopt.Getopt.EndOfOptions` | shared/getopt.c:569-585 | `--` joins the options and everything behind it the operands |
| `Getopt.Getopt.Permute` | shared/getopt.c:544-567 | one step of permuting keeps the outcome of the whole scan |
| `Getopt.Getopt.Advance` | shared/getopt.c:540-614 | either the next option element is found and fewer elements remain, or the partition is complete and optind is the first operand |
| `Getopt.Getopt.DecodeOption` | shared/getopt.c:766-961 | one option character is decoded with its required, optional or missing argument, an unknown one or one without its argument is left in optopt, and optind moves past what was used |
| `Getopt.Getopt.ReportOption` | shared/getopt.c:766-961 | the character and argument reported are the first of the pending scan, and (elements left, characters left) decreases |
| `Getopt.Getopt.NextOption` | shared/getopt.c:966-975 | one call reports the first event of the scan and keeps the rest of its outcome; -1 comes exactly when nothing is left, with argv partitioned |
| `Getopt.Getopt.ParseAll` | shared/getopt.c:509-963 | calling until -1 yields exactly the events of a left-to-right scan of the original argv, ends, leaves program name, options, operands in argv and optind on the first operand |
| `OptionTables.CommandLineIsRead` | shared/getopt.c:509-963 | for every table of options, every list of choices and operands and every way of writing them (clusters, arguments attached or separate, absent optional ones, a final `--` or missing argument), exactly these choices are reported in order and the operands are left |
| `OptionTables.ScanReadsItems` | shared/getopt.c:766-961 | the same for the part of a command line in front of anything |
| `OptionTables.ScanEnding` | shared/getopt.c:569-585 | behind `--` everything is an operand, and a required argument that is missing is reported as `?`, or as `:` when the option string starts with a colon |
| `OptionTables.KindOfEntry` | shared/getopt.c:770-791 | an option takes what its table entry says, written as none, one or two colons |
| `OptionTables.KindOfStranger` | shared/getopt.c:775-791 | a character that is not in the table is unknown |
| `OptionTables.ServerOptionString` | server/main.c:301 | the table of the server is written as the option string it passes |
| `OptionTables.ConfigurationFile` | server/main.c:301-311 | `-c` with any file name reports that name as its argument |
| `Sorting.SelectionSortIsSort` | shared/LL.c:774-821 | the sort of LL_Sort gives a sorted permutation, and leaves exactly the sorted lists unchanged |
| `Sorting.EnqueueSplits` | shared/LL.c:613-644 | everything in front of the place of a new item is not after it, everything behind it is |
| `Sorting.EnqueueKeepsSorted` | shared/LL.c:613-644 | priority insertion keeps a sorted list sorted |
| `LinkedLists.RollsAreInverse` | shared/LL.c:527-607 | rolling moves the last element to the front and every other one place on; unrolling undoes it, and the other way round |
| `LinkedLists.InsertLinked` | shared/LL.c:295-347 | linking a node between its neighbours gives a well-formed list |
| `LinkedLists.RemoveLinked` | shared/LL.c:79-98 | closing the links around a node gives a well-formed list |
| `LinkedLists.SwapLinked` | shared/LL.c:648-688 | the links that LL_SwapNodes writes are those of the list with the two nodes exchanged, adjacent in either order or not |
| `LinkedLists.LinkedList.constructor` | shared/LL.c:15-32 | a new list is empty, with the cursor on the head |
| `LinkedLists.LinkedList.Rewind` | shared/LL.c:118-134 | the cursor goes to the first item, or the head of an empty list |
| `LinkedLists.LinkedList.End` | shared/LL.c:139-150 | the cursor goes to the last item, or the tail of an empty list |
| `LinkedLists.LinkedList.Next` | shared/LL.c:155-168 | the cursor moves on, stops on the last item, and becomes null behind the tail |
| `LinkedLists.LinkedList.Prev` | shared/LL.c:173-186 | the same backwards |
| `LinkedLists.LinkedList.Get` | shared/LL.c:191-199 | the item under the cursor, none on a sentinel or off the list |
| `LinkedLists.LinkedList.GetFirst` | shared/LL.c:242-251 | rewinds and reads the first item |
| `LinkedLists.LinkedList.GetNext` | shared/LL.c:256-265 | moves on and reads, none at the end |
| `LinkedLists.LinkedList.GetPrev` | shared/LL.c:269-278 | moves back and reads, none at the start |
| `LinkedLists.LinkedList.AddNode` | shared/LL.c:295-347 | inserts behind the cursor, wherever it was, and moves there |
| `LinkedLists.LinkedList.InsertNode` | shared/LL.c:351-381 | inserts in front of the cursor, wherever it was, and moves there |
| `LinkedLists.LinkedList.DeleteNode` | shared/LL.c:387-432 | removes the item under the cursor and moves as the program does |
| `LinkedLists.LinkedList.Remove` | shared/LL.c:437-452 | removes the first occurrence of an item, or nothing |
| `LinkedLists.LinkedList.Push` | shared/LL.c:457-469 | appends |
| `LinkedLists.LinkedList.Pop` | shared/LL.c:473-482 | removes and returns the last item |
| `LinkedLists.LinkedList.Shift` | shared/LL.c:493-502 | removes and returns the first item |
| `LinkedLists.LinkedList.Unshift` | shared/LL.c:513-523 | puts an item in front |
| `LinkedLists.LinkedList.Unlink` | shared/LL.c:79-98 | takes one node out and leaves the others linked in order |
| `LinkedLists.LinkedList.Roll` | shared/LL.c:527-565 | moves the last node to the front, the same nodes otherwise, and stops on the one behind it |
| `LinkedLists.LinkedList.UnRoll` | shared/LL.c:569-607 | moves the first node to the end, the same nodes otherwise, and stops on the one in front of it |
| `LinkedLists.LinkedList.SwapNodes` | shared/LL.c:648-688 | exchanges two nodes in place for any two positions, equal and adjacent ones included, keeping the list well formed |
| `LinkedLists.LinkedList.Length` | shared/LL.c:699-713 | the number of items |
| `LinkedLists.LinkedList.FindBest` | shared/LL.c:790-806 | the node that the inner loop of the sort selects, the last one if nothing is after it |
| `LinkedLists.LinkedList.Sort` | shared/LL.c:774-821 | the heap list ends well formed, on the same nodes, in the order of the sort |
| `LinkedLists.LinkedList.PriorityEnqueue` | shared/LL.c:613-644 | the item goes behind everything it does not precede, walking back from the end |
| `Schedule.SwitchInforms` | server/screenlist.c:168-203 | switching keeps the listen and ignore messages of every screen alternating, with a listen outstanding exactly for the current one |
| `Schedule.RemoveKeeps` | server/screenlist.c:76-95 | removal leaves a current screen first and keeps the invariant, never ending without a screen |
| `Schedule.SortKeeps` | server/screenlist.c:270-287 | sorting by priority permutes the list, and changes it exactly when it was not in order |
| `Schedule.ExpireKeeps` | server/screenlist.c:134-143 | the current screen is taken off the list and left exactly when its timeout runs out with this frame; any other timeout drops by one |
| `Schedule.ProcessKeeps` | server/screenlist.c:99-164 | a frame keeps the invariant and ends with a current screen |
| `Schedule.StepKeeps` | server/screenlist.c:67-266 | every operation on the list keeps the invariant |
| `Schedule.RunKeepsInvariant` | server/screenlist.c:67-266 | at every point of every run the current screen is listed and each client screen has been told listen and ignore in turn, truthfully |
| `Schedule.AddGoesLast` | server/screenlist.c:67-72 | a screen is added behind all others, whose order stays |
| `Rotation.ProcessShowsTop` | server/screenlist.c:99-164 | after every frame the current screen has the highest priority of all listed ones |
| `Rotation.FrameChangesIff` | server/screenlist.c:99-164 | a frame changes the current screen if and only if its timeout runs out, a listed screen has a higher priority, or screens rotate, it has been on for its duration, and it shares the priority info or foreground with another one; otherwise start and messages stay |
| `Rotation.ClassIsTop` | server/screenlist.c:252-263 | the first screens of a sorted list are exactly those of the highest priority |
| `Rotation.PrevUndoesNext` | server/screenlist.c:214-266 | on a sorted list the previous key undoes the next key if and only if the screen is of the highest class or followed by one of its own priority |
| `Rotation.NextUndoesPrev` | server/screenlist.c:214-266 | the next key undoes the previous key if and only if the screen is first or preceded by one of its own priority |
| `Rotation.RotationSchedule` | server/screenlist.c:156-163 | with a fixed sorted list and no timeouts, which screen shows at which tick, exactly |
| `Rotation.RoundTime` | server/screenlist.c:156-163 | a round comes back to its start after the sum of the durations of its class |
| `Rotation.EveryScreenIsShown` | server/screenlist.c:156-163 | from any tick of the rotation, however long the current screen has been on, every screen of the highest class is current after some frame of the next round, also in a class of one |
| `Rotation.RotationGoesOn` | server/screenlist.c:156-163 | at every later tick some screen of the class is on, so that fairness holds again from there |
| `Rotation.GivesWay` | server/screenlist.c:156-163 | a screen gives way to the next of its class when its stay is over, or with the next frame when it has been on longer |
| `Rotation.OnlyScreenStays` | server/screenlist.c:156-163 | a screen alone in the highest class stays on, unchanged |
| `ScreenLists.WrappedSort` | server/screenlist.c:270-287 | sorting the items of the list sorts the screens in them |
| `ScreenLists.ScreenList.Switch` | server/screenlist.c:168-203 | the fields change and the messages are sent as the scheduler says |
| `ScreenLists.ScreenList.FindCurrent` | server/screenlist.c:223-224 | the walk stops on the current screen, or on the last node when it is not listed |
| `ScreenLists.ScreenList.GotoNext` | server/screenlist.c:214-234 | next screen, wrapping at the end of the class |
| `ScreenLists.ScreenList.LastOfClass` | server/screenlist.c:252-263 | the walk over the screens of the first class ends on its last one |
| `ScreenLists.ScreenList.GotoPrev` | server/screenlist.c:238-266 | previous screen, wrapping to the last of the first class |
| `ScreenLists.ScreenList.Add` | server/screenlist.c:67-72 | appends |
| `ScreenLists.ScreenList.Remove` | server/screenlist.c:76-95 | leaves and removes a screen, on the linked list |
| `ScreenLists.ScreenList.Sort` | server/screenlist.c:109-111 | the linked list ends sorted by the priorities of its screens |
| `ScreenLists.ScreenList.Expire` | server/screenlist.c:134-143 | counts down and destroys, removing a client screen twice as the program does, reading it afterwards |
| `ScreenLists.ScreenList.Process` | server/screenlist.c:99-164 | one frame on the linked list is one frame of the scheduler |
| `Snprintf.Vsnprintf` | shared/snprintf.c:542-1028 | for every format, arguments and size the result is the length of the unlimited output; only the first m positions are written, with the output cut off to fit and then NUL |
| `Snprintf.Put` | shared/snprintf.c:560-570 | a piece is copied as far as it fits and counted entirely |
| `Snprintf.ReadFlags` | shared/snprintf.c:602-621 | all flags, in any order; a plus overrides a blank only as coded |
| `Snprintf.ReadDirective` | shared/snprintf.c:601-680 | flags, width, precision, length modifier and conversion of one directive, with arguments taken for stars |
| `Snprintf.Emit` | shared/snprintf.c:945-1006 | blanks, prefix, zeros, text and blanks go to the buffer in that order, each counted as an int, cut off to fit |
| `SnprintfLayout.OnlyShortsAreMisjudged` | shared/snprintf.c:819-882 | sign, prefix and emptiness can only be misjudged with the length modifier h |
| `SnprintfLayout.NumberText` | shared/snprintf.c:843-895 | where zeros are inserted is behind the sign or 0x prefix and nowhere else |
| `SnprintfLayout.LaidOutIsPlaced` | shared/snprintf.c:810-1006 | blanks, sign or prefix, zeros, digits and blanks as the standard places its own |
| `SnprintfLayout.LaidOutLength` | shared/snprintf.c:810-1006 | a number is as long as the larger of the width and its sign or prefix with its digits |
| `SnprintfLayout.PrintedDigitsLength` | shared/snprintf.c:869-895 | the digits are as many as the larger of precision and number, with one more for the zero of `%#o` |
| `SnprintfLayout.LayoutIsStandard` | shared/snprintf.c:810-1006 | an integer conversion that is not misjudged is laid out as section 7.19.6.1 of ISO/IEC 9899:1999 says |
| `SnprintfLayout.MisjudgedZeroShows` | shared/snprintf.c:844-882 | a zero that should have been left out is always wrong |
| `SnprintfLayout.MisjudgedPrefixShows` | shared/snprintf.c:828-841 | a prefix 0x in front of a short that is zero is always wrong |
| `SnprintfLayout.MisjudgedSignShows` | shared/snprintf.c:819-888 | a misjudged sign is wrong unless it is a blank among blanks |
| `SnprintfLayout.LayoutIsStandardIff` | shared/snprintf.c:810-1006 | an integer conversion meets the standard if and only if it is not misjudged or the difference is a blank among blanks |
| `SnprintfLayout.BothSigns` | shared/snprintf.c:819-867 | `%+hd` of 32768 starts with both signs |
| `SnprintfLayout.Asprintf` | shared/snprintf.c:422-464 | measuring without space and printing again fills the allocated buffer exactly |
| `SnprintfLayout.Asnprintf` | shared/snprintf.c:468-518 | at most m characters including NUL, none allocated for m of 0, the length of the whole output returned |
| `FormatTexts.DirectiveIsRead` | shared/snprintf.c:601-680 | a conversion written with any flags in any order and number, width and precision as digits or `*`, and a length is read as exactly those, wherever it stands |
| `FormatTexts.ArgumentsInOrder` | shared/snprintf.c:622-652 | arguments are taken one after the other |
| `FormatTexts.ConvertedIs` | shared/snprintf.c:720-811 | the number printed is the one in the range of its type that the argument wraps around to, signed for d only |
| `FormatTexts.DigitsAreOf` | shared/snprintf.c:843-880 | the digits printed are those of the number in its base, without leading zeros |
| `FormatTexts.TextIsPadded` | shared/snprintf.c:945-1006 | a text is padded with blanks to its width, on the side the flags say |
| `FormatTexts.FieldIsOutput` | shared/snprintf.c:683-1006 | what one conversion prints of its argument: a number as the standard says, a string cut to its precision, a character or a percent sign |
| `FormatTexts.FormatPrints` | shared/snprintf.c:542-1028 | a whole format prints its text as it is and, for each conversion written in it, what the standard says of the next argument |
| `FormatTexts.NumberPrintsIff` | shared/snprintf.c:601-1006 | a format of one number prints what the standard says of the flags, width, precision and length written if and only if the number is not misjudged |
| `FormatTexts.PointersPrint` | shared/snprintf.c:743-865 | `%p` prints 0x and hexadecimal digits, and a null pointer as the GNU C library does |
| `FormatTexts.LeadingZeros` | server/menuitem.c:82 | the format of an IP group, `%03d`, prints 7 as 007 |
| `Tokenizer.RoundTrip` | server/parse.c:51-188 | up to 39 printed arguments are parsed back exactly; 40 or more are an error |
| `Tokenizer.ScanEscaped` | server/parse.c:107-172 | inside quotes an escaped text is read as the text |
| `MessageForms.MessageIsRead` | server/parse.c:34-188 | arguments written as words, in quotes or in braces, also begun as a word, with any escapes and blanks, are read as what they mean; up to 39 of them, and 40 are an error |
| `MessageForms.ArgumentIsRead` | server/parse.c:104-172 | one argument in any of these forms |
| `MessageForms.CharacterIsRead` | server/parse.c:111-133 | a character as it is, or behind a backslash: n, r and t are newline, carriage return and tab, any other character is itself |
| `MessageForms.EveryCharacterCanBeWritten` | server/parse.c:111-133 | every character but NUL can be written in each form |
| `MessageForms.CutMessageIsError` | server/parse.c:92-140 | a message that ends in an open quote or brace, or behind a lone backslash, is an error |
| `ParseMessage.Arguments.Store` | server/parse.c:117-124 | one character is stored behind the current argument |
| `ParseMessage.Arguments.Finish` | server/parse.c:159-167 | an argument is terminated and the next one started, or refused when it would be the fortieth |
| `ParseMessage.ArgumentsAreCStrings` | server/parse.c:53-188 | every pointer of argv is the C string of its argument in the one block of memory |
| `ParseMessage.ParseMessage` | server/parse.c:51-188 | one pass gives the arguments of the tokenizer or its error, and never stores more bytes than it has read, so strlen + 1 suffice |
| `LcdLink.LineIsParsedBack` | clients/lcdvc/lcd_link.c:317-333 | any line of console text arrives at the server as one argument, character for character, with a question mark for each that is not printable ASCII |
| `LcdLink.LineMessage` | clients/lcdvc/lcd_link.c:317-333 | the prefix, the escaped text and the closing quote are the printed message of the line |
| `LcdLink.EscapeInto` | clients/lcdvc/lcd_link.c:320-330 | the loop writes the escaped text, at most two characters for one |
| `LcdLink.FormatLine` | clients/lcdvc/lcd_link.c:298-333 | a line no wider than the display fits the buffer of 80 + 2 * width bytes and is the printed message |
| `ConfigFile.FeedAppend` | shared/configfile.c:440-759 | parsing two texts in turn is parsing both as one, and both fit the buffer of values exactly if the whole does |
| `ConfigFile.ShortLinesFit` | shared/configfile.c:612-711 | no quoted value outgrows its buffer in a file whose lines have at most 200 characters |
| `ConfigFile.RoundTrip` | shared/configfile.c:763-777 | reading what config_dump prints for a clean store rebuilds sections and keys in order, reports no error and stays within the buffer of values |
| `ConfigLines.FileIsRead` | shared/configfile.c:438-759 | a file of well-formed lines (labels, settings with bare and quoted parts, comments, blank lines, any blanks between) is stored as its lines mean, without error, and fits the buffer of values |
| `ConfigLines.SettingIsRead` | shared/configfile.c:546-745 | one setting appends exactly its name and value to the current section |
| `ConfigLines.LabelIsRead` | shared/configfile.c:506-535 | a label makes its section the current one, adding it if there is none |
| `ConfigLines.BlankLineIsRead` | shared/configfile.c:478-505 | blank lines and comments change nothing |
| `ConfigLines.SectionIsFound` | shared/configfile.c:323-333 | the section of a label is the first one of that name |
| `ConfigLines.NamesIgnoreCase` | shared/configfile.c:328 | names are the same if and only if they differ at most in the case of letters |
| `ConfigLines.BackslashIsDropped` | shared/configfile.c:672-711 | in quotes a backslash takes any character but the named ones as it is |
| `ConfigLines.LastNewlineIsOptional` | shared/configfile.c:438-759 | the last line of a file may end without a newline |
| `ConfigLines.FaultIsReported` | shared/configfile.c:477-756 | a faulty line (a name without `=`, two words, too long a name or label, an open label or quote, a value that breaks off) is an error and changes nothing else |
| `ConfigLines.OutsideSections` | shared/configfile.c:612-671 | a setting in front of the first label is an error and is not stored |
| `ConfigLines.CommentHidesSetting` | shared/configfile.c:612-671 | a comment right behind a value that is not empty leaves the setting unstored and reports nothing |
| `ConfigLines.SecondWordFails` | shared/configfile.c:546-611 | a name, blanks and another character than `=` are an error up to the line end behind that character, which may be the next line's |
| `ConfigLines.StrangeBehindItem` | shared/configfile.c:712-745 | behind a label or value anything but a blank, comment or line end is an error up to the line end |
| `ConfigLines.BracketBehindItem` | shared/configfile.c:712-745 | a bracket there is an error, but what follows it is read at once |
| `ConfigFile.Parser.InSectionLabel` | shared/configfile.c:506-545 | a label ends, is too long, or grows; a closed one finds its section ignoring case or appends it |
| `ConfigFile.Parser.InValue` | shared/configfile.c:612-671 | a value ends at a blank or line end and is added to the current section, with the errors of the program |
| `ConfigFile.Parser.InQuotedValue` | shared/configfile.c:672-711 | escapes are undone, quotes end the quoted part, a line end is an error, as long as the value fits its buffer |
| `ConfigFile.Parser.AfterItem` | shared/configfile.c:712-745 | behind a label or value, with the fall through to the resynchronizing cases |
| `ConfigFile.Parser.React` | shared/configfile.c:477-756 | one character in any state, and the end of the file |
| `ConfigFile.Config.ProcessConfig` | shared/configfile.c:438-759 | a file whose quoted values fit the buffer is parsed character by character into the store, with -1 exactly after an error |
| `ConfigFile.Config.GetString` | shared/configfile.c:355-380 | skip 0 to n - 1 gives the values of a key in file order, skip -1 the last |
| `ConfigFile.Config.HasKey` | shared/configfile.c:273-288 | the number n of values of a key |
| `ConfigFile.MatchingPrefix` | shared/configfile.c:355-380 | values counted in a part of the file stay the first ones of the whole |
| `IpText.DigitsOfNumber` | server/menuitem.c:577-583 | printing the number read from digits gives those digits without leading zeros, letters in lower case |
| `IpText.PadOfStrip` | server/menuitem.c:565-593 | padding after stripping restores every edit text, IPv4 and IPv6 |
| `IpText.StripOfPad` | server/menuitem.c:565-593 | stripping after padding turns every canonical full-form address to lower case and changes nothing else |
| `IpText.StripOfPadIff` | server/menuitem.c:565-593 | it restores a canonical full-form address if and only if that has no digit in upper case |
| `IpEditor.UpperCaseIsLost` | server/menuscreens.c:527 | the address of the server's IPv6 test item comes back in lower case |
| `IpText.PadIsFull` | server/menuitem.c:565-593 | padding an address of full form gives all groups their full width |
| `IpText.StripIsCanonical` | server/menuitem.c:1352-1362 | stripping an edit text gives a canonical address of as many groups |
| `IpText.FullIsWellFormed` | server/menuitem.c:69-85 | groups of full width between separators are exactly the texts with separators at their fixed places and digits elsewhere |
| `IpEditor.PlaceValueIsPower` | server/menuitem.c:1393-1394 | the table entry that UP and DOWN pick is the place value of the digit under the cursor |
| `IpEditor.NumberOfPadded` | server/menuitem.c:1391-1400 | a number in range printed in full width fills the width and reads back |
| `IpEditor.WithGroupIs` | server/menuitem.c:1398-1399 | printing a number over a group changes that group to it and nothing else |
| `IpEditor.BumpIs` | server/menuitem.c:1390-1411 | UP and DOWN add or subtract the place value with the coded wrap, in the current group only |
| `IpEditor.DownUndoesUp` | server/menuitem.c:1390-1411 | DOWN takes UP back if and only if UP stayed within the limit or wrapped from the limit itself |
| `IpEditor.CommitKeeps` | server/menuitem.c:1346-1380 | a committed value is canonical, and resetting it gives the same edit text again |
| `IpEditor.ResettableIff` | server/menuitem.c:565-593 | reset gives a sound edit text if and only if the value has as many groups as the item |
| `IpEditor.CompressedIsShort` | server/menuitem.c:565-593 | the value `::1` gives an edit text of 14 characters |
| `IpEditor.PressKeeps` | server/menuitem.c:1320-1447 | every key keeps separators and digits in place, the cursor on a digit and within the window |
| `IpEditor.RunKeeps` | server/menuitem.c:1320-1447 | so does every sequence of keys |
| `IpKeys.CursorIsOnDigit` | server/menuitem.c:1320-1447 | the cursor is always on some digit of some group |
| `IpKeys.UpKeyAdds` | server/menuitem.c:1390-1400 | UP adds the place value of the digit to the number of its group, or makes it 0 above the limit; the rest of the text, the cursor and the window stay |
| `IpKeys.DownKeySubtracts` | server/menuitem.c:1401-1411 | DOWN subtracts it, or goes to the limit below 0; the rest stays |
| `IpKeys.MoveKeysMove` | server/menuitem.c:1412-1430 | RIGHT goes to the next digit, over a separator, and LEFT to the previous one; only cursor and window change |
| `IpKeys.DigitKeyWrites` | server/menuitem.c:1431-1443 | a digit replaces the one under the cursor, in lower case, and the cursor goes on; other keys do nothing |
| `IpKeys.EnterKeyCommits` | server/menuitem.c:1346-1389 | ENTER on the last digit commits the stripped text or reports error 4, and before it moves on |
| `IpKeys.MenuKeyResets` | server/menuitem.c:1336-1345 | MENU on the first digit leaves the item, elsewhere it loads the value again |
| `IpKeys.TypingWrites` | server/menuitem.c:1431-1443 | typing the digits of a text from the cursor on leaves that text |
| `IpKeys.TypedAddressIsCommitted` | server/menuitem.c:1320-1447 | typing the digits of an address and pressing ENTER makes its stripped form the value |
| `IpKeys.CanonicalAddressIsTyped` | server/menuitem.c:1320-1447 | so every canonical address in lower case can be typed as it is |
| `StripLoop.CopyString` | server/menuitem.c:1359 | the forward copy moves the string up |
| `StripLoop.SkipZeros` | server/menuitem.c:1355-1358 | skipping blanks and leading zeros does not change what stripping gives |
| `StripLoop.StrippedGroup` | server/menuitem.c:1354-1362 | one round finishes one group |
| `StripLoop.StripGroups` | server/menuitem.c:1350-1362 | the loop in the buffer strips every group |
| `IpItems.IpItem.constructor` | server/menuitem.c:383-426 | the initial value is cut, stripped, and replaced by the dummy when it is not an address |
| `IpItems.IpItem.Reset` | server/menuitem.c:565-593 | the buffer is filled group by group with the padded value |
| `IpItems.IpItem.MoveRight` | server/menuitem.c:1412-1420 | one digit on, over a separator, scrolling until the cursor is in the window |
| `IpItems.IpItem.Bump` | server/menuitem.c:1390-1411 | UP and DOWN in the buffer |
| `IpItems.IpItem.Commit` | server/menuitem.c:1346-1380 | a copy is stripped and becomes the value when it is an address; otherwise error 4 |
| `IpItems.IpItem.ProcessInput` | server/menuitem.c:1320-1447 | every key does to the buffers what the editor says, and keeps the item valid |
| `TextEditors.KeysAreInverse` | server/menuitem.c:1238-1280 | over an alphabet without duplicates UP and DOWN take each other back if and only if the character is in it or is the end |
| `TextEditors.DuplicatesBreakTheCycle` | server/menuitem.c:1238-1280 | over any other alphabet there is a character that DOWN after UP does not give back |
| `TextEditors.UpGoesThrough` | server/menuitem.c:1238-1259 | UP goes from the end of the text through the whole alphabet in order and back to the end |
| `TextEditors.AlphabetIsDistinctIff` | server/menuitem.c:1184-1193 | the alphabet of an item has no duplicates if and only if its extra characters have none and are in no allowed class |
| `TextEditors.DigitKeysAreInverse` | server/menuitem.c:1090-1133 | UP and DOWN on a digit go round the ten digits and the end, taking each other back |
| `TextEditors.PressAlphaKeeps` | server/menuitem.c:1171-1317 | every key keeps the cursor on the text and in the window, and commits only texts of an allowed length |
| `TextEditors.RunAlphaKeeps` | server/menuitem.c:1171-1317 | the same over every sequence of keys |
| `TextEditors.FormattedFits` | server/menuitem.c:1024-1034 | any int fits the number buffers |
| `TextEditors.PressNumericKeeps` | server/menuitem.c:1014-1169 | every key keeps the cursor within the longest number and in the window, and commits only numbers in range, as shown |
| `TextEditors.RunNumericKeeps` | server/menuitem.c:1014-1169 | the same over every sequence of keys |
| `TextKeys.AlphabetInOrder` | server/menuitem.c:1184-1193 | the allowed characters are the capitals, small letters and digits in order, as far as allowed, and then the extra ones |
| `TextKeys.UpTakesNext` | server/menuitem.c:1238-1259 | UP takes the next allowed character, from the end of the text the first, from the last or an unknown one the end; nothing else changes |
| `TextKeys.DownTakesPrevious` | server/menuitem.c:1260-1280 | DOWN takes the one before, from the end the last, from the first or an unknown one the end |
| `TextKeys.MoveKeysOfText` | server/menuitem.c:1281-1297 | RIGHT goes on over the text, LEFT goes back, neither writes |
| `TextKeys.TypedIsWritten` | server/menuitem.c:1298-1308 | an allowed printable character is written and the cursor goes on; behind the longest text it is error 2 |
| `TextKeys.EnterTakesText` | server/menuitem.c:1209-1237 | ENTER at the end makes the text the value or reports error 3 when it is too short, and before the end it goes on |
| `TextKeys.MenuOfText` | server/menuitem.c:1199-1208 | MENU leaves the item at its start and otherwise loads the value again |
| `TextKeys.TypedTextIsCommitted` | server/menuitem.c:1171-1317 | typing any text of allowed characters and length into an empty item and pressing ENTER makes it the value |
| `TextKeys.NumberIsScanned` | server/menuitem.c:1056 | an optional sign and digits are read up to the first other character, with that sign |
| `TextKeys.NothingIsScanned` | server/menuitem.c:1056 | without a digit there nothing is read |
| `TextKeys.FormattedIsScanned` | server/menuitem.c:1024-1034 | every number is read back from the text it is shown as; a minus shows exactly the negative ones, a plus exactly the others of a signed item |
| `TextKeys.NumbersInRangeFit` | server/menuitem.c:1024-1034 | every number in range fits the length of the longer limit |
| `TextKeys.SignIsToggled` | server/menuitem.c:1090-1133 | on the sign of a signed item UP and DOWN make minus plus and anything else minus |
| `TextKeys.DigitIsStepped` | server/menuitem.c:1090-1133 | elsewhere they step the digit, over 9 and 0 to the end of the text |
| `TextKeys.MoveKeysOfNumber` | server/menuitem.c:1134-1149 | RIGHT, LEFT and MENU of a number |
| `TextKeys.TypedDigitIsWritten` | server/menuitem.c:1150-1160 | a digit is written and the cursor goes on; behind the longest number it is error 2 |
| `TextKeys.EnterTakesNumber` | server/menuitem.c:1050-1089 | ENTER at the end takes the number the text begins with if it is in range and reports error 1 otherwise; before the end it goes on |
| `TextKeys.EnterTakesNothing` | server/menuitem.c:1050-1089 | a text that begins with no number is refused |
| `TextKeys.TypedNumberIsCommitted` | server/menuitem.c:1014-1169 | typing the digits of a number in range, behind a sign or none, and pressing ENTER makes it the value |
| `TextKeys.MinusIsTyped` | server/menuitem.c:1090-1149 | UP and RIGHT on an empty signed item write a minus |
| `TextItems.AlphaItem.Reset` | server/menuitem.c:552-563 | the buffer is cleared and holds the value |
| `TextItems.AlphaItem.ProcessInput` | server/menuitem.c:1171-1317 | every key does to the buffer what the editor says |
| `TextItems.NumericItem.Reset` | server/menuitem.c:533-550 | the buffer is cleared and holds the formatted value |
| `TextItems.NumericItem.Step` | server/menuitem.c:1090-1133 | sign toggle or digit step in the buffer, or error 2 |
| `TextItems.NumericItem.ProcessInput` | server/menuitem.c:1014-1169 | every key does to the buffer what the editor says |
| `Scroller.PositionIsTriangle` | server/render.c:383-393 | the position computed with quotients and remainders is the triangle wave of the steps done |
| `Scroller.PositionIsWave` | server/render.c:381-393 | the position stays in range, moves by at most one a tick and repeats after two passes |
| `Scroller.EveryPositionShows` | server/render.c:381-393 | every position is taken within one period from any tick on |
| `Scroller.FastPositionInRange` | server/render.c:394-402 | with a negative speed within the extent the position stays in range |
| `Scroller.FastPassIsMirrored` | server/render.c:394-402 | with a negative speed a pass takes extent / pace ticks, and the next one is its mirror image |
| `Scroller.OffsetSwings` | server/render.c:381-402 | for either sign of the speed the offset swings over the extent |
| `Scroller.MarqueeGoesRound` | server/render.c:338-373 | a marquee shows, as long as the widget is wide, the text that goes round and round |
| `Scroller.HorizontalGoesBack` | server/render.c:374-415 | a horizontal scroller shows the part of the text behind the swinging offset, as long as the widget is wide |
| `Scroller.VerticalGoesBack` | server/render.c:416-478 | a vertical scroller shows as many rows of the broken text as fit, from the swinging offset on |
| `Scroller.ScrollerStands` | server/render.c:322-415 | a text that fits is shown as it is, and with speed 0 a longer one stands on its beginning |
| `Scroller.WindowIs` | server/render.c:355-363 | copying from the offset and wrapping gives the window of the text written twice |
| `Scroller.RowsAreText` | server/render.c:425-436 | the rows of a text, one after the other, are the text |
| `Scroller.EveryCharacterShows` | server/render.c:374-415 | every character of a horizontal scroller shows within one period |
| `Scroller.EveryRowShows` | server/render.c:437-478 | every row of a vertical scroller shows within one period, inside the widget |
| `Scroller.DrawScroller` | server/render.c:322-481 | what the renderer cuts out and draws, in each direction |
| `Scroller.DrawMarquee` | server/render.c:338-373 | the marquee text |
| `Scroller.DrawVertical` | server/render.c:420-478 | the rows of a vertical scroller |
| `Frames.ClippedIsIntersection` | server/render.c:486-499 | a frame that shows is clipped to its intersection with the area around it, which is not empty |
| `Frames.EnclosedIsDrawing` | server/render.c:206-227 | the strings listed with the frames around them are the strings drawn |
| `Frames.StringsStayInFrames` | server/render.c:157-227 | every string at any depth and tick is drawn inside the display and all frames around it |
| `Frames.RowsThatShow` | server/render.c:187-203 | row y of a frame is drawn in row y - fy of the area, for as many consecutive rows from fy + 1 on as the area has and no others, within the height of a frame that is scrolled |
| `Frames.ColumnsThatShow` | server/render.c:217-227 | a string starts in its column, or the last one of the area, and is cut at the right edge |
| `Frames.FastRows` | server/render.c:187-203 | a negative speed moves that many rows a tick |
| `Frames.ItemsAreDrawnInTurn` | server/render.c:206-513 | widgets are drawn one after the other, each on its own |
| `Frames.ItemIsDrawn` | server/render.c:206-513 | a string is drawn when its row shows, and a frame draws its widgets in its own part of the area |
| `Frames.EveryRowOfFrameShows` | server/render.c:187-203 | every row of a scrolling frame shows within one round |
| `Frames.ClampIsInvisible` | server/render.c:219-227 | moving a string into its frame for good changes nothing drawn at this or any other tick |
| `FrameRenderer.Renderer.RenderFrame` | server/render.c:157-513 | the walk over the widgets draws exactly the strings of the frame and moves those too far right |
| `FrameRenderer.Renderer.RenderWidget` | server/render.c:217-228 | one string or nested frame |
| `NameOrder.StringsTransitive` | contrib/interface-demo2/nstrcmp.c:59 | the order of texts is transitive, strictly where one step is |
| `NameOrder.StringsInOrder` | contrib/interface-demo2/nstrcmp.c:59 | one text comes before another exactly when it does in the order of characters |
| `NameOrder.KeysInOrder` | contrib/interface-demo2/nstrcmp.c:45-97 | names are in the order of their prefixes, then of their numbers as numbers, then of their aliases |
| `NameOrder.KeysOpposite` | contrib/interface-demo2/nstrcmp.c:45-97 | the order of keys is antisymmetric in sign, and zero only for equal keys |
| `NameOrder.KeysTransitive` | contrib/interface-demo2/nstrcmp.c:45-97 | the order of keys is transitive, so nstrcmp is a total preorder of names |
| `NameOrder.KeyOfPrinted` | contrib/interface-demo2/nstrcmp.c:11-42 | a name printed with its number and alias has exactly that key |
| `NameOrder.NamesThatCompareEqual` | contrib/interface-demo2/nstrcmp.c:45-97 | eth, eth0 and eth00 have the same key |
| `NameOrder.CutAlias` | contrib/interface-demo2/nstrcmp.c:11-28 | the alias is cut off in place, and its digits are found |
| `NameOrder.RindexNonDigit` | contrib/interface-demo2/nstrcmp.c:32-42 | the place where the trailing digits start |
| `NameOrder.ComparePieces` | contrib/interface-demo2/nstrcmp.c:56-69 | comparing the common length and then the lengths compares the prefixes |
| `NameOrder.Nstrcmp` | contrib/interface-demo2/nstrcmp.c:45-97 | the sign of the result is the order of prefix, number, alias |
| `InterfaceCaches.PresentIff` | contrib/interface-demo2/interface.c:104-111 | in a sorted cache the search finds an entry if and only if an equal name is present |
| `InterfaceCaches.StoredIsPrefix` | contrib/interface-demo2/interface.c:112-113 | the first 15 characters of a name are stored |
| `InterfaceCaches.AddedIsAscendingIff` | contrib/interface-demo2/interface.c:97-123 | adding a name of any length keeps a sorted cache strictly ascending if and only if it is already present or cutting it to the buffer does not move it past a cached name |
| `InterfaceCaches.AddedIsFoundIff` | contrib/interface-demo2/interface.c:97-123 | an added name of any length is found again if and only if it was present or compares equal to its cut form |
| `InterfaceCaches.AddedIsAscending` | contrib/interface-demo2/interface.c:97-123 | so adding a name that fits its buffer keeps the cache strictly ascending and holds the name |
| `InterfaceCaches.LongNameIsDoubled` | contrib/interface-demo2/interface.c:112-113 | a name of 16 characters may be stored as a second copy of an entry |
| `InterfaceCaches.InterfaceCache.Search` | contrib/interface-demo2/interface.c:104-111 | the walk from the end stops behind the last entry that is not greater |
| `InterfaceCaches.InterfaceCache.Link` | contrib/interface-demo2/interface.c:114-121 | a new entry is linked in both ways, at either end or between |
| `InterfaceCaches.InterfaceCache.Add` | contrib/interface-demo2/interface.c:97-123 | the entry with an equal name is returned, or a new one is linked at its place; the list stays well formed |

## Left out

- getopt: long options, `-W`, the orderings chosen by `+`, `-` or POSIXLY_CORRECT, and the error messages.
- `LL_Put`, `LL_GetNode`, `LL_PutNode`, `LL_Top`, `LL_Look`, `LL_GetLast`, `LL_Find`, `LL_GetByIndex` and `LL_nSwapNodes`: they would only add easy members.
- Running out of memory, and the order in which memory is freed.
- The screen list of a client that `client_remove_screen` also changes; only the scheduler's list is modelled.
- Schedule.RunKeepsInvariant: assumes that the menu screen stays listed and never times out, as the server arranges it (server/menuscreens.c:111).
- Rotation.RotationSchedule: assumes a fixed list, fixed priorities and no timeouts, which is what rotation is about.
- ScreenLists.ScreenList.Expire: a destroyed screen remains an object that can be read, where the program reads freed memory (server/screenlist.c:140-159).
- Snprintf.Vsnprintf: `ll` is read as `l`, as the default build does; every argument is a slot that holds an int or a string, and arguments beyond the list read as zero; the compatibility macros are not modelled, and `%p` prints as in the GNU C library; a `%s` whose precision and string both exceed INT_MAX is read as far as the string goes.
- SnprintfLayout.LayoutIsStandardIff: assumes that the output is shorter than INT_MAX.
- The lookup and execution of the command of a parsed message (server/parse.c:197-213).
- The scroll position, cursor commands and shadow buffer of `update_display` (clients/lcdvc/lcd_link.c:262-311).
- ConfigFile.Config.ProcessConfig: requires quoted values that fit their buffer of 200 characters, behind which the program writes otherwise.
- Opening files, and the typed readers `config_get_bool`, `config_get_int` and `config_get_float`.
- ConfigFile.RoundTrip: assumes names and values without the characters that `config_dump` does not escape, and names that differ ignoring case.
- StripLoop.CopyString: copies forwards; the standard leaves an overlapping `memccpy` undefined.
- IpItems.IpItem.Commit: the check of an address (`inet_pton`) is an arbitrary predicate on the stripped text.
- IpItems.IpItem.Reset: requires a value with as many groups as the item, without which the edit text is unsound (see `ResettableIff`), and no group that starts with a blank, a sign or `0x`, which `strtol` reads but no address check passes.
- TextEditors.PressAlphaKeeps: the byte in front of an empty alphabet, which DOWN reads, is an arbitrary character.
- TextEditors.PressNumericKeeps: `sscanf` reads numbers of any size, where the standard leaves overflow undefined.
- Menu sliders, rings, check boxes, and changing the settings of an item while it is edited.
- Scroller.Shown: a negative speed beyond the extent is excluded, since the program divides by zero there.
- FrameRenderer.Renderer.RenderFrame: strings and frames only; bars, icons, titles and big numbers are not modelled, and scrollers are drawn on their own since the renderer does not place them in frames.
- The cursor of a widget list, which the renderer rewinds and walks; widgets are a sequence here.
- InterfaceCaches.InterfaceCache.Add: requires numbers in names that fit an int, since `atoi` overflow is undefined.
- Sockets, signals, logging, drivers, and the clients that read system statistics.
