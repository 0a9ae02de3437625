# WWIV: a verified model of five small algorithms

WWIV is bulletin-board software. Most of it is screens and files; inside it are a few algorithms whose correctness
rests on invariants that are written down nowhere. This project models them in Dafny and proves the invariants:

- **File-area numbering** (`Words`, `ScanBits`, `Conference`, `Directories`, `DirEditor`). The sysop's editor inserts,
  deletes, exchanges and moves file areas. Each edit rewrites three structures that number areas: the area vector, one
  packed bitmap of new-scan flags per user, and the member list of every conference. `Directories` gives the edits on
  plain sequences and shows that they are edits of one table with a row per area; `DirEditor` is the code on words,
  arrays and conference records, proved equal to it.
- **The output character machine** (`Attributes`, `Ansi`, `SavedLine`, `ColorCodes`, `Terminal`). `makeansi` prints
  attribute changes as escape sequences; `bputch` and `execute_ansi` read them back one character at a time, and expand
  `|NN` codes by calling the printer again. `Ansi` is the machine as a function of its state and what follows from it,
  `SavedLine` says when a saved line is put back as it was, `ColorCodes` what each code does to the bits of the
  attribute and the screen, and `Terminal` is the code on its buffers.
- **Mail** (`Mail`, `MailLaws`, `Forwarding`). A record file with tombstones, reuse of its tail, texts shared by
  several letters, in-place compaction and a counter per user; and the walk along forwarding addresses.
- **Conferences and area lists** (`NumRange`, `TextWords`, `NumText`, `ArWord`, `ConfMembers`, `ConfFile`, `AreaList`,
  `AreaLaws`, `MenuKeys`). Number lists typed by the sysop, the sort hidden in the sub-conference editor, the
  conference file's printer and reader, the list of areas a user can reach with the keys that pick them, and the reader
  of those keys.
- **Events and CRC-32** (`Events`, `EventLaws`, `PeriodicLaws`, `Crc`). A table of timed events shared by several
  instances through one file, and the table-driven checksum.

Code that updates state in place is a class or a method on arrays, proved against a function of the old state; the
theorems are about those functions, over all inputs and all runs.

## What does not hold

Where the code falls short of a property, the property is proved with the exact condition under which it holds, and a
lemma gives an input that fails.

- A file area inserted as the last one that fits, when the limit is a multiple of 32, shifts the first word of the
  user's message-area flags, and so does a move in a list that is one short of full (`bbs/xinit.cpp:941-943`,
  `bbs/diredit.cpp:369-371`): `ScanBits.SubScansSurviveInsert`, `ScanBits.SubScansSurviveMove`, with the words of
  `ScanBits.FullInsertDamages`. Deletion and exchange never touch those words.
- Moving an area renumbers a conference's list correctly exactly when the list names that area at most once:
  `Directories.MoveRenumbersMembers`, and `Directories.ListedTwice` for a list that loses an entry.
- Leaving the sub-conference editor keeps every member exactly when there are at most 1023, and one addition can push a
  conference past that: `Conference.ReaddKeepsAll`, `Conference.AddingPastTheLimit`, with the lists of
  `Conference.TooMany` and `Conference.TwoMoreThanFit`.
- `bout.Color` computes the string for the end of the line against the attribute of that moment. If the attribute
  changes again before the line ends, the string restores the user's first colour only if it starts with a reset or the
  attributes agree where it relies on them: `Ansi.LineEndRestores`, `Attributes.StaleCodesLead`, and the line of
  `Ansi.BlueStays`, whose blue background stays.
- A saved line is put back through `bputch`, which takes its bars for the start of codes. With the echo on and no bars
  in macros, the line is drawn as it was exactly when each bar, in the text that is fed, has two characters behind it
  that make no code with it: `SavedLine.LineReproduced`. The line is read from the screen
  (`bbs/local_io_win32.cpp:678-698`), where a bar can stand; "|05" is not drawn at all, "| b" is:
  `SavedLine.CodeIsNotDrawn`, `SavedLine.BarComesBack`.
- The waiting counter is a byte. It is right along a run exactly when the user never has more than 255 letters:
  `MailLaws.CounterIsRight`. After 256 deliveries it says 0: `MailLaws.OneRoundTooMany`. The sysop's own counter has
  room, but log-off cuts it to 255: `MailLaws.SysopCounterIsRight`.
- Deleting a letter spares the text of every other letter exactly when the letter is marked multi-mail or its text is
  not shared: `MailLaws.DeleteSparesOthers`. Two carbon copies share one without the mark:
  `MailLaws.CarbonCopyLosesText`. Along a run the texts stay exactly when every deletion is of the one kind or the
  other: `MailLaws.TextsStayExactly`. Nor is every stored text a live letter's: that holds along a run exactly when no
  text is delivered to nobody or kept for a record that is nobody's, `MailLaws.TextsAreUsed`.
- A saved conference list reads back as itself exactly when no name is blank and no member line has more than 4096
  characters: `ConfFile.SavedReadsBack`. The editor accepts a blank name (`bbs/conf.cpp:696-703`), and that record
  becomes zeros: `ConfFile.BlankNameIsLost`. There can be 4096 areas (`init/subsdirs.cpp:38`), so a full conference of
  areas 0 to 1022 can become one of 41 to 1063, whose line has 4098 characters and comes back with area 10 in place of
  area 1063: `ConfFile.FullListIsLost`.
- An area numbered 1000 or more cannot be typed directly, only on the line that two slashes open:
  `MenuKeys.TypableUpTo999`, `MenuKeys.SlashesTakeALine`, `MenuKeys.Number1000`.
- An event does not run once a day as such. By the file's marks it is started once for every clearing that finds it
  marked, and at most once in between: `EventLaws.FiringsBalance`, `EventLaws.AtMostOnce`. But after one instance has
  cleared the file, another one starts a due event only if its own copy did not say that the event had run:
  `EventLaws.ClearedRunsAgain`. By default only instance 1 clears (`bbs/xinit.cpp:247`, `bbs/wfc.cpp:191-195`), so an
  instance that never reads the file again never starts the event again: `EventLaws.StaleNeverRunsAgain`,
  `EventLaws.OnlyTheClearerRunsIt`.
- A periodic event runs every period when one instance looks at it (`PeriodicLaws.RunsArePeriodsApart`,
  `PeriodicLaws.StartedWhenDue`). When several do, the record moves on by one period exactly when the copy of the
  instance that starts it had the record right: `PeriodicLaws.RecordAdvances`; an instance that is behind starts the
  same run twice: `PeriodicLaws.StartedTwice`.

## Choices

- A shift by 32 is undefined in C++. The masks of `insert_dir` and `delete_dir` that need one are modelled as meant,
  "strictly below" and "strictly above" (`Words.Shl`, `Words.Shr` give 0; up to 31 places they are the machine's
  shifts). Word arrays reach index size/32, and one word more for deletion.
- Attributes are compared by their low byte: `ESC[7m` and `|NN` numbers from 16 up can set higher bits, which
  `makeansi` ignores.
- `unsigned long` may have 64 bits; the CRC is its low 32.
- Reading or rewriting one record of a file is one step. For the event file this is the file's exclusive lock
  (`core/file.cpp:123-173`).
- `ForwardMessage` compares the forwarding user with -1 although the record holds it unsigned, so the first test for a
  closed mailbox never succeeds as written; a closed mailbox is a case of its own here. The table of visited users,
  which the code does not initialise, starts out empty. A user number without a record keeps the forwarding fields of
  the record read before (`sdk/usermanager.cpp:56-76`), which is modelled as forwarding to itself.
- `delsubconf` copies the entry after the last member, so the member buffer keeps one entry more than it uses.
- `multimail` is modelled after its checks for full mailboxes and deleted users.
- The waiting counter is the one in the user's record. The copy that the session of a logged-in user holds
  (`bbs/readmail.cpp:371`, `bbs/readmail.cpp:1024`, `bbs/lilo.cpp:1110`) is not followed; log-off counts afresh.
- The column a tab starts from, and the text of a macro, are functions the console is given. A macro's text may hold
  colour codes but starts no macro itself, which is why `bputch` terminates.
- The 'I' command of the directory editor is three steps: the insertion, changes of the new record, and putting it in a
  conference (`Insert`, `Modify` and `House` in `Directories`).
- A conference file that `save_confs` did not write can hold more records than lines that begin with a tilde; the array
  then holds the records read.
- The letters of `upcase` are those below 127, all that the menu reader lets through.

## Model

| member | source | states |
|---|---|---|
| Words.ShiftsAreTheMachines | bbs/diredit.cpp:361-363 | up to 31 places the shifts of the model are the machine's own |
| ScanBits.InsertBit | bbs/diredit.cpp:361-372 | the in-place carry loop over one user's words leaves exactly the words of `InsertWords` |
| ScanBits.InsertRefines | bbs/diredit.cpp:361-372 | for every position, size and number of words, those words read as bits are the old bits with `true` inserted at the position |
| ScanBits.InsertBitAt | bbs/diredit.cpp:361-372 | every bit after insertion, also past the size, up to the end of the array |
| ScanBits.DeleteBit | bbs/diredit.cpp:406-417 | the in-place loop leaves exactly the words of `DeleteWords` |
| ScanBits.DeleteRefines | bbs/diredit.cpp:406-417 | those words read as bits are the old bits with the position removed |
| ScanBits.DeleteBitAt | bbs/diredit.cpp:406-417 | every bit after removal, up to the end of the array |
| ScanBits.SwapBits | bbs/diredit.cpp:305-317 | flipping both bits in place when exactly one is set leaves exactly the words of `SwapWords` |
| ScanBits.SwapExchanges | bbs/diredit.cpp:305-317 | those words have the two bits exchanged and every other bit of the array kept |
| ScanBits.ExchangeRefines | bbs/diredit.cpp:305-317 | read as bits, that is an exchange of two elements |
| ScanBits.SubScansSurviveInsert | bbs/diredit.cpp:369-372 | insertion leaves the message-area words behind alone, whatever they hold, if and only if the new number of areas is below 32 times the file-area words |
| ScanBits.SubScansSurviveMove | bbs/diredit.cpp:473-480 | so does a move if and only if one more than the number of areas is below that, although the list has its old length afterwards |
| ScanBits.FullInsertDamages | bbs/diredit.cpp:369-372 | words of ones, and an insertion that fills the last file-area word and changes the word behind it |
| ScanBits.DeleteKeepsTail | bbs/diredit.cpp:412-417 | deletion leaves the words behind the file areas alone |
| ScanBits.SwapKeepsTail | bbs/diredit.cpp:305-317 | so does an exchange |
| Conference.FirstIndex | bbs/conf.cpp:284-297 | the first position of a number, or -1 exactly when it is absent |
| Conference.ConfRec.InConference | bbs/conf.cpp:284-297 | finds the first occurrence or -1 |
| Conference.ConfRec.MakeRoom | bbs/conf.cpp:200-210 | in place, every member at or above the number goes up by one (16 bits) and the others stay |
| Conference.ConfRec.CloseGap | bbs/conf.cpp:217-230 | the first occurrence of the number leaves, then members at or above it go down by one |
| Conference.ConfRec.Exchange | bbs/conf.cpp:237-248 | the first occurrences of the two numbers change places |
| Conference.ConfRec.AddSubConf | bbs/conf.cpp:474-530 | members after addition, with the limit of 1023 tested once, the stop at the first number that is no area, and the buffer grown when full |
| Conference.ConfRec.DelSubConf | bbs/conf.cpp:536-572 | members after removal of a list of numbers, by shifting the buffer |
| Conference.AddStopsLate | bbs/conf.cpp:508-529 | for an ascending list the early stop equals leaving out the numbers that are no areas: the old members, then the new ones once each |
| Conference.DelStopsLate | bbs/conf.cpp:559-571 | for an ascending list the early stop equals filtering: exactly the named areas leave |
| Conference.ConfRec.ReaddAll | bbs/conf.cpp:894-899 | the loop that ends the editor computes `ReaddUpTo` of the members |
| Conference.ReaddSorts | bbs/conf.cpp:894-899 | for at most 1023 distinct members that loop is a sort: ascending, the same members |
| Conference.ReaddKeepsAll | bbs/conf.cpp:894-899 | it keeps every member if and only if there are at most 1023 |
| Conference.TooMany | bbs/conf.cpp:894-899 | a conference of all areas below n, at least 1024, loses area 0 |
| Conference.LeastIsLost | bbs/conf.cpp:894-899 | from any list of more than 1023 members the smallest is lost |
| Conference.ReaddOnlyKeeps | bbs/conf.cpp:894-899 | the list stays distinct and a member once lost does not come back |
| Conference.AddingPastTheLimit | bbs/conf.cpp:474-530 | adding a list and then leaving the editor loses a member if and only if the total passes 1023 |
| Conference.TwoMoreThanFit | bbs/conf.cpp:491-529 | adding 1022 and 1023 to areas 0 to 1021 makes the list of 1024 that then loses area 0 |
| Conference.NamedTwiceMovesDown | bbs/conf.cpp:213-232 | a list that names a deleted area twice names the area in front of it afterwards |
| Directories.InsertStaysAligned | bbs/diredit.cpp:328-379 | inserting an area inserts one row (its record, a set flag for every user, no conference) into the table of areas, and all three structures stay in step |
| Directories.DeleteStaysAligned | bbs/diredit.cpp:382-424 | deleting an area removes that row and no other |
| Directories.SwapStaysAligned | bbs/diredit.cpp:284-326 | exchanging two areas exchanges their rows |
| Directories.ModifyStaysAligned | bbs/diredit.cpp:447-455 | a change of a record changes that row's record and nothing else |
| Directories.HouseStaysAligned | bbs/diredit.cpp:495-512 | putting an area in a conference sets that row's place in that conference, unless the conference has 1023 areas already, and changes nothing else |
| Directories.HomedIs | bbs/conf.cpp:491-494 | the number of rows with a place in a conference is the length of its member list |
| Directories.MoveStaysAligned | bbs/diredit.cpp:456-481 | insert, swap and delete at the adjusted index together take one row out and put it before the other |
| Directories.MovePermutes | bbs/diredit.cpp:473-480 | the move sends row k to `MovedTo(k)`, and that is one-to-one |
| Directories.MoveKeepsEveryArea | bbs/diredit.cpp:456-481 | every area keeps its record, each user's scan flag and its conferences at its new number |
| Directories.MoveRenumbersMembers | bbs/conf.cpp:195-250 | the member list as a list is renumbered by that same permutation if and only if it names the moved area at most once |
| Directories.ListedTwice | bbs/conf.cpp:195-250 | a list that names the moved area twice comes out one entry shorter |
| Directories.DeleteUndoesInsert | bbs/diredit.cpp:328-424 | deleting at n after inserting at n restores the vector, every scan flag and every member list |
| Directories.SwapTwice | bbs/diredit.cpp:284-326 | exchanging twice is the identity on all three |
| Directories.ApplyIsTableEdit | bbs/diredit.cpp:426-538 | every step of an editor command (insertion, change of a record, placing in a conference, deletion, exchange, move), refused or carried out, is the table edit of the same name |
| Directories.RunIsTableRun | bbs/diredit.cpp:426-538 | so is every run of such steps, and the three structures stay well formed along it |
| DirEditor.Editor.ConfsInsert | bbs/conf.cpp:196-212 | `update_conf` for insertion on every conference record |
| DirEditor.Editor.ConfsDelete | bbs/conf.cpp:213-232 | `update_conf` for deletion on every conference record |
| DirEditor.Editor.ConfsSwap | bbs/conf.cpp:233-250 | `update_conf` for exchange on every conference record |
| DirEditor.Editor.ScansInsert | bbs/diredit.cpp:357-378 | every user's words are those of `InsertWords`, to the end of the array; read as bits, `true` is inserted at n |
| DirEditor.Editor.ScansDelete | bbs/diredit.cpp:402-423 | every user's words are those of `DeleteWords`; read as bits, position n is removed |
| DirEditor.Editor.ScansSwap | bbs/diredit.cpp:299-322 | every user's words are those of `SwapWords`; read as bits, two elements change places |
| DirEditor.Editor.InsertDir | bbs/diredit.cpp:328-379 | the code on vector, words and records is `Directories.InsertDir` on what they stand for; the words behind the file areas are kept when one more than the number of areas is below 32 times the file-area words |
| DirEditor.Editor.DeleteDir | bbs/diredit.cpp:382-424 | likewise for deletion, which always keeps the words behind |
| DirEditor.Editor.SwapDirs | bbs/diredit.cpp:284-326 | likewise for exchange, which always keeps the words behind |
| DirEditor.Editor.MoveDir | bbs/diredit.cpp:456-481 | likewise for the move, with every refusal of the command; every user's words are exactly those of `ScanBits.MoveWords` |
| DirEditor.Editor.ModifyDir | bbs/diredit.cpp:447-455 | a record is replaced and nothing else changes |
| DirEditor.Editor.HouseDir | bbs/diredit.cpp:495-512 | `in_conference` and `addsubconf` on the record are `Directories.HouseDir`, and no scan word changes |
| Attributes.CodesDo | bbs/com.cpp:85-107 | what the codes for a change do to any attribute at all, stage by stage |
| Attributes.CodesLead | bbs/com.cpp:82-114 | read from the attribute they were made for, the codes lead to the attribute asked for |
| Attributes.StaleCodesLead | bbs/com.cpp:82-114 | read from any other attribute, they do so if and only if they start with a reset or the attributes agree where the codes rely on them |
| Ansi.CollectorNeverFills | bbs/bputch.cpp:149-168 | over every character stream, the texts of macros included, at most 75 characters are held between calls |
| Ansi.CollectAttrText | bbs/bputch.cpp:149-168 | from rest, any attribute string is collected, parsed and executed as exactly its codes, with nothing else changed |
| Ansi.MakeAnsiSets | bbs/com.cpp:82-114 | printing the string of `makeansi` sets the attribute and draws nothing |
| Ansi.BarShows | bbs/bputch.cpp:71-118 | a valid bar code, expanded through `makeansi` and the parser, is the fold of that colour |
| Ansi.UseColorShows | bbs/woutstream.cpp:62-85 | a user colour changes the attribute and remembers the way back for the end of the line |
| Ansi.EndLine | bbs/bputch.cpp:136-138 | a line end plays the remembered string, then is drawn |
| Ansi.TextShows | bbs/bputch.cpp:57-196 | any mix of plain characters, line ends, bar codes and user colours is drawn in the attributes given by folding its colours |
| Ansi.LineEndRestores | bbs/woutstream.cpp:77-84 | the line end gives back the user's first colour if and only if the remembered string starts with a reset or the attributes agree where it relies on them |
| Ansi.BlueStays | bbs/woutstream.cpp:77-84 | user colour 7, a blue background by bar code and a line end: the attribute afterwards is not the user's first colour |
| SavedLine.LineReproduced | bbs/com.cpp:37-48 | a saved line printed change by change is drawn exactly, in its attributes and from any starting attribute, if every bar of the fed text has two characters behind it that make no code or macro with it; with the echo on and no bars in macros, only if |
| SavedLine.FedIsPut | bbs/com.cpp:37-48 | while no bar makes a code, each change is made for the attribute that `Fed` predicts, although bars wait for their characters |
| SavedLine.BarAgain | bbs/bputch.cpp:97-106 | a bar that makes no code is drawn, and the two characters behind it are read again as if nothing had happened |
| SavedLine.PutAllBars | bbs/bputch.cpp:57-196 | whatever is printed, no more bars are drawn than were given or waiting, if macros have none |
| SavedLine.LostIsMissed | bbs/bputch.cpp:71-118 | a text with a bar that makes a code is drawn with fewer bars than it has |
| SavedLine.CodeIsNotDrawn | bbs/com.cpp:37-48 | the saved line of a bar, 0 and 5 in one attribute draws nothing |
| SavedLine.BarComesBack | bbs/com.cpp:37-48 | the saved line of a bar, a blank and b is drawn as it was |
| ColorCodes.BarColors | bbs/bputch.cpp:71-107 | two digits, a digit and a blank, a blank and a digit, or b and a digit behind a bar stand for a number; below 16 it becomes the low four bits of the attribute and the high ones stay, from 16 to 31 the number less 16 becomes the high four and the low ones stay; nothing is drawn |
| ColorCodes.BarWithoutAnsi | bbs/com.cpp:109-112 | without ANSI such a bar changes nothing |
| ColorCodes.OtherBars | bbs/bputch.cpp:77-99 | every other pair behind a bar, but for number sign and at-sign, is drawn with it |
| ColorCodes.BarUserColor | bbs/bputch.cpp:86-88 | a number sign and a digit set that user colour, and the string remembered for the end of the line leads back to user colour 0 |
| ColorCodes.HeartUserColor | bbs/bputch.cpp:119-124 | control-C and a printable character set the user colour counted from the digit 0; other characters do nothing |
| ColorCodes.MacroDraws | bbs/bputch.cpp:61-70 | a macro whose text is drawn characters draws that text, started by a bar and an at-sign or by two control-O |
| ColorCodes.SgrBright | bbs/bputch.cpp:289-291 | code 1 sets the bit for bright and no other |
| ColorCodes.SgrBlinks | bbs/bputch.cpp:294-296 | code 5 sets the bit for blinking and no other |
| ColorCodes.SgrReverses | bbs/bputch.cpp:298-301 | code 7 exchanges the two colours and keeps the bits for bright and blinking |
| ColorCodes.SgrColors | bbs/bputch.cpp:305-309 | codes 30 to 37 and 40 to 47 set the IBM colour that "04261537" gives, and only its three bits |
| ColorCodes.SgrIgnores | bbs/bputch.cpp:285-310 | codes other than the known ones change nothing |
| ColorCodes.CommandSent | bbs/bputch.cpp:207-312 | an escape sequence of two numbers and a letter reaches the console as that command with these numbers, if it is one of the cursor and erase commands, and changes nothing otherwise |
| ColorCodes.ShortCommands | bbs/bputch.cpp:236-284 | without a number a cursor movement counts 1, the other commands 0, and `m` resets the attribute; a single number is followed by 0 |
| ColorCodes.TenArguments | bbs/bputch.cpp:220-236 | of more than ten numbers the first ten are read |
| ColorCodes.LongArgument | bbs/bputch.cpp:220-236 | a number of ten digits or more ends the reading after its tenth |
| ColorCodes.NullBehindBar | bbs/bputch.cpp:71-99 | a null behind a bar, or behind its first character, ends what is printed back |
| ColorCodes.EscapesDropped | bbs/bputch.cpp:149-168 | an escape before anything but a bracket or a question mark is dropped with that character, and so is the sequence that switches off line wrapping |
| ColorCodes.ControlODropped | bbs/bputch.cpp:64-70 | a control-O and any character but a second one are dropped |
| ColorCodes.TabStops | bbs/bputch.cpp:172-176 | a tab draws blanks to the next column that is a multiple of eight, one at least |
| Terminal.AddTo | bbs/com.cpp:70-76 | one more code is appended to the string |
| Terminal.Console.MakeAnsiString | bbs/com.cpp:82-114 | the branches of `makeansi` build the string of `Codes`, or nothing without ANSI |
| Terminal.Console.ReadArgs | bbs/bputch.cpp:210-236 | the argument loop never leaves its two buffers and reads exactly the arguments of `ParseArgs` |
| Terminal.Console.ApplyColors | bbs/bputch.cpp:280-313 | the loop of the `m` command applies the codes from left to right |
| Terminal.Console.ExecuteAnsi | bbs/bputch.cpp:201-317 | the whole of `execute_ansi` is `Ansi.Execute`, and leaves the collector empty |
| Terminal.Console.Bputch | bbs/bputch.cpp:57-196 | the whole of `bputch`, which calls itself through the printer and through macros, is one step `Ansi.Put`; it terminates and keeps the collector within 75 |
| Terminal.Console.PutMacro | bbs/bputch.cpp:61-63 | a macro's text is printed character by character, colour codes included |
| Terminal.StaysInText | bbs/bputch.cpp:64-118 | inside a text without macro starts no colour state is reached that would expand a macro |
| Terminal.Console.FinishPipe | bbs/bputch.cpp:71-109 | the branch that has both characters of a bar code |
| Terminal.Console.Color | bbs/woutstream.cpp:62-85 | a user colour and the string for the end of the line |
| Terminal.Console.SystemColor | bbs/woutstream.cpp:121-125 | printing an attribute change |
| Terminal.Console.PutColor | bbs/woutstream.cpp:121-125 | the same in any colour state, when a bar may be waiting for its characters |
| Terminal.Console.CollectOrDraw | bbs/bputch.cpp:149-193 | the end of `bputch`: the collector, tabs from the column the console is in, and drawing |
| Terminal.Console.Bputs | bbs/woutstream.cpp:196-206 | `bputch` on each character |
| Terminal.Console.Nl | bbs/woutstream.cpp:99-105 | the remembered string, then carriage return and line feed |
| Terminal.NextLineRests | bbs/woutstream.cpp:99-105 | after that nothing is half collected and nothing is remembered |
| Terminal.NextLineDraws | bbs/woutstream.cpp:99-105 | with nothing remembered, a line break draws a carriage return and a line feed |
| Terminal.Console.RestoreCurrentLine | bbs/com.cpp:37-48 | after a line break if the cursor is not in the first column, the machine has printed each character after its change, and the end-of-line string is the saved one; with ANSI, the line shows the saved characters in their saved attributes and the attribute is the saved one if no bar makes a code, and with the echo on and no bars in macros only if |
| Mail.Tail | bbs/email.cpp:203-221 | the place after the last live record: nothing live behind it, a live record before it |
| Mail.MailBox.FindTail | bbs/email.cpp:203-221 | the backward search finds that place |
| Mail.MailBox.SendOutEmail | bbs/email.cpp:198-229 | local delivery overwrites the first tombstone of the tail or appends, and counts one more letter |
| Mail.MailBox.MultiMail | bbs/multmail.cpp:88-183 | one record marked multi-mail for each user, all with the same text, and one more letter counted for each |
| Mail.MailBox.DelMail | bbs/email.cpp:708-758 | the text goes unless the letter is multi-mail and another record not marked deleted has it; the counter goes down unless 0; the record becomes a tombstone |
| Mail.MailBox.Compact | bbs/lilo.cpp:1026-1058 | the two-index compaction in place leaves exactly the live records in order and counts the user's letters up to 255 |
| Mail.MailBox.Recount | bbs/lilo.cpp:1066-1078 | counts the user's letters up to 255 |
| Mail.MailBox.LogOffUser | bbs/lilo.cpp:1026-1080 | compacts when mail was deleted in the session, and counts afresh either way |
| MailLaws.WriteAppends | bbs/email.cpp:198-229 | writing over the tail's tombstones appends to the live mail |
| MailLaws.DeleteTakesOut | bbs/email.cpp:750-756 | deletion takes that letter, at its place among the live letters, and no other |
| MailLaws.CompactionKeeps | bbs/lilo.cpp:1033-1058 | compaction keeps the live mail and leaves no tombstone |
| MailLaws.CompactedFrom | bbs/lilo.cpp:1033-1058 | the compacted records come from strictly increasing places of the file |
| MailLaws.RunEdits | bbs/email.cpp:171-758 | over every run the live mail changes only by appending what is delivered and taking out what is deleted |
| MailLaws.StepCounts | bbs/email.cpp:287-291 | one event keeps a user's counter equal to the user's live letters while these are at most 255 |
| MailLaws.CounterIsRight | bbs/lilo.cpp:1026-1078 | a counter that starts right stays right along a run if and only if the user never has more than 255 letters |
| MailLaws.OneRoundTooMany | bbs/email.cpp:287-291 | after 256 deliveries to one user the counter is 0 |
| MailLaws.StepCountsSysop | bbs/email.cpp:746-748 | one event keeps the sysop's own counter equal to user 1's letters if and only if it is not a log-off of user 1 with more than 255 of them |
| MailLaws.SysopCounterIsRight | bbs/lilo.cpp:1107-1109 | along a run that counter is right in every state if and only if user 1 never logs off with more than 255 letters |
| MailLaws.DeleteSparesOthers | bbs/email.cpp:719-757 | every other live letter keeps its text if and only if the deleted one is marked multi-mail or no live letter shares its text |
| MailLaws.CarbonCopyLosesText | bbs/email.cpp:719-738 | two letters with one text and no mark, and a deletion after which the other letter has no text |
| MailLaws.StepSound | bbs/email.cpp:719-757 | each event keeps the invariant: letters that share a text are all multi-mail, and every live letter's text is stored |
| MailLaws.TextsAreNeverLost | bbs/email.cpp:719-757 | in every reachable state every live letter's text is still stored |
| MailLaws.StepPresent | bbs/email.cpp:719-757 | one event leaves every live letter its text if and only if it does not delete a letter that shares its text without the mark |
| MailLaws.TextsStayExactly | bbs/email.cpp:719-757 | over every run of dated deliveries, whatever texts they share, every live letter has its text in every state if and only if no such deletion happens |
| MailLaws.MarkedTextsStay | bbs/email.cpp:719-757 | so no text is lost in a run in whose states letters that share a text are all multi-mail |
| MailLaws.DeleteRemovesText | bbs/email.cpp:719-738 | deleting a letter removes its text unless it is marked multi-mail and another dated record has that text; every other text stays |
| MailLaws.StepLeaves | bbs/email.cpp:719-757 | one event leaves a text that no live letter has if and only if it delivers to nobody, or deletes a multi-mail letter whose text only a dated record that is nobody's shares |
| MailLaws.TextsAreUsed | bbs/email.cpp:171-758 | over every run, every stored text is a live letter's in every state if and only if no such event happens |
| MailLaws.AddressedLeavesNone | bbs/email.cpp:171-758 | no text is ever left behind when every delivery has an addressee |
| MailLaws.LogOffDoes | bbs/lilo.cpp:1026-1080 | log-off after a deletion leaves no tombstone and keeps the live mail, and without one leaves the file alone; the user's counter is the number of letters up to 255 |
| Forwarding.ForwardMessage | bbs/email.cpp:58-143 | terminates on every forwarding graph, and does what the rows below say |
| Forwarding.GoesToUser | bbs/email.cpp:111-142 | the letter goes to a user of this system if and only if the walk comes to a record without a forwarding address, and then to that record's user |
| Forwarding.GoesAway | bbs/email.cpp:72-88 | it goes to another system if and only if the addressee's record or the one the walk comes to names a valid one, and then to the user and system of that record |
| Forwarding.Fails | bbs/email.cpp:89-138 | a closed mailbox gives a sysop that mailbox and others 0 and 0, forwarding to the Internet 0 and 0, and every other failure leaves both numbers |
| Forwarding.MissingUser | sdk/usermanager.cpp:56-76 | a walk that comes to a number without a record fails and changes nothing |
| Forwarding.Walk | bbs/email.cpp:107-142 | the loop with its table of visited users decides the outcome in finitely many hops |
| Forwarding.NoStopMeansCycle | bbs/email.cpp:111-139 | the walk never stops if and only if it comes to some mailbox twice through open ones |
| Forwarding.NeverStops | bbs/email.cpp:121-124 | meeting a visited user means that no later hop would stop either |
| Forwarding.StopIsHere | bbs/email.cpp:111-139 | there is at most one place where the walk stops |
| NumRange.StrToNumrange | bbs/conf.cpp:409-468 | the result is ascending, without repeats, and holds exactly the numbers below 1024 that some item names |
| NumRange.MarkItem | bbs/conf.cpp:430-457 | one item marks exactly its numbers and unmarks none |
| NumRange.PrintedListNames | bbs/conf.cpp:409-468 | a printed list of numbers and ranges names exactly the numbers in them, whichever way round a range is written |
| NumRange.AddFromText | bbs/conf.cpp:474-530 | exactly the areas the text names join, after the old members in their order |
| NumRange.RemoveFromText | bbs/conf.cpp:536-572 | exactly the areas the text names leave; the others keep their order |
| NumRange.WithoutNamed | bbs/conf.cpp:559-571 | removing the parsed numbers equals leaving out the named members |
| TextWords.StrTok | bbs/conf.cpp:1430-1463 | one call cuts off the first word |
| TextWords.WordCount | bbs/conf.cpp:1430-1439 | the number of words |
| TextWords.ExtractWord | bbs/conf.cpp:1446-1463 | the word of that number, or nothing |
| TextWords.WordByNumber | bbs/conf.cpp:1446-1463 | of a word, a delimiter and more text, word 1 is that word, the next ones are those of the text, and there is no word 0 |
| NumText.AtoiOfDec | bbs/conf.cpp:345-350 | `atoi` reads back what `%d` printed, whatever follows that is no digit |
| NumText.DecInjective | bbs/confutil.cpp:309 | different numbers print differently |
| ArWord.WordToArStr | bbs/arword.cpp:56-72 | the letters of a word's flags in order, or a dash for none |
| ArWord.StrToArword | bbs/arword.cpp:38-51 | the flags whose letters occur in either case |
| ArWord.ArRoundTrip | bbs/arword.cpp:38-72 | every 16-bit word reads back as itself |
| ArWord.TextSetsFlags | bbs/arword.cpp:38-51 | flag k is set if and only if the k-th letter occurs as a capital or a small letter |
| ArWord.ArStringShape | bbs/arword.cpp:56-72 | a printed word is 1 to 16 characters without blanks |
| ConfFile.SaveConfs | bbs/conf.cpp:302-355 | the loop writes the file of the list with the record inserted at its position, if one is given |
| ConfMembers.ReadMembers | bbs/conf.cpp:1314-1330 | the loop over the words of a member line, with its bound on numbers |
| ConfMembers.MembersInAreas | bbs/conf.cpp:1314-1330 | of a printed member list of any numbers, exactly those that name an area are read, in their order |
| ConfMembers.CutReadBack | bbs/conf.cpp:1314-1330 | the first n characters of a printed member list are read as the members whose digits are all there, and the number that the kept digits of the next one stand for |
| ConfMembers.CutKeepsAll | bbs/conf.cpp:345-350 | that is the whole list if and only if at most the last blank was cut off |
| ConfMembers.FullListIsCut | bbs/conf.cpp:196-212 | areas 0 to 1022 in a full conference, after 41 insertions in front: 4097 characters, of which the reader's buffer leaves 41 to 1062 and 10 |
| ConfFile.GetNumConferences | bbs/conf.cpp:1404-1424 | the number of lines that begin with a tilde |
| ConfFile.ReadConferences | bbs/conf.cpp:1193-1340 | line by line, with `fgets`' limit, the file is read as `FeedText` says, into an array of as many records as that number, zero where nothing was read |
| ConfFile.UnsignedCuts | bbs/conf.cpp:1254-1295 | a printed number is read back up to the largest value of the field's type, and as that value beyond it |
| ConfFile.FeedLongName | bbs/conf.cpp:1234-1240 | of a name on one line that is not blank the first 61 characters are read |
| ConfFile.SavedReadsBack | bbs/conf.cpp:302-1340 | a saved list reads back as the records with a name that is not blank, access words and the members that fit the line buffer included, with zeros in place of the others; it is the same list if and only if no name is blank and no member line has more than 4096 characters |
| ConfFile.ReadsWhole | bbs/conf.cpp:1227 | the buffer has room for all members if and only if the line has at most 4096 characters |
| ConfFile.InertIsSkipped | bbs/conf.cpp:1227-1230 | what is left of a line after the first 4095 characters, when it is digits and blanks, changes nothing, in as many chunks as it takes |
| ConfFile.SavedCount | bbs/conf.cpp:1404-1424 | the number counted in a saved file is the number of records |
| ConfFile.BlankNameIsLost | bbs/conf.cpp:1234-1240 | a conference named by one blank reads back as a record of zeros |
| ConfFile.FullListIsLost | bbs/conf.cpp:1227-1330 | the full conference of areas 41 to 1063 reads back with area 10 in place of area 1063 |
| ConfFile.SaveThenRead | bbs/conf.cpp:302-1340 | saving with a record at position n and reading back inserts it at n, if and only if no name is blank and no member line has more than 4096 characters |
| ConfFile.FeedRecord | bbs/conf.cpp:322-353 | the four lines of one record read back as that record with the members that fit the line buffer, or as nothing if its name is blank |
| ConfFile.MemberLineFits | bbs/conf.cpp:345-350 | a list of distinct numbers below 1024 prints as at most 4011 characters, so its line fits the reader's 4096 |
| AreaList.AddUsub | bbs/confutil.cpp:141-171 | nothing for a listed area or a full table; else a keyed area goes last and one without a key after the last one without, the rest shifted up |
| AreaList.FirstSeen | bbs/confutil.cpp:242-294 | exactly the accessible areas, each once |
| AreaList.NeverFull | bbs/confutil.cpp:155-157 | distinct area numbers below the table size that leave one out do not fill the table |
| AreaList.AddedToTable | bbs/confutil.cpp:141-171 | adding an area to the table of some areas gives the table of those areas and it: the full-table branch is never taken |
| AreaList.NumberAreas | bbs/confutil.cpp:297-314 | the areas without a key get consecutive numbers from 0 or 1, and the two digit lists are those of the numbers given |
| AreaList.TensAre | bbs/confutil.cpp:299-303 | the first list of digits holds the slash and the first digits of the round two-digit numbers in use, and no others |
| AreaList.HundredsAre | bbs/confutil.cpp:304-308 | the second list those of the round three-digit numbers, going on behind the digits for more than 999 areas |
| AreaList.Find | bbs/confutil.cpp:316-323 | the place of the area that was current, or 0 |
| AreaList.PositionOf | bbs/confutil.cpp:316-323 | the first place of an area number, 0 when absent |
| AreaList.AddAll | bbs/confutil.cpp:242-262 | one conference's areas are added in order |
| AreaList.AddConfs | bbs/confutil.cpp:263-288 | the areas of every accessible conference, one conference after the other |
| AreaList.SetConf | bbs/confutil.cpp:175-334 | fails and changes nothing for a conference out of range or barred; else the array holds the numbered table of the areas in reach: message areas with a key have that key, the others are numbered from 1 in the order of the list, and file areas from 1, or from 0 if the first is area 0; and the current area is found again |
| AreaList.ListedKeys | bbs/confutil.cpp:238-310 | the key of each entry by the area it names: its own, or its number from 1, or from 0 for file areas that start with area 0 |
| AreaList.ListedReach | bbs/confutil.cpp:238-288 | the entries name exactly the areas the user has access to in the conference asked for, or in those the user may enter |
| AreaList.SameNumbers | bbs/confutil.cpp:297-323 | numbering moves no area |
| AreaLaws.TableLists | bbs/confutil.cpp:238-295 | the table holds exactly the accessible areas without repeats; those without a key first, and each group in first-seen order |
| AreaLaws.PickedByNumber | bbs/confutil.cpp:297-310 | typing an area's number makes the key reader return that area's key, and no other area has it |
| MenuKeys.TypeMore | bbs/bbsutl.cpp:565-642 | the inner loop over further keys |
| MenuKeys.MmKey | bbs/bbsutl.cpp:524-685 | the two loops over the static buffer compute `First` of the keystrokes |
| MenuKeys.PlainKeys | bbs/bbsutl.cpp:545-662 | of keys that are no slash, blank or control character, three, two or one are taken, as the lists of digits say for the first one, and come back as capitals; with fewer the reader waits |
| MenuKeys.EditingKeys | bbs/bbsutl.cpp:529-588 | backspace after the only key starts the reader again, Return after it ends the command, and other control characters before it are passed over |
| MenuKeys.BackspaceTakesBack | bbs/bbsutl.cpp:583-586 | later a backspace takes back one key |
| MenuKeys.FirstDigitWaits | bbs/confutil.cpp:297-310 | the digit lists make the reader wait for every digit of any number below 1000 in use |
| MenuKeys.NumberCanBeTyped | bbs/bbsutl.cpp:545-642 | each number up to 999, typed with Return if needed, comes back exactly, with every key taken |
| MenuKeys.TypableUpTo999 | bbs/bbsutl.cpp:545-642 | some keys without a slash return a number in use if and only if it is at most 999 |
| MenuKeys.SlashesTakeALine | bbs/bbsutl.cpp:588-620 | two slashes return whatever line is then given |
| MenuKeys.Number1000 | bbs/bbsutl.cpp:545-642 | with 1000 areas no keys without a slash return 1000, and two slashes with that line do |
| Events.Scheduler.SortEvents | bbs/events.cpp:80-96 | the in-place selection sort gives a permutation in time order |
| Events.Scheduler.GetNextForcedEvent | bbs/events.cpp:117-149 | on a sorted table: the earliest forced event still to run today; else the earliest of those over that run tomorrow; else none |
| Events.ShortIs | bbs/events.cpp:214 | the 16 bits of a time: itself where it fits, and the same again after 65536 more |
| Events.FirstIsEarliest | bbs/events.cpp:128-140 | in a sorted table the first match is the earliest |
| Events.Scheduler.CheckThis | bbs/events.cpp:190-232 | one turn of the loop: the copy, the file's record and whether the event is to run are those of `CheckOne` |
| Events.Scheduler.CheckEvent | bbs/events.cpp:185-235 | the loop over copies that may be stale, with its read and rewrite of file records, is `CheckFrom` |
| Events.Scheduler.ClearEvents | bbs/events.cpp:172-182 | every event becomes "not run", in memory and in the file |
| EventLaws.RunAgrees | bbs/events.cpp:98-235 | over every run all copies agree with the file in all but what has run |
| EventLaws.StepBalance | bbs/events.cpp:185-208 | a non-periodic event is started exactly when the step marks it in the file, and only a clearing unmarks it |
| EventLaws.FiringsBalance | bbs/events.cpp:172-208 | over every run of any instances: mark before plus firings equals mark after plus clearings that found it marked |
| EventLaws.AtMostOnce | bbs/events.cpp:185-208 | between clearings a non-periodic event is started at most once by all instances together, and exactly when it becomes marked |
| EventLaws.FiresWhenDue | bbs/events.cpp:190-205 | a look starts it if and only if it is due and neither the file nor the copy says it ran: a stale copy can only hold it back |
| EventLaws.ClearedRunsAgain | bbs/events.cpp:172-208 | after a clearing by one instance, another (or the same) starts a due event if and only if it is the one that cleared or its own copy did not say that the event had run |
| EventLaws.StaleNeverRunsAgain | bbs/events.cpp:189-208 | over every run in which an instance neither reads the file anew nor clears, it never starts an event that its copy says has run, whatever the others do |
| EventLaws.OnlyTheClearerRunsIt | bbs/events.cpp:172-208 | two instances and a nightly event: after the first clears, the first starts it and the second does not |
| EventLaws.StartsOnlyItsOwn | bbs/events.cpp:192-193 | over every run an instance starts only events with its own number or 0 |
| EventLaws.NextForcedIs | bbs/events.cpp:117-149 | the next forced event by its fields: first of those still to run today, else first of those over that run on the next day of the week, else none; midnight counts as one minute past |
| PeriodicLaws.LookAtPeriodic | bbs/events.cpp:209-231 | a periodic event that has run is started if and only if its day and instance fit and the time has come by the file's record and by the copy; then the run due by the copy is recorded |
| PeriodicLaws.RunsArePeriodsApart | bbs/events.cpp:185-235 | over every run of one instance between clearings, the recorded runs are the event's time and one period more each |
| PeriodicLaws.StartedWhenDue | bbs/events.cpp:185-235 | after k runs a look starts the event if and only if its day and instance fit and k periods after its time are over |
| PeriodicLaws.ClearedStartsAfresh | bbs/events.cpp:172-182 | after a clearing that count begins again |
| PeriodicLaws.RecordAdvances | bbs/events.cpp:209-231 | over any instances, a start of an event that has run moves its record on by one period if and only if the copy had the record right |
| PeriodicLaws.StartedTwice | bbs/events.cpp:209-231 | two instances, and an event every hour that the second starts twice at 03:00 |
| EventLaws.CheckEventIsARun | bbs/events.cpp:185-235 | the whole loop is the run of its turns, so turns of other instances may come in between |
| Crc.Crc32Tab | bbs/crc.cpp:41-116 | each of the 256 entries is its index after eight steps of the shift register with polynomial 0xEDB88320 |
| Crc.UpdateIsEightBits | bbs/crc.cpp:119 | one table look-up feeds the eight bits of an octet |
| Crc.Crc32Buf | bbs/crc.cpp:123-130 | on every byte string the loop computes the bit-at-a-time checksum |
| Crc.BurstDetected | bbs/crc.cpp:119-130 | messages of one length that differ only within 32 consecutive transmitted bits never have the same checksum |
| Crc.FourByteWindowDetected | bbs/crc.cpp:119-130 | the same for a window of four bytes |
| Crc.Residue | bbs/crc.cpp:119-130 | a message followed by its own checksum, low byte first, always has the checksum 0x2144DF1C |

## Left out

- Ansi.CollectorNeverFills: macros inside the text of a macro expand to nothing here.
- Terminal.Console.Bputch: page pauses, remote output, the return value, and macros inside the text of a macro.
- Cursor positions are recorded as commands. Palettes, access rules (`access_sub`, `access_dir`, `access_conf`), `valid_system`, `check_inet_addr` and the line read after two slashes are parameters.
- Hang-ups and failed file operations.
- ConfFile.ReadConferences: words longer than the 40 characters that `extractword` has room for, and the 64-bit details of `stoul`.
- ConfFile.SavedReadsBack: names over 60 characters, which the editor does not make.
- NumRange.StrToNumrange: items longer than the 40 characters that `extractword` has room for.
- TextWords.ExtractWord: words longer than those 40 characters.
- SavedLine.LineReproduced: without the echo every character is an X, and a line whose bars make codes can look right by chance; so can one with bars in macros' texts. For those only one direction is stated. Control characters that `bputch` never draws do not occur in the line.
- AreaList.NumberAreas: with more than 8099 areas the source's digit lists `tc` and `dtc` are too short; here they grow.
- AreaList.SetConf: area numbers of more than 16 bits, the size of `subnum`.
- Events.Scheduler.GetNextForcedEvent: times from 00:00 to 23:59, the ones the event editor makes.
- MailLaws.StepCounts: the session's own copy of the counter.
- MailLaws.CounterIsRight: the session's own copy of the counter.
- MailLaws.StepCountsSysop: the same places.
- MailLaws.TextsAreNeverLost: runs that deliver a text some live letter already has, as carbon copies do; `MailLaws.TextsStayExactly` covers them.
- MailLaws.SysopCounterIsRight: the places outside delivery, deletion and log-off that set this counter anew, such as log-on and the waiting screen.
- Limits of `int` in `atoi`.
- The missed events that `cleanup_events` runs, and editing the event table while other instances run.
- `delete_conf`, whose call of `save_confs` writes every conference; the file-area search in `changedsl`; `move_filename`; the counters of `delbatch`.
- Network mail, mailbox limits, and the automatic checks of `multimail` before delivery.
- Chat, defaults, drop files, login prompts, chains, gfiles and the other menus.
