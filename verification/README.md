# A verified model of vfs-shell

vfs-shell is a small shell for embedded systems, with an in-memory file system of its own. This project models the parts
of it that carry state and proves what they promise, over all inputs, all runs and all interleavings:

- **Typing** (`EscapeSequences`, `LineEditor`, `EchoCoherence`, `ShellRun`, `SessionScreen`). The line editor works on a
  buffer of 256 characters and echoes each edit as ECMA-48 control bytes. Every method refines a pure editor with the text
  before and the text after the cursor; the whole shell refines a fold over the bytes it is sent, however they arrive; and
  a model of one terminal line shows that the echo always leaves the prompt, the line and the cursor where they belong.
- **Scripts** (`TerminalProxy`, `ScriptRun`). A shell that reads its commands from a file evaluates exactly its lines.
- **Wake-ups** (`WakeUp.dfy`: `ShellWakeUp`, `CopyWakeUp`). The driver's callback and the reading thread as interleaved
  steps on the semaphore and the state flag.
- **Commands** (`Tokenizer`, `ArgParser`). The in-place splitter refines a recursive one on the original text. The two
  argument loops agree with each other.
- **Files** (`DataNode`, `BlockCopy`). The growing buffer, and the block copy behind `dd` and `cp` with every way to end.
- **The tree** (`VfsTree.dfy`: `VfsHeap`, `VfsDirectory`, `Traversal`). Nodes as a heap with child lists, parent links and
  handles; creation, attachment, removal of subtrees; and enumeration while the tree changes.
- **Numbers** (`Numerals`, `TerminalHelpers`, `InterfaceParams`). Printing, `strtol` and parameter tuples with real widths.
- **The PLL search** (`CpuFrequency`). The pruned search, and exactly when it finds the optimum of the exhaustive one.

`dafny verify dfyconfig.toml` checks all of it.

## How to read the model

A byte is a `char`. A C pointer into a buffer is an array and an index. Code that changes things step by step is a method
on an array or a class, proved against a function, and the properties are lemmas about that function. Sizes are unbounded
except where the width matters: the PLL search computes in 32 bits, casts and printed numbers have the width of their
type, and a write to a file must end at or below 2^31 (`DataNode.MAX_END`), since beyond it the doubling of the capacity
would wrap a 32-bit `size_t`. Whether an allocation succeeds, what is typed and when, and what a command prints are
parameters. A node pointer is an id that is never used again, and the heap of nodes is a map.

Findings on the way, which the model keeps as the code has them:

- `std::move` at Core/Shell/LineParser.cpp:97 is given ranges that overlap to the right, which the standard leaves open
  for that direction. The model shifts the rightmost character first, which is what the code means.
- `rewindCursor` must never be called with 0: `Screens.FeedRewind` shows the cursor would still move. The editor keeps
  to it: `LineEditor.LineParser.Redraw`, the only caller, requires a positive number of each edit.
- The pointer that `uint2dec` and `int2hex` return is past the digits before padding, not past the padded text.
- `int2hex` does not end for a negative value: `TerminalHelpers.HexLoopEndsWhen` is an equivalence.
- A field of a parameter tuple loses its last digit when its blank and sign leave no room for it:
  `InterfaceParams.TupleRoundTrip` states exactly which tuples survive.
- A quote inside a bare word drops the word: `Tokenizer.NothingIsLostWhen` says exactly which texts lose characters. An
  empty unterminated quote is dropped as well.
- A control sequence with more than 14 parameter and intermediate bytes reaches the line:
  `EscapeSequences.ControlSequenceIsSwallowed` is an equivalence.
- With a 32-bit size, a write that ends beyond 2^31 never finishes: `DataNode.GrowthEndsWhen` is an equivalence.
- When the contents of a new data node cannot be copied, `create` neither attaches nor frees the node
  (Core/Vfs/VfsDirectory.cpp:138): `VfsDirectory.LeavesNodeBehindWhen` is an equivalence.
- `create` attaches an offered node that already sits in a directory, which leaves no tree:
  `VfsDirectory.AttachKeepsTreeWhen` is an equivalence.
- The destructor of a directory takes the lock of its handle, which `leave` has just cleared when the directory is removed
  (Core/Vfs/VfsDirectory.cpp:21 and 29). The lock is empty in the code, and the model leaves it out.
- A byte that is unread while the copy loop has neither a post nor a callback is not noticed until another one arrives:
  `CopyWakeUp.UnreadAtStartIsMissed` says so of every run, and `CopyWakeUp.KeptWhen` which starts are safe.
- Above the greatest `long`, the PLL search takes a wrapped difference for the distance:
  `CpuFrequency.FindPllConfig` states exactly when its result is still right. The one distance of 2^31, for which `labs`
  is undefined, is taken as 2^31.

## Model

| member | source | states |
|---|---|---|
| `LineEditor.Apply` | Core/Shell/LineParser.hpp:57-60 | no edit makes the line longer than the buffer allows |
| `LineEditor.ParseChar` | Core/Shell/LineParser.cpp:151-189 | no typed character makes the line longer than the buffer allows |
| `LineEditor.TypedCharacter` | Core/Shell/LineParser.cpp:151-189 | backspace and DEL take the character before the cursor and leave what is after it, other characters go in before the cursor while fewer than 255 are there, CR and LF complete the line unless they are the second half of a pair, 0x03 terminates; each with its status |
| `LineEditor.ErasureUndoesTyping` | Core/Shell/LineParser.cpp:175-186 | a character and then a backspace leave the line as it was, wherever the cursor stands |
| `LineEditor.MovesKeepText` | Core/Shell/LineParser.cpp:129-149 | moves change the cursor by one and not the text, and undo each other |
| `LineEditor.ErasuresAgree` | Core/Shell/LineParser.cpp:20-88 | erasing forward is moving right and erasing backward, and the other way round |
| `LineEditor.ShiftLeft` | Core/Shell/LineParser.cpp:29 | closing a gap moves the whole tail, and no other cell changes |
| `LineEditor.ShiftRight` | Core/Shell/LineParser.cpp:97 | the move to the right on overlapping ranges keeps every character, as the code intends |
| `LineEditor.InsertAt` | Core/Shell/LineParser.cpp:96-99 | the new character stands before the unchanged tail, and no other cell changes |
| `LineEditor.LineParser.constructor` | Core/Shell/LineParser.cpp:11-18 | an empty line with no terminator seen |
| `LineEditor.LineParser.EraseNext` | Core/Shell/LineParser.cpp:20-54 | buffer and cursor are those of the pure editor after an erasure at the cursor, and the terminal gets its echo |
| `LineEditor.LineParser.ErasePrevious` | Core/Shell/LineParser.cpp:56-88 | the same for an erasure before the cursor |
| `LineEditor.LineParser.Insert` | Core/Shell/LineParser.cpp:90-127 | the same for an insertion, refused when 255 characters are there |
| `LineEditor.LineParser.MoveCursorLeft` | Core/Shell/LineParser.cpp:129-138 | the same for a move to the left |
| `LineEditor.LineParser.MoveCursorRight` | Core/Shell/LineParser.cpp:140-149 | the same for a move to the right |
| `LineEditor.LineParser.Parse` | Core/Shell/LineParser.cpp:151-189 | one character does to the text on both sides of the cursor, the latch and the status what `TypedCharacter` says, and echoes it; a finished line is terminated in the buffer |
| `LineEditor.LineParser.Reset` | Core/Shell/LineParser.cpp:191-195 | an empty line; the CR LF latch stays |
| `LineEditor.LineParser.RewindCursor` | Core/Shell/LineParser.cpp:197-207 | for every number that fits its buffer, the bytes sent are CUB with the canonical numeral |
| `LineEditor.RewindFits` | Core/Shell/LineParser.cpp:199-203 | the number and its terminator fit the 12-byte buffer if and only if it is below 10^9 |
| `Screens.FeedRewind` | Core/Shell/LineParser.cpp:197-207 | the rewind command moves a terminal's cursor back by exactly its number, unless that is 0 and there is room to move |
| `Screens.FeedClear` | Core/Shell/LineParser.cpp:38 | EL blanks the line from the cursor on |
| `Screens.FeedBack` | Core/Shell/LineParser.cpp:129-149 | BS, CUB and CUF without a parameter move the cursor by one |
| `Screens.FeedText` | Core/Shell/LineParser.cpp:103-108 | printable text overwrites the cells from the cursor on and advances it |
| `EchoCoherence.ErasureIsShown` | Core/Shell/LineParser.cpp:20-88 | the echo of either erasure turns the old screen into that of the edited line with one blank more |
| `EchoCoherence.MoveIsShown` | Core/Shell/LineParser.cpp:129-149 | the echo of a move changes the column only, as the cursor does |
| `EchoCoherence.EditIsShown` | Core/Shell/LineParser.cpp:20-149 | after the echo of any edit a terminal shows prompt, edited line, blanks, and the cursor in its place |
| `EchoCoherence.RunIsShown` | Core/Shell/LineParser.cpp:20-149 | the same after any run of edits that fits the width |
| `EscapeSequences.EscapeSeqParser.constructor` | Core/Shell/EscapeSeqParser.cpp:10-14 | the recogniser starts at rest |
| `EscapeSequences.EscapeSeqParser.LastEvent` | Core/Shell/EscapeSeqParser.cpp:16-56 | the event is that of the collected sequence, and no cell before the array is read |
| `EscapeSequences.EscapeSeqParser.Parse` | Core/Shell/EscapeSeqParser.cpp:58-111 | the 16-byte array stays in bounds, and state, status and event are those of the pure recogniser |
| `EscapeSequences.StepIs` | Core/Shell/EscapeSeqParser.cpp:58-111 | in each state every byte, by its code, goes on with the sequence, completes it, or passes and ends it |
| `EscapeSequences.KeyEvents` | Core/Shell/EscapeSeqParser.cpp:16-56 | the cursor keys by their final byte whatever parameters precede it, the delete key by 3 and a tilde, nothing else |
| `EscapeSequences.ControlSequenceIsSwallowed` | Core/Shell/EscapeSeqParser.cpp:58-111 | a control sequence met at rest is swallowed whole with one event if and only if it has at most 14 parameter and intermediate bytes |
| `EscapeSequences.ControlByteAlwaysPasses` | Core/Shell/EscapeSeqParser.cpp:98-108 | a control byte other than ESC, 0x03 for one, passes in every state |
| `ShellRun.RunTwice` | Core/Shell/Scripts/Shell.cpp:68-118 | the outcome does not depend on how reads split the bytes |
| `ShellRun.StoppedStays` | Core/Shell/Scripts/Shell.cpp:75-118 | a stopped shell handles no more bytes |
| `ShellRun.KeysEdit` | Core/Shell/Scripts/Shell.cpp:81-91 | CSI C and CSI D move over one character to the right and left, CSI 3 tilde erases the one at the cursor, CSI A and CSI B do nothing; nothing else changes |
| `ShellRun.ByteIsTyped` | Core/Shell/Scripts/Shell.cpp:92-114 | any other byte edits the line as typed, and without echo prints nothing |
| `ShellRun.LineStartsCommand` | Core/Shell/Scripts/Shell.cpp:125-137 | of the lines of written arguments, those of 1 to 16 start a command with exactly these arguments unless the first begins with a hash sign, and no others |
| `ShellRun.LineIsEvaluated` | Core/Shell/Scripts/Shell.cpp:97-113 | CR adds the line to those evaluated, prints its end, what its command prints and the prompt, and stops only when the command signals |
| `ShellRun.EtxEndsShell` | Core/Shell/Scripts/Shell.cpp:97-110 | 0x03 evaluates the line, echoes itself and always stops |
| `ShellRun.PromptComesFirst` | Core/Shell/Scripts/Shell.cpp:65-66 | only an interactive shell begins with the prompt |
| `ShellRun.Shell.constructor` | Core/Shell/Scripts/Shell.cpp:13-20 | idle and at rest; posted once beforehand exactly when a script is its input |
| `ShellRun.Shell.Evaluate` | Core/Shell/Scripts/Shell.cpp:123-156 | the command gets the tokens of the line as C strings, in the line's own buffer, and may print and signal whatever the lines before it lead to; the state is STOP or IDLE afterwards |
| `ShellRun.ReadArguments` | Core/Shell/Scripts/Shell.cpp:129-135 | every argument pointer leads to its whole token |
| `ShellRun.Shell.HandleEvent` | Core/Shell/Scripts/Shell.cpp:81-91 | recognised keys are edits, other events do nothing |
| `ShellRun.Shell.EvaluateLine` | Core/Shell/Scripts/Shell.cpp:97-113 | the line is evaluated before the parser is reset, and the prompt, which commands may have changed, follows only when the shell goes on |
| `ShellRun.Shell.HandleByte` | Core/Shell/Scripts/Shell.cpp:79-114 | one byte is one step of the pure shell |
| `ShellRun.Shell.HandleBuffer` | Core/Shell/Scripts/Shell.cpp:77-115 | the loop over one buffer, left early on a stop, is the fold over all of it |
| `ShellRun.Shell.Drain` | Core/Shell/Scripts/Shell.cpp:75-116 | the inner loop ends with all that has arrived handled, or stopped |
| `ShellRun.Shell.HandleInput` | Core/Shell/Scripts/Shell.cpp:68-118 | the shell only waits when nothing is unread, also when bytes arrive and post while it reads |
| `ShellRun.Shell.Run` | Core/Shell/Scripts/Shell.cpp:48-121 | lines evaluated, output and state are the pure shell's on the whole input, however and whenever it arrives and is read |
| `SessionScreen.CharKeepsShown` | Core/Shell/Scripts/Shell.cpp:92-114 | a typed character keeps the screen in step with the session, 0x03 among them |
| `SessionScreen.LineKeepsShown` | Core/Shell/Scripts/Shell.cpp:97-113 | a finished line scrolls up, its command's output follows, and the prompt reappears unless the command ends the shell |
| `SessionScreen.EtxCloses` | Core/Shell/LineParser.cpp:155-162 | 0x03 leaves the line with `^C` over it at the cursor, then what its command prints and a blank line |
| `SessionScreen.PrintoutIsTidy` | Core/Shell/Terminal.cpp:83-87 | printable lines below the width, each with its end, add exactly themselves to the screen |
| `SessionScreen.StepKeepsShown` | Core/Shell/Scripts/Shell.cpp:77-115 | any byte keeps the screen in step |
| `SessionScreen.SessionBeginsShown` | Core/Shell/Scripts/Shell.cpp:65-66 | the first prompt on an empty screen |
| `SessionScreen.SessionIsShown` | Core/Shell/Scripts/Shell.cpp:48-121 | over a whole session the screen shows every entered line after the prompt of its time, what its command printed, then prompt, line and cursor, or a blank line after the end |
| `TerminalProxy.Input.Read` | Core/Shell/TerminalProxy.cpp:58-94 | whatever the lengths asked for, reads yield the bytes of a readable file once, in order, and one 0x03, and nothing of an unreadable one |
| `TerminalProxy.Output.constructor` | Core/Shell/TerminalProxy.cpp:28-39 | output begins after the old contents when appending, else at the start |
| `TerminalProxy.Output.Write` | Core/Shell/TerminalProxy.cpp:96-119 | over any writes the file is its old contents overlaid with all that was accepted; a write goes through in full or not at all |
| `ScriptRun.TextIsCollected` | Core/Shell/LineParser.cpp:181-186 | printable bytes are appended to the line |
| `ScriptRun.TerminatorEndsLine` | Core/Shell/LineParser.cpp:163-174 | LF, CR, CR LF and LF CR each end one line once |
| `ScriptRun.LineIsRun` | Core/Shell/Scripts/Shell.cpp:92-114 | a line with its terminator is evaluated once and leaves an empty line |
| `ScriptRun.EtxEndsScript` | Core/Shell/LineParser.cpp:155-162 | 0x03 evaluates what is left and stops the shell |
| `ScriptRun.ScriptRunsItsLines` | Core/Shell/Scripts/Shell.cpp:75-118 | exactly the lines of the file are evaluated, in order, then what follows the last terminator, and the shell stops |
| `ScriptRun.RunScript` | Core/Shell/TerminalProxy.cpp:63-89 | the same of the running shell on its file |
| `ShellWakeUp.StepKeepsInvariant` | Core/Shell/Scripts/Shell.cpp:22-46 | each step of callback, shell or command keeps the protocol's invariant |
| `ShellWakeUp.RunKeepsInvariant` | Core/Shell/Scripts/Shell.cpp:22-121 | any interleaving keeps it |
| `ShellWakeUp.NoLostWakeUp` | Core/Shell/Scripts/Shell.cpp:22-121 | a shell that waits with unread bytes was posted or has a callback to come; EXEC only inside `evaluate`; a finished shell was told to stop |
| `ShellWakeUp.PostsAreFromIdle` | Core/Shell/Scripts/Shell.cpp:26-35 | a callback is to post if and only if it finds the shell idle |
| `ShellWakeUp.PostsAreConserved` | Core/Shell/Scripts/Shell.cpp:29-70 | over any run each post is waited for once, or still there |
| `ShellWakeUp.CallbacksWake` | Core/Shell/SerialTerminal.cpp:58-73 | the pending callbacks, left to run, end with the shell able to wake |
| `CopyWakeUp.NoLostPoll` | Core/Shell/Scripts/DataReader.cpp:15-51 | between drains, unread bytes have a post or a callback to come, although posts are dropped while one is pending |
| `CopyWakeUp.KeptWhen` | Core/Shell/Scripts/DataReader.cpp:15-51 | every run keeps this if and only if it holds at the start |
| `CopyWakeUp.QuietPollMissesNothing` | Core/Shell/Scripts/DataReader.cpp:31-51 | a poll that finds no post, with no callback under way, has no byte to miss |
| `CopyWakeUp.AtMostOnePost` | Core/Shell/Scripts/DataReader.cpp:20-21 | callbacks that come one at a time never leave more than one post |
| `CopyWakeUp.UnreadAtStartIsMissed` | Core/Shell/Scripts/DataReader.cpp:31-51 | between drains, without a post or a callback, every run in which nothing arrives leaves the unread bytes, never drains and never stops |
| `Tokenizer.TrimLength` | Core/Shell/ShellHelpers.hpp:43-49 | exactly the trailing control characters are dropped |
| `Tokenizer.Store` | Core/Shell/ShellHelpers.hpp:60-61 | a terminator written at the end of a token cuts no earlier token |
| `Tokenizer.ParseCommandString` | Core/Shell/ShellHelpers.hpp:34-105 | result, count and the terminated strings left in the buffer are the tokens of the original text; never a store past the slots, nor a change past the spare cell |
| `Tokenizer.HandleCharacter` | Core/Shell/ShellHelpers.hpp:51-99 | one character leaves the rest of the text untouched and what was found on track to the whole outcome, or shows that the slots are used up |
| `Tokenizer.EndToken` | Core/Shell/ShellHelpers.hpp:55-64 | a blank or a quote ends the token, whose string stays as it was |
| `Tokenizer.ExtendToken` | Core/Shell/ShellHelpers.hpp:88-98 | the last character of the text ends its token, with the terminator in the spare cell |
| `Tokenizer.RestStep` | Core/Shell/ShellHelpers.hpp:51-99 | one turn of the loop is one character of the recursive tokenizer, in each mode and at the end |
| `Tokenizer.TokensMadeOf` | Core/Shell/ShellHelpers.hpp:51-99 | tokens hold characters of the text only, and no quote |
| `Tokenizer.ReturnedStringsAreTokens` | Core/Shell/ShellHelpers.hpp:60-97 | for a text without NUL, reading a returned pointer as a C string gives its token |
| `Tokenizer.ItemsAreSplit` | Core/Shell/ShellHelpers.hpp:51-99 | arguments written in quotes or bare, after spaces and tabs, are split into themselves, or overflow the slots |
| `Tokenizer.WriteSplitRoundTrip` | Core/Shell/ShellHelpers.hpp:43-104 | any arguments without double quotes, each in quotes or, when it is a word, bare, and any control characters after them, are split back into exactly themselves; more than the slots are refused |
| `Tokenizer.UnclosedQuote` | Core/Shell/ShellHelpers.hpp:88-98 | an unclosed quote ends with the text, and an empty one is no argument |
| `Tokenizer.SlotsSuffice` | Core/Shell/ShellHelpers.hpp:66-67 | a text is refused if and only if more tokens begin in it than there are slots |
| `Tokenizer.NothingIsLostWhen` | Core/Shell/ShellHelpers.hpp:69-86 | every character but blanks and quotes is in a token, in order, if and only if the slots suffice and no quote stands inside a bare word |
| `ArgParser.SlotStep` | Core/Shell/ArgParser.hpp:285-299 | the counter and the descriptor of the loop follow from the number of free arguments |
| `ArgParser.SlotOfLate` | Core/Shell/ArgParser.hpp:285-299 | once the wanted arguments are there, free ones go to the first descriptor of count 0 |
| `ArgParser.SlotIs` | Core/Shell/ArgParser.hpp:285-299 | a free argument goes to the descriptor into whose share it falls when the counts are laid end to end, or to the first of count 0 |
| `ArgParser.SearchOptional` | Core/Shell/ArgParser.hpp:30-45 | the first descriptor with the key, or none when no descriptor has it |
| `ArgParser.SearchPositional` | Core/Shell/ArgParser.hpp:47-53 | the first descriptor without a key from a place on |
| `ArgParser.ScanIs` | Core/Shell/ArgParser.hpp:253-284 | an argument is an option's key when it is the key of a descriptor, the first with it, one of its parameters when it follows within the count, and free when no descriptor has it for a key |
| `ArgParser.OptionAlone` | Core/Shell/ArgParser.hpp:257-284 | an option is called with each of its parameters, or once without any when it takes none, and refused when they are too few |
| `ArgParser.TwoPositionals` | Core/Shell/ArgParser.hpp:285-309 | the first of two positional descriptors is given its count, the second the rest, and the number of arguments decides the status |
| `ArgParser.InvokedAfter` | Core/Shell/ArgParser.hpp:212-227 | `invoke` passes over the counted positional arguments and passes on the others |
| `ArgParser.MadeAreWithCallback` | Core/Shell/ArgParser.hpp:259-289 | only descriptors with a callback are called, and with callbacks everywhere every call is made |
| `ArgParser.TakeOption` | Core/Shell/ArgParser.hpp:255-284 | an option takes its parameters or is refused when they are missing |
| `ArgParser.TakeFree` | Core/Shell/ArgParser.hpp:289-294 | a full descriptor makes way for the next positional one |
| `ArgParser.ParseLoop` | Core/Shell/ArgParser.hpp:241-302 | the loop makes the calls of the recursive parser, those of descriptors with a callback |
| `ArgParser.ParseImpl` | Core/Shell/ArgParser.hpp:241-312 | the calls and the status are those of the recursive parser |
| `ArgParser.Invoke` | Core/Shell/ArgParser.hpp:189-229 | what is passed on is what the recursive walk passes on |
| `ArgParser.MadeIsDelivered` | Core/Shell/ArgParser.hpp:260-270 | a descriptor with a callback gets all that is delivered to it |
| `ArgParser.ParseAndInvokeAgree` | Core/Shell/ArgParser.hpp:189-312 | what `parse` delivers to the first positional of count 0 is exactly what `invoke` passes on, in order, also when an option is cut short |
| `ArgParser.CompleteWhen` | Core/Shell/ArgParser.hpp:253-302 | parsing runs to the end if and only if no option is cut short and every free argument has a descriptor |
| `ArgParser.AcceptedWhen` | Core/Shell/ArgParser.hpp:253-310 | the status is true if and only if no option is cut short and the free arguments are as many as the positional counts want |
| `ArgParser.EachArgumentOnce` | Core/Shell/ArgParser.hpp:253-302 | every argument up to the stop is consumed once, as key, parameter or free argument, and the stop is at a cut option or a free argument without a place |
| `DataNode.DoubledBounds` | Core/Vfs/VfsDataNode.cpp:76-81 | doubling stays a doubling of 16, reaches the length, and stays below twice of it |
| `DataNode.GrownBounds` | Core/Vfs/VfsDataNode.cpp:76-81 | a growth at least doubles the capacity and exceeds neither 16 nor twice the length |
| `DataNode.GrownStaysBelow` | Core/Vfs/VfsDataNode.cpp:80-81 | no doubling passes 2^31 for a length up to 2^31, so a 32-bit size does not wrap |
| `DataNode.GrowthEndsWhen` | Core/Vfs/VfsDataNode.cpp:80-81 | with a 32-bit size the doubling loop ends if and only if the length is at most 2^31 |
| `DataNode.WriteKeepsInvariant` | Core/Vfs/VfsDataNode.cpp:74-118 | a write, failed or not, keeps the relation of capacity, length and bytes copied |
| `DataNode.RunOfWrites` | Core/Vfs/VfsDataNode.cpp:74-118 | over any run of writes length is the greatest end, capacity at most twice that or 16, and all bytes ever copied fit the final capacity |
| `DataNode.VfsDataNode.constructor` | Core/Vfs/VfsDataNode.cpp:11-18 | an empty node without a buffer |
| `DataNode.VfsDataNode.Read` | Core/Vfs/VfsDataNode.cpp:34-57 | the bytes at the position up to the end, each of them the last one written there; errors for access and position |
| `DataNode.VfsDataNode.ReallocateDataBuffer` | Core/Vfs/VfsDataNode.cpp:74-97 | contents are kept, a failure changes nothing |
| `DataNode.VfsDataNode.WriteDataBuffer` | Core/Vfs/VfsDataNode.cpp:99-118 | new bytes at their place, all others as before, the length grown to the end; a failed growth changes nothing |
| `DataNode.VfsDataNode.Place` | Core/Vfs/VfsDataNode.cpp:110-112 | new bytes at their place, all others as before |
| `DataNode.VfsDataNode.Write` | Core/Vfs/VfsDataNode.cpp:59-72 | the same, refused without permission; and the relation of the sizes is kept |
| `DataNode.VfsDataNode.Reserve` | Core/Vfs/VfsDataNode.cpp:140-160 | the contents are exactly the given bytes, a failure changes nothing; on an empty node the relation of the sizes holds from there on |
| `BlockCopy.UninterruptedCopy` | Core/Shell/Scripts/DataReader.cpp:53-98 | a copy that nothing stops ends with E_OK and copies to the end of the source or of the count |
| `BlockCopy.CopyEndsAfterBlocks` | Core/Shell/Scripts/DataReader.cpp:61-95 | a copy stopped by 0x03 or by memory has copied exactly the blocks before that, and reports which it was |
| `BlockCopy.PlanEnds` | Core/Shell/Scripts/DataReader.cpp:56-97 | the ending told by lengths alone: E_TIMEOUT, E_ACCESS, E_VALUE or E_OK at once for 0x03, a source or destination without permission, a start past the end, or nothing to copy; else whole blocks up to count blocks or the end of the source, all of them when undisturbed |
| `BlockCopy.CopiedMore` | Core/Shell/Scripts/DirectDataScript.hpp:148-164 | a block after the earlier ones extends the copied range, and the rest of the destination stays |
| `BlockCopy.DataReader.IsTerminateRequested` | Core/Shell/Scripts/DataReader.cpp:15-51 | true if and only if there was a post and 0x03 was among the unread bytes; else everything was drained |
| `BlockCopy.DataReader.OnDataRead` | Core/Shell/Scripts/CopyNodeScript.hpp:113-129 | one block is laid over the destination and the position moves past it, or nothing changes |
| `BlockCopy.DataReader.Transfer` | Core/Shell/Scripts/DataReader.cpp:71-94 | the block that is read is laid over the destination, or nothing changes, with the result the plan has for it |
| `BlockCopy.DataReader.CopyBlock` | Core/Shell/Scripts/DataReader.cpp:63-94 | one turn ends as the plan says, and adds its block to what was copied before |
| `BlockCopy.AfterTurn` | Core/Shell/Scripts/DataReader.cpp:61-95 | a turn leaves the copy on course to the planned end, or is that end |
| `BlockCopy.DataReader.Read` | Core/Shell/Scripts/DataReader.cpp:53-98 | the result and the number of bytes copied are those of `PlanEnds`, the destination is overlaid with just those, and the loop ends even without a count |
| `BlockCopy.DirectData` | Core/Shell/Scripts/DirectDataScript.hpp:83-94 | destination bytes seek*bs+i are source bytes skip*bs+i for all i below the number copied, others are kept; undisturbed that number is the length from skip*bs on, capped by count*bs when there is a count, and otherwise whole blocks before the stop, with the result for each kind of stop |
| `BlockCopy.CopyNodes` | Core/Shell/Scripts/CopyNodeScript.hpp:100-110 | the destination is what was copied followed by what the old contents had beyond it; that is the whole source when undisturbed, with the result for each kind of stop |
| `VfsHeap.DetachSplits` | Core/Vfs/VfsDirectory.cpp:25-29 | taking a child away parts a subtree in two |
| `VfsHeap.DetachKeepsLinked` | Core/Vfs/VfsDirectory.cpp:27-29 | lists and parent links still agree after erase and leave |
| `VfsHeap.DropKeepsLinked` | Core/Vfs/VfsDirectory.cpp:30 | no list or parent link leads to a deleted node |
| `VfsHeap.DropKeepsUnder` | Core/Vfs/VfsDirectory.cpp:30 | deleting one subtree leaves the others as they were |
| `VfsHeap.NodeHeap.Delete` | Core/Vfs/VfsDirectory.cpp:19-32 | the recursive destructor frees exactly the subtree, each node once, and leaves the other nodes as they were |
| `VfsHeap.NodeHeap.DeleteFirst` | Core/Vfs/VfsDirectory.cpp:23-31 | one turn of its loop frees the subtree of the first child |
| `VfsDirectory.ChangeKeepsValid` | Core/Vfs/VfsDirectory.cpp:34-225 | every change keeps the tree invariant |
| `VfsDirectory.RunKeepsValid` | Core/Vfs/VfsDirectory.cpp:34-225 | any run of changes keeps it |
| `VfsDirectory.AttachKeepsTreeWhen` | Core/Vfs/VfsDirectory.cpp:151-158 | attaching a node leaves a tree if and only if it belonged to no directory, since `create` does not ask |
| `VfsDirectory.OnePlace` | Core/Vfs/VfsDirectory.cpp:151-158 | a node has a handle if and only if it is below the root, and then sits at exactly one place of exactly one list, its parent's; a detached node sits nowhere |
| `VfsDirectory.PrunedIsSubtree` | Core/Vfs/VfsDirectory.cpp:210-213 | what goes with a detached node is its subtree in the tree before |
| `VfsDirectory.PruneTakesSubtree` | Core/Vfs/VfsDirectory.cpp:208-216 | a removal takes the node and its descendants and changes only the one list, by the one entry |
| `VfsDirectory.FailureChangesNoList` | Core/Vfs/VfsDirectory.cpp:34-225 | a failed `create` or `remove` leaves every old node as it was |
| `VfsDirectory.SuccessAppends` | Core/Vfs/VfsDirectory.cpp:151-158 | a successful `create` puts one node, new or detached before, last in the one list |
| `VfsDirectory.WellFormedWhen` | Core/Vfs/VfsDirectory.cpp:53-107 | the lengths that each kind of descriptor must declare |
| `VfsDirectory.RequestIsAsked` | Core/Vfs/VfsDirectory.cpp:42-108 | data are asked for if and only if a data descriptor is there, even an empty one; permissions, data and object are those of the last descriptor of their kind, or the default |
| `VfsDirectory.CreationIs` | Core/Vfs/VfsDirectory.cpp:34-162 | the result and the change for every descriptor list, in the order of the checks: a new node is a data node if and only if there is a data descriptor, with the permissions and data asked for |
| `VfsDirectory.RemovalIs` | Core/Vfs/VfsDirectory.cpp:191-225 | a removal needs a writable directory and a writable node, and takes just the nodes whose parent is that directory |
| `VfsDirectory.ChangedNode` | Core/Vfs/VfsDirectory.cpp:151-158 | what each change leaves at the node it is about, and last in the list |
| `VfsDirectory.FollowingIs` | Core/Vfs/VfsDirectory.cpp:177-189 | the next node is that of the next place of a readable directory, and there is none for an unreadable directory or a node without a parent |
| `VfsDirectory.LeavesNodeBehindWhen` | Core/Vfs/VfsDirectory.cpp:132-161 | a failed `create` leaves a node outside the tree if and only if the directory is writable, all descriptors are well formed, there is a name, no object and some data, the node was allocated, and the copy of the data was not |
| `VfsDirectory.FileSystem.constructor` | Core/Vfs/VfsHandle.hpp:89-93 | an empty root directory with the handle and no parent |
| `VfsDirectory.FileSystem.New` | Core/Vfs/VfsDirectory.cpp:121-136 | a new node is outside the tree, and the tree is as it was |
| `VfsDirectory.FileSystem.Enter` | Core/Vfs/VfsDirectory.cpp:155-156 | a node becomes the last child; for a detached one the result is a tree again |
| `VfsDirectory.FileSystem.ReadDescriptors` | Core/Vfs/VfsDirectory.cpp:42-108 | valid if and only if all lengths are right, and then what is asked for is as in `RequestIsAsked` |
| `VfsDirectory.FileSystem.Create` | Core/Vfs/VfsDirectory.cpp:34-162 | result and change are those of `CreationIs`, an offered node that sits elsewhere is attached again, nothing is freed but a node that could not be named |
| `VfsDirectory.FileSystem.CreateNode` | Core/Vfs/VfsDirectory.cpp:116-161 | each allocation failure leaves the tree as it was |
| `VfsDirectory.FileSystem.Remove` | Core/Vfs/VfsDirectory.cpp:191-225 | result and change are those of `RemovalIs`, and on success the freed nodes are the old subtree, each once |
| `VfsDirectory.FileSystem.Erase` | Core/Vfs/VfsDirectory.cpp:208-216 | the found entry goes, and with it exactly the old subtree |
| `VfsDirectory.FileSystem.Find` | Core/Vfs/VfsDirectory.cpp:206 | the first place of the node, or the end |
| `VfsDirectory.FileSystem.WriteAccess` | Core/Vfs/Vfs.cpp:151-166 | only the permissions change, and only for the right position and length |
| `VfsDirectory.FileSystem.Fetch` | Core/Vfs/VfsDirectory.cpp:177-189 | the node after the current one in a readable directory |
| `VfsDirectory.FileSystem.Next` | Core/Vfs/Vfs.cpp:83-86 | the next node as in `FollowingIs` |
| `VfsDirectory.NodeProxy.Next` | Core/Vfs/Vfs.cpp:252-263 | the cursor moves on, or stays with E_ENTRY |
| `VfsDirectory.SuccessorAt` | Core/Vfs/VfsDirectory.cpp:182-185 | the iterator after a found one is the next place of the list |
| `VfsDirectory.EraseIsWithout` | Core/Vfs/VfsDirectory.cpp:206-210 | erasing a found place takes the node out of the list and keeps the order |
| `Traversal.AdvanceKeepsInvariant` | Core/Vfs/Vfs.cpp:252-263 | a step visits a node not visited before; when there is none, all of the list was visited |
| `Traversal.MeanwhileKeepsInvariant` | Core/Vfs/VfsDirectory.cpp:34-225 | any change that spares the current node keeps visited nodes before it and others after it |
| `Traversal.HeadBeginsWalk` | Core/Vfs/VfsDirectory.cpp:164-175 | the head of a readable directory starts a walk of which nothing was visited before, and it is missing only when no node has that directory for parent |
| `Traversal.RunKeepsInvariant` | Core/Vfs/Vfs.cpp:252-263 | any interleaving of steps and changes keeps it |
| `Traversal.WalkVisitsEachOnce` | Core/Vfs/VfsDirectory.cpp:164-189 | from the head, under any such interleaving, no node is visited twice, and at the end every node of the list was visited |
| `Numerals.NumeralIsExact` | Core/Shell/TerminalHelpers.hpp:172-192 | the numeral has no leading zero and stands for the value |
| `Numerals.NumeralIsUnique` | Core/Shell/TerminalHelpers.hpp:172-192 | it is the only canonical text that does |
| `Numerals.NumeralLength` | Core/Shell/TerminalHelpers.hpp:59-68 | at most n digits if and only if the value is below 10^n |
| `Numerals.CastKeepsHeldValues` | Core/Shell/TerminalHelpers.hpp:101 | a cast keeps every value that the type holds |
| `Numerals.NumeralFitsDigits` | Core/Shell/TerminalHelpers.hpp:59-68 | every magnitude of a type, the signed minimum's too, has at most `digits10` + 1 digits |
| `Numerals.DecimalTextFits` | Core/Shell/TerminalHelpers.hpp:59-68 | printed text and terminator fit `serializedValueLength` if and only if the width is below it |
| `Numerals.PaddedIs` | Core/Shell/TerminalHelpers.hpp:145-157 | padded text has the width, or the length of the digits when that is more; it ends with the digits and has only fill before them |
| `Numerals.DecimalTextIs` | Core/Shell/TerminalHelpers.hpp:172-212 | the same of a printed value, with the minus sign in first place before the fill |
| `Numerals.WidthsOfTypes` | Core/Shell/TerminalHelpers.hpp:59-68 | the bounds and serialized lengths of the 8-, 16- and 32-bit types |
| `Numerals.CastIsCongruent` | Core/Shell/TerminalHelpers.hpp:101 | a cast gives a value of the type that differs by a multiple of 2^bits |
| `Numerals.ClampIsNearest` | Core/Shell/TerminalHelpers.hpp:101 | what `long` cannot hold becomes its nearest value |
| `Numerals.DigitChars` | Core/Shell/TerminalHelpers.hpp:182-229 | the digits are 0 to 9 and then upper-case letters, and letters of either case are read |
| `Numerals.StrtolReadsNumeral` | Core/Shell/TerminalHelpers.hpp:101 | base-0 `strtol` reads a decimal numeral after a blank, a sign, both or neither to its end, clamped to `long` |
| `Numerals.DecimalTextReadsBack` | Core/Shell/TerminalHelpers.hpp:93-107 | unpadded decimal text reads back as its value whenever `long` holds it |
| `TerminalHelpers.Reverse` | Core/Shell/TerminalHelpers.hpp:159-170 | the range is reversed, the rest stays |
| `TerminalHelpers.Prepend` | Core/Shell/TerminalHelpers.hpp:145-157 | the terminated text becomes its padded form of `PaddedIs` in place, and no other cell changes |
| `TerminalHelpers.Uint2Dec` | Core/Shell/TerminalHelpers.hpp:172-192 | the canonical numeral padded as in `PaddedIs`, terminated, and no other cell changed |
| `TerminalHelpers.Int2Dec` | Core/Shell/TerminalHelpers.hpp:194-219 | for every value of every type the text of `DecimalTextIs`, terminated, and no other cell changed |
| `TerminalHelpers.MagnitudeOf` | Core/Shell/TerminalHelpers.hpp:204-211 | negation and cast give the absolute value, for the signed minimum too |
| `TerminalHelpers.Int2Hex` | Core/Shell/TerminalHelpers.hpp:221-239 | the loop ends, with the canonical hexadecimal numeral padded as in `PaddedIs` |
| `TerminalHelpers.HexLoopEndsWhen` | Core/Shell/TerminalHelpers.hpp:226-232 | the loop ends if and only if the value is not negative |
| `TerminalHelpers.LowNibble` | Core/Shell/TerminalHelpers.hpp:228 | the cast to a byte keeps the last hexadecimal digit |
| `TerminalHelpers.Int2Str` | Core/Shell/TerminalHelpers.hpp:77-85 | either format, and the pointer past the digits before padding |
| `TerminalHelpers.PaddingKeepsValue` | Core/Shell/TerminalHelpers.hpp:145-157 | zero fill does not change the value of the text |
| `TerminalHelpers.ZeroFilledReads` | Core/Shell/TerminalHelpers.hpp:145-212 | printed with zeros for the fill, the digits of any value stand for its magnitude |
| `TerminalHelpers.FormatsRead` | Core/Shell/TerminalHelpers.hpp:77-85 | decimal text is in base 10, hexadecimal text in base 16 |
| `TerminalHelpers.PrefixesChooseBase` | Core/Shell/TerminalHelpers.hpp:101 | base 0 reads hexadecimal after 0x and octal after 0 |
| `TerminalHelpers.PrintedValueReadsBack` | Core/Shell/TerminalHelpers.hpp:93-107 | `str2int` gives back every value of the type that `long` holds, from its own printed text |
| `InterfaceParams.Serialize` | Core/Shell/Interfaces/InterfaceNode.hpp:65-105 | the tuple's text if every field has room for its longest text, else 0; never a write past the length |
| `InterfaceParams.WriteField` | Core/Shell/Interfaces/InterfaceNode.hpp:89-96 | the field's text within the room that was asked for |
| `InterfaceParams.OneField` | Core/Shell/Interfaces/InterfaceNode.hpp:65-105 | one field is its decimal text and CR LF, in room for the longest text of its type and for that |
| `InterfaceParams.TwoFields` | Core/Shell/Interfaces/InterfaceNode.hpp:65-105 | two fields are set off by one blank, and each asks for its room in turn |
| `InterfaceParams.ConvertedInText` | Core/Shell/Interfaces/InterfaceNode.hpp:52-62 | the parser never advances past the text |
| `InterfaceParams.FieldReads` | Core/Shell/TerminalHelpers.hpp:93-107 | a field, signed or not, is read back if and only if it fits `long` and its digits fit the chunk beside blank and sign |
| `InterfaceParams.CutFieldReads` | Core/Shell/TerminalHelpers.hpp:96-98 | a field one digit too long for the chunk is read without its last digit, as another value |
| `InterfaceParams.TupleRoundTrip` | Core/Shell/Interfaces/InterfaceNode.hpp:40-155 | for signed and unsigned fields, packing the unpacked tuple gives it back if and only if each field is readable, and then all but CR LF is converted |
| `CpuFrequency.BestDivisorIsTried` | Platform/LPC17xx_DevKit/Scripts/CpuFrequencyScript.hpp:141-145 | when floor(cco/f) is at most 32, no divisor in 1..32 beats one of the at most two tried |
| `CpuFrequency.TriedRange` | Platform/LPC17xx_DevKit/Scripts/CpuFrequencyScript.hpp:142-145 | a divisor is tried at all if and only if floor(cco/f) is at most 32 |
| `CpuFrequency.SkippedIsFar` | Platform/LPC17xx_DevKit/Scripts/CpuFrequencyScript.hpp:142-145 | a skipped multiplier misses the frequency by a 32nd of it or more |
| `CpuFrequency.TriedIsNear` | Platform/LPC17xx_DevKit/Scripts/CpuFrequencyScript.hpp:142-145 | a tried one comes at least that near, once some allowed multiplier is out of range |
| `CpuFrequency.TriedBestIsOptimal` | Platform/LPC17xx_DevKit/Scripts/CpuFrequencyScript.hpp:139-159 | the best of the tried settings is the best of all allowed ones |
| `CpuFrequency.MultiplierRange` | Platform/LPC17xx_DevKit/Scripts/CpuFrequencyScript.hpp:133-134 | the loop bounds enclose exactly the allowed multipliers, for every input frequency, in spite of wrap-around |
| `CpuFrequency.CurrentError` | Platform/LPC17xx_DevKit/Scripts/CpuFrequencyScript.hpp:147-148 | the wrapped difference and `labs` give the distance for every frequency a `long` holds, and a folded distance above that |
| `CpuFrequency.TryMultiplier` | Platform/LPC17xx_DevKit/Scripts/CpuFrequencyScript.hpp:141-156 | the inner loop keeps the result the best of all tried so far |
| `CpuFrequency.OptimalHigh` | Platform/LPC17xx_DevKit/Scripts/CpuFrequencyScript.hpp:139-157 | above the greatest `long` the one optimum is the greatest multiplier, undivided |
| `CpuFrequency.HighOrder` | Platform/LPC17xx_DevKit/Scripts/CpuFrequencyScript.hpp:148 | there, of two multipliers the greater comes out nearer if and only if twice the frequency is below 2^32 plus both oscillator frequencies |
| `CpuFrequency.RightWhen` | Platform/LPC17xx_DevKit/Scripts/CpuFrequencyScript.hpp:139-159 | there, the result is right if and only if the rounding sum does not wrap for the greatest multiplier, and it comes out nearer than the least one |
| `CpuFrequency.FindPllConfig` | Platform/LPC17xx_DevKit/Scripts/CpuFrequencyScript.hpp:124-160 | the result is the global optimum over all allowed multipliers and divisors, and (0, 0) exactly when all are out of reach, if and only if `long` holds the frequency or the condition of `RightWhen` holds; for every frequency and every input frequency; of equally near settings it is the first one tried |
| `CpuFrequency.AllowedAtTwelve` | Platform/LPC17xx_DevKit/Scripts/CpuFrequencyScript.hpp:126-134 | at 12 MHz exactly the multipliers from 23 to 45 are allowed |
| `CpuFrequency.OutOfReachAtTwelve` | Platform/LPC17xx_DevKit/Scripts/CpuFrequencyScript.hpp:139-143 | at 12 MHz everything is out of reach exactly for frequencies of which 33 are at most 276 MHz |
| `CpuFrequency.OneHundredMegahertz` | Platform/LPC17xx_DevKit/Scripts/CpuFrequencyScript.hpp:145-157 | at 12 MHz the optimal settings for 100 MHz are exactly those that meet it |

## Left out

- The contents of the gap when a write starts past the end of a file: unspecified in the code. `written` holds only what was written.
- LineEditor.LineParser.RewindCursor: stated for the numbers that fit its buffer, all below 10^9; `LineEditor.RewindFits` shows that others do not.
- TerminalHelpers.Int2Hex: stated for values that are not negative, since the loop ends for no others (`TerminalHelpers.HexLoopEndsWhen`).
- TerminalHelpers.Int2Str: the same, for the hexadecimal format.
- DataNode.VfsDataNode.ReallocateDataBuffer: stated for lengths up to 2^31, since with a 32-bit size the loop ends for no others (`DataNode.GrowthEndsWhen`).
- DataNode.VfsDataNode.Reserve: the same bound.
- DataNode.VfsDataNode.WriteDataBuffer: the same bound, for the end of the write.
- BlockCopy.DirectData: the copied range must end at or below 2^31, and source and destination are different nodes with different buffers.
- SessionScreen.SessionIsShown: output of commands that does not end its lines, or moves the cursor, is not covered, nor are lines that reach the terminal's width.
- ShellRun.Shell.Evaluate: what a command prints, with the error line after it, and whether it signals are parameters; the result value in the variable `?` is not kept, though later commands may depend on it through the lines before them.
- The result of a whole script run, and blank lines between terminators of different kinds, which the CR LF latch may merge.
- Commands that read the shell's own input while they run, except as steps of the wake-up protocol.
- Signals raised from another thread while no command runs, and bytes that arrive before the shell subscribes.
- The time at which steps happen: the wake-up theorems are about safety, with one lemma that the pending callbacks suffice.
- VfsDirectory.FileSystem.Create: a directory that is itself detached is excluded, as its null handle would be dereferenced; names and timestamps are not kept, and data only as they were at creation.
- Aliasing and placement of nodes in memory: the heap is a map from ids, an id is never reused, and proxies that outlive their node are not modelled.
- Locking: the locks of directories are empty in the code.
- Path lookup, mount points, interface nodes, hardware, environment variables, help texts, colours and listings.
