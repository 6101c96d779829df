# Verified models of the OS runtime, console driver, command interpreter and memory code

Each module models one part of the system and proves what that part is for. Kernel calls (read, write, lseek, I/O
start and completion, event flags) are small methods with contracts; wherever the kernel is free to do something, the
model leaves the choice open.

- **Buffered stdio** (`KernelFile`, `ByteFile`, `Stdio`). A stream is a write-back window over a kernel file. Its
  content is the disk overlaid by the dirty hull, and every operation is one step of a plain byte file, whatever short
  reads and writes the kernel makes. `Stdio.Run` states this for any program of calls.
- **Pseudo-console driver** (`DbLock`, `TailQueue`, `Screen`, `Events`, `Modes`, `Conpseudo`). The database lock is a state
  machine over the single steps of any number of threads; the queues are linked lists with tail pointers; screen data,
  events and mode requests are followed over any run of calls.
- **Signals** (`Signals`). The mutual recursion of setsigmask and call_signal, with programs and handlers given as lists
  of acts: changing the mask, waiting, raising signals, installing handlers. What was done is recorded as a tree whose
  nodes are the states before and after.
- **Command interpreter** (`Numbers`, `Expr`, `Arithmetic`, `Evaluator`, `Printing`, `Substitution`, `CommandLine`, `Tokenizer`,
  `Script`, `Scopes`). Number printing and reading, the expression evaluator, substitution of expressions in braces,
  chopping a line up in its own buffer, labels and goto, and the scope stack of sorted symbol lists.
- **Alpha memory code** (`PageTable`, `PhysCopy`). The access probe, the pool mapper, and copies to, from and between
  scattered physical pages.
- **Descriptors and select** (`FdTable`, `Select`). Allocation with two hints, and polls that outlive the call that
  started them.
- **Directory lookup and number parsing** (`Cdfs`, `Strtol`).

`Common` holds what several modules share.

Each imperative routine of the source is a method over fields and arrays, proved equal to a function or a relation on
values; the lemmas then say what that function means, in terms that do not use it. In `Signals` and `Select` unbounded behaviour (a handler's calls,
waits for the kernel) runs on an arbitrary budget, so every finite run is covered.

## Where code and intention differ

The code is modelled as it is. Each of these is stated as an exact condition.

- A seek to before the beginning of a file is not refused and leaves the stream without a position
  (`Stdio.Stream.Fseek`).
- A seek from the end asks the disk, so it does not see bytes still in the buffer past the disk's end. It comes to the
  end of the content exactly when the two have one length (`Stdio.Run`), that is, when no unwritten byte passes the
  disk's end (`Stdio.Stream.SeekEndIsContentEnd`). A caller is sure of it when nothing has been put or written since the
  last flush. One byte put into an empty file is enough to miss (`Stdio.SeekEndMissesBuffer`).
- A pushed-back byte that differs from the one read changes the stream (`Stdio.Stream.Ungetc`). A new buffer is filled
  with nothing: unread bytes survive only if what it already holds happens to be theirs. One of size 0 is taken as it
  is, and the stream is then not consistent (`Stdio.Stream.Setvbuf`).
- A stream can only be opened on a descriptor whose position is 0 and that no other stream uses, and a file opened for
  append whose size cannot be had starts at -1 (`Stdio.Stream.Fdopen`, `Stdio.Streams.Fdopen`).
- A script may bind symbols in the scopes of its callers. Leaving it gives the caller its scopes back with exactly
  those bindings made there, so unchanged if and only if they change nothing (`Scopes.Interpreter.CallScript`).
- After a failed poll, `select` does not poll that descriptor again for as long as no more is asked of it. If it is the
  first asked about, every call fails; behind one that is ready it does no harm (`Select.Poller.Select`,
  `Select.Poller.StuckBehindReady`).
- The name that a lookup gives back, which has no version for a directory, leads to the same record exactly when its
  version is neither missing nor 0, or the record is the first of its name (`Cdfs.FoundAgain`).
- Posting the last of several get/set-mode requests points the queue's tail back at its head
  (`TailQueue.Queue.Post`), and the next request then takes the place of all that wait. None is lost if and only if
  nothing is asked in that state (`Modes.AnyRun`); a server that posts the oldest first never brings it about
  (`Modes.InOrder`), and two requests with the second posted first are enough to (`Modes.LosesOne`).
- A poll that `select` starts again while it scans may be answered at once, which does not set the event flag it waits
  for; it then sleeps on what has been answered. A call that sleeps has a poll outstanding on everything it asks about
  if and only if none was answered at once (`Select.Poller.Select`); `Select.Poller.AnswerOverlooked` is an input.
- A symbol lookup with a level past the outermost scope also looks in the saved inner ones (`Scopes.GlobalLookup`).
- A negative descriptor passes the only range test there is (oz_crtl_fd.c:100), so its entry is looked up before the
  beginning of the table; the contracts say exactly when (`FdTable.Descriptors.Check`, `Dup`, `Dup2`).
- `dup2` of a descriptor onto itself closes it and reports success (`FdTable.Dup2Opens`).
- `strtol` cannot return the lowest value of its type (`Strtol.ReadsBack`), and neither number parser goes on to the end
  of digits that do not fit.

## Model

| member | source | states |
|---|---|---|
| Stdio.Run | oz_crtl_fio.c:562-1055 | for every program of calls on a stream, console or not, the recorded path of byte files is explained call by call, whatever the kernel refuses; with no fault every call is exactly the byte file's, but for a seek from the end, which goes by the disk's size and is exact if and only if that is the content's, as it is whenever nothing was put or written since the last flush; the stream ends on the path's last state, on disk if so settled; with no fault only a target below 0 stops it |
| Stdio.Do | oz_crtl_fio.c:562-738 | any one call is a step of the byte file, exact with no fault but for a seek from the end, which is exact if and only if disk and content have one length; it leaves no position if and only if its target is below 0; after a flush the disk holds the content |
| Stdio.DoSeek | oz_crtl_fio.c:690-726 | a seek from the start or the position is the byte file's, one from the end goes by the disk; the exact condition for each to leave a position |
| Stdio.DoWrite | oz_crtl_fio.c:174-195 | a write is the byte file's, or a prefix of it after a fault |
| ByteFile.ReadGives | oz_crtl_fio.c:161-172 | reading a byte file gives the bytes from the position on in their order, as many as there are and were asked for |
| ByteFile.ReadCutShort | oz_crtl_fio.c:161-172 | a read cut short by a fault gives some of them, from the first on |
| ByteFile.WritePuts | oz_crtl_fio.c:174-195 | a write puts its bytes at the position, fills a gap with zeros and leaves all others |
| ByteFile.ReadBack | oz_crtl_fio.c:161-195 | what was written is read back after a seek, from the start, the position or the end |
| ByteFile.SeekTells | oz_crtl_fio.c:684-726 | a seek goes where ftell then says and changes nothing else |
| ByteFile.FaultlessIs | oz_crtl_fio.c:690-726 | with no fault a seek from the end comes to the disk's end and so far past it, and is right if and only if that is the content's end |
| ByteFile.SettledIs | oz_crtl_fio.c:734-738 | settled means that nothing was put or written since some flush, or since a clean start |
| Stdio.StopsBelow | oz_crtl_fio.c:690-726 | with no fault only a seek to a place before the beginning leaves no position |
| Stdio.Stream.Flushoutbuf | oz_crtl_fio.c:992-1055 | a flush changes neither content nor position; on success the disk is the content; on failure the hull is kept |
| Stdio.Stream.WriteHull | oz_crtl_fio.c:1010-1044 | the loop over partial writes, which may start inside the clean part before the hull, leaves the view alone at every step |
| Stdio.Stream.SeekHull | oz_crtl_fio.c:1015-1023 | the kernel ends up inside the window's part up to the hull, and is repositioned only when it stands outside that |
| Stdio.WriteThrough | oz_crtl_fio.c:1027-1038 | writing any stretch of the window, clean or dirty, keeps the view and makes that stretch clean |
| Stdio.WriteThroughKeepsView | oz_crtl_fio.c:1027-1038 | rewriting clean bytes before or inside the hull does not change what the stream shows |
| Stdio.CleanViewIsDisk | oz_crtl_fio.c:992-1055 | once the hull is written out the view is the disk itself |
| Stdio.StopEarly | oz_crtl_fio.c:1027-1043 | a write loop that stops anywhere leaves the old hull valid; one that finishes leaves nothing dirty |
| Stdio.Stream.Fillinbuf | oz_crtl_fio.c:911-951 | refilling keeps the content and the position, and reaches valid bytes unless the file ends or faults |
| Stdio.Stream.ReadWindow | oz_crtl_fio.c:920-950 | a window read from the kernel holds just what the disk holds there |
| Stdio.WindowShowsView | oz_crtl_fio.c:562-584 | every valid window byte is the content's byte at its position |
| Stdio.Stream.Getc | oz_crtl_fio.c:562-584 | a byte got is the content's byte at the position, which moves by one; end of file is reported only at the end or after a fault |
| Stdio.Stream.Fgetc | oz_crtl_fio.c:562-584 | reading from a console flushes it first, whatever comes of that, and then reads the content's byte at the position |
| Stdio.Stream.Fputc | oz_crtl_fio.c:622-632 | a byte put is a one-byte write at the position, on disk at once if the mode asks for it |
| Stdio.Stream.Fputcnf | oz_crtl_fio.c:636-657 | putting a byte without flushing is a one-byte write on the content, or changes nothing and reports a fault |
| Stdio.Stream.Store | oz_crtl_fio.c:642-654 | the stored byte is in the widened hull, and no other byte of the content changes |
| Stdio.StoreIsPut | oz_crtl_fio.c:642-654 | widening the hull over the bytes between old hull and new byte is a one-byte write on the view |
| Stdio.Stream.Flushmode | oz_crtl_fio.c:959-984 | unbuffered streams, and line-buffered ones with a newline waiting, end up on disk; the view never changes |
| Stdio.Stream.Fread | oz_crtl_fio.c:161-172 | what is read is the content's bytes ahead of the position, one by one and in order, as many as there are and were asked for unless the kernel faults |
| Stdio.Stream.Fwrite | oz_crtl_fio.c:174-195 | what was taken is a prefix of the data, written at the position; all of it unless the kernel faults |
| Stdio.Stream.Fseek | oz_crtl_fio.c:690-726 | the position becomes the target and the content stays; the stream stays usable if and only if the target is not negative |
| Stdio.Stream.SeekEndIsContentEnd | oz_crtl_fio.c:701-704 | the disk's size is the content's if and only if no dirty byte passes the end of the disk |
| Stdio.SeekEndMissesBuffer | oz_crtl_fio.c:690-726 | the failing input: a byte put into an empty file, and a seek to its end comes back to 0 |
| Stdio.Stream.Ftell | oz_crtl_fio.c:684-688 | the position told is the one the next byte is read from or written to |
| Stdio.Stream.Fflush | oz_crtl_fio.c:734-738 | success means the disk holds the content |
| Stdio.Stream.Fpurge | oz_crtl_fio.c:740-748 | what was not written is given up: the content is the disk again |
| Stdio.Stream.Setvbuf | oz_crtl_fio.c:750-797 | with no fault, changing buffers keeps the stream if and only if a caller's buffer that is to be used is not of size 0 and, when bytes read ahead are left over, already holds what the disk has there; a stream that is kept keeps content and position; a fault leaves everything |
| Stdio.Stream.Ungetc | oz_crtl_fio.c:586-592 | pushing a byte back leaves the content alone if and only if it is the byte just read |
| Stdio.UnmarkedStore | oz_crtl_fio.c:586-592 | storing into the window without marking it dirty is harmless exactly when nothing changes |
| Stdio.Stream.Fdopen | oz_crtl_fio.c:100-118 | a new stream shows the file, at its start or, for append, its end; it is consistent if and only if the descriptor is at position 0 and, for append, the kernel gave its size |
| Stdio.Stream.Fclose | oz_crtl_fio.c:139-153 | a successful close leaves the content on disk |
| Stdio.Streams.Fdopen | oz_crtl_fio.c:100-118 | the new stream joins the list of all files; the list is consistent if and only if the descriptor is at position 0, gave its size, and is not another stream's |
| Stdio.Streams.Fclose | oz_crtl_fio.c:139-153 | exactly the closed stream leaves the list; every other keeps content and position |
| Stdio.Streams.Fgetc | oz_crtl_fio.c:562-584 | reading from a console first puts every console stream's content on disk, and moves no stream but the one read |
| Stdio.Streams.FlushConsoles | oz_crtl_fio.c:569-573 | all console streams are on disk and no stream's view has changed |
| Stdio.Unlink | oz_crtl_fio.c:149-150 | taking a stream off the list drops it and nothing else |
| KernelFile.OpenFile.Read | oz_crtl_fio.c:933-941 | the kernel may return any short count; zero only at the end of the file |
| KernelFile.OpenFile.Write | oz_crtl_fio.c:1028-1036 | the kernel may write any prefix; a gap past the end fills with zeros |
| DbLock.MutualExclusion | oz_dev_conpseudo.c:1072-1107 | in no interleaving of any number of nested lockers are two threads inside, and the flag is clear while one is |
| DbLock.RunInv | oz_dev_conpseudo.c:1072-1107 | every reachable state has exactly one lock token, in the flag or with one thread, and the owner field names who may re-enter |
| DbLock.ActKeepsInv | oz_dev_conpseudo.c:1072-1107 | each single step of any thread keeps that |
| DbLock.ActKeepsOneToken | oz_dev_conpseudo.c:1083-1085 | no swap, by winner or loser, creates or destroys the token |
| DbLock.Refines | oz_dev_conpseudo.c:1072-1107 | the steps refine a reentrant lock: only the outermost lockdb takes it and only the matching unlkdb frees it, and the value returned tells which |
| DbLock.CanRelease | oz_dev_conpseudo.c:1096-1107 | whoever has the token can bring it back to the flag by its own steps: a competing swap to 0 never destroys an unlock |
| DbLock.CanTake | oz_dev_conpseudo.c:1072-1088 | with the flag set, any thread gets in by its own steps |
| DbLock.NeverLockedOut | oz_dev_conpseudo.c:1072-1107 | from every reachable state and for every thread, some continuation lets it in |
| TailQueue.Queue.Enqueue | oz_dev_conpseudo.c:650-657 | the element goes where the tail points: to the end, or, if the tail was pointed back at the head too early, in place of all others; the tail is right again |
| TailQueue.Queue.Dequeue | oz_dev_conpseudo.c:941-946 | the oldest element comes off; the tail is right even when the queue has become empty |
| TailQueue.Queue.RemoveAll | oz_dev_conpseudo.c:350-396 | unlinking while walking takes out exactly the selected elements, keeps the order of both parts, and leaves the tail right |
| TailQueue.SelectJoins | oz_dev_conpseudo.c:350-396 | selecting looks at each element by itself and keeps the order |
| TailQueue.SelectOne | oz_dev_conpseudo.c:366-373 | an element is selected if and only if it passes the test, or fails it where that is asked for |
| TailQueue.Queue.Visit | oz_dev_conpseudo.c:366-373 | one turn of the walk either passes an element or removes exactly it |
| TailQueue.Queue.Unlink | oz_dev_conpseudo.c:366-373 | exactly the element that the slot leads to is gone |
| TailQueue.Queue.FindSlot | oz_dev_conpseudo.c:821-831 | the walk finds the request if it is queued, with the pointer that leads to it |
| TailQueue.Queue.Post | oz_dev_conpseudo.c:814-845 | posting removes exactly the request; the tail is right afterwards if and only if the queue is empty, or the tail was right and the request was not the last |
| TailQueue.Queue.MarkFirst | oz_dev_conpseudo.c:800-807 | the first request not yet fetched is marked in place, and nothing else changes |
| TailQueue.Queue.Drain | oz_dev_conpseudo.c:301-328 | everything comes off, oldest first, wherever the tail pointed, and the tail is made unusable |
| TailQueue.MidwayStep | oz_dev_conpseudo.c:366-373 | part way through the walk, what is left and what was removed are the two halves of what was visited |
| TailQueue.MidwayEnd | oz_dev_conpseudo.c:366-373 | at the end they are the two halves of the whole queue |
| Screen.AnyRun | oz_dev_conpseudo.c:635-677 | over any run of displays and requests of any sizes, the bytes handed out are a prefix of the accepted buffers, buffers are reported displayed in order and only when fully out, and at most SENDDATQMAX wait |
| Screen.TakeKeepsInv | oz_dev_conpseudo.c:662-674 | taking any part of the first buffer keeps the accounting of every byte |
| Screen.AcceptKeepsInv | oz_dev_conpseudo.c:925-939 | so does accepting a buffer |
| Screen.HandedIsPrefix | oz_dev_conpseudo.c:635-677 | the accounting implies the prefix property, for bytes and for reports |
| Screen.FlatPrefix | oz_dev_conpseudo.c:635-677 | the first buffers laid end to end are a prefix of all of them |
| Conpseudo.Devex.DispStart | oz_dev_conpseudo.c:908-952 | a buffer is accepted at the end of the queue, or refused with nothing changed, as the status tells; at most one waiting request is released, the oldest |
| Conpseudo.Devex.QueueData | oz_dev_conpseudo.c:925-939 | the count of queued buffers stays the length of the queue |
| Conpseudo.Devex.GetScrData | oz_dev_conpseudo.c:635-677 | a request is given the next bytes of the history, as many as fit, or queued when there is no data |
| Conpseudo.Devex.TakeHead | oz_dev_conpseudo.c:662-674 | the bytes given are the first of the oldest buffer, as many as there is room for, and are what the history of bytes handed out grows by; a buffer larger than the request stays, shortened in place; otherwise it is used up and reported |
| Conpseudo.Devex.SendreqIodone | oz_dev_conpseudo.c:956-991 | a deferred completion is given the next bytes of the history, as many as fit, or nothing if data or device have gone |
| Events.AnyRun | oz_dev_conpseudo.c:755-783 | over any run every request is matched, aborted or waiting; the k-th event goes to the k-th request not aborted, none is lost or given twice, and events and requests never both wait |
| Events.FateIsFinal | oz_dev_conpseudo.c:350-396 | a request matched or aborted stays so, and a cancellation aborts exactly those that wait and may be aborted |
| Events.KeptInTurn | oz_dev_conpseudo.c:1027-1049 | the requests not aborted are those matched and then those waiting, in order |
| Modes.AnyRun | oz_dev_conpseudo.c:726-845 | over any run of asking, fetching and posting every mode request is posted, waiting or lost, and none is lost if and only if none was asked while the queue was broken |
| Modes.InOrder | oz_dev_conpseudo.c:726-845 | a server that always posts the oldest loses nothing and answers in the order of asking |
| Modes.LosesOne | oz_dev_conpseudo.c:814-845 | the failing input: of two requests the second is posted first, and a third then takes the place of the one never answered |
| Modes.AfterKeepsInv | oz_dev_conpseudo.c:726-845 | each call keeps the accounting of requests, and only asking while the queue is broken loses any |
| Conpseudo.Devex.GotEvent | oz_dev_conpseudo.c:1027-1049 | an event goes to the oldest waiting request, or waits at the end of its queue |
| Conpseudo.Devex.GetEvent | oz_dev_conpseudo.c:755-783 | a request gets the oldest waiting event, or waits at the end of its queue |
| Conpseudo.ModeReqs.Ask | oz_dev_conpseudo.c:733-741 | a mode request is queued where the tail points, as the history says |
| Conpseudo.ModeReqs.FetchMode | oz_dev_conpseudo.c:792-812 | the oldest request not yet fetched is marked, or the status tells why none is |
| Conpseudo.ModeReqs.PostMode | oz_dev_conpseudo.c:814-845 | a fetched request that is queued is taken off; any other is refused and nothing changes |
| Conpseudo.Devex.GetSetMode | oz_dev_conpseudo.c:726-746 | a mode request is queued and the server told by an event, or nothing happens when there is no memory |
| Conpseudo.Devex.Abort | oz_dev_conpseudo.c:350-396 | exactly the abortable requests are aborted, in both queues; the others keep their order and the tails stay right |
| Conpseudo.Devex.Deassign | oz_dev_conpseudo.c:262-342 | all waiting requests for data and events are aborted oldest first, and all data, events and mode requests still queued are gone |
| Conpseudo.Devex.Setup | oz_dev_conpseudo.c:570-627 | a set-up device starts with empty queues, of mode requests too, that can be queued on |
| Signals.AnyProgram | oz_crtl_signal.c:213-416 | for every program and every table of handlers, given as lists of acts: each act in turn has its effect and so has each act of each handler it leads to, recorded from state to state, and the history is exactly that of the record; at the end, or when the program waits for good, only blocked signals are pending, each was raised, and every raised signal has been acted on since or is pending |
| Signals.Process.Perform | oz_crtl_signal.c:188-312 | one act of the program has its effect on mask, pending signals, actions and history, with those of the handlers it leads to |
| Signals.Process.CallSignal | oz_crtl_signal.c:346-416 | a blocked signal becomes pending and nothing else happens; otherwise it is acted on first, under the mask found plus the handler's; a handler's acts are all done, in order, before the mask found is restored; a handler fires once; the recursion ends |
| Signals.Process.Enter | oz_crtl_signal.c:399-408 | the handler runs from the state with its signals blocked and itself installed no more, and then the mask is restored with what that releases |
| Signals.HandlerRuns | oz_crtl_signal.c:399-408 | what the record says of a handled signal: each act of its handler was done, from state to state, after the entry of the action and before the mask was restored |
| Signals.Reinstalls | oz_crtl_signal.c:399-408 | a handler that only installs itself again is installed again, and nothing else has changed |
| Signals.ActsAre | oz_crtl_signal.c:188-287 | which signals are in the mask after each kind of act, what an arriving blocked signal changes, and which action an installation replaces |
| Signals.CallKeepsMask | oz_crtl_signal.c:346-416 | whatever a signal leads to, the mask is afterwards what it was |
| Signals.Process.SetSigMask | oz_crtl_signal.c:320-338 | the new mask is in force at the end, whatever handlers did in between; exactly the pending signals it lets through are called, in ascending order; no other pending signal is dropped |
| Signals.AscendingIs | oz_crtl_signal.c:320-338 | the signals released are called once each, in ascending order |
| Signals.Process.SigProcMask | oz_crtl_signal.c:213-243 | exactly the signals asked for are in the mask afterwards: those of both, of the old without the new, or the new ones; none pending is dropped and none made up |
| Signals.Process.SigSuspend | oz_crtl_signal.c:268-287 | it goes on if and only if some signal has been acted on, and then with the mask it found; no signal is dropped, whether the program or a handler waits |
| Signals.Process.Raise | oz_crtl_signal.c:298-312 | a signal that arrives is noted, and acted on at once if it is not blocked, else pending with nothing else changed |
| Signals.Process.Sigaction | oz_crtl_signal.c:188-203 | one action is replaced, or the number is refused and nothing changes |
| Signals.Process.RunHandler | oz_crtl_signal.c:399-408 | a handler's acts are done one after another with whatever arrives between them; pending signals are a part of the blocked ones at each boundary and no signal is lost |
| Signals.Process.Take | oz_crtl_signal.c:188-312 | one act, of a program or a handler, has its effect or is where the run stops |
| Numbers.ToString | oz_common_486_c.c:77-106 | filling a temporary area backwards gives the positional numeral, which always fits it |
| Numbers.TruncatedIs | oz_common_486_c.c:99-106 | a numeral is cut off at its end to leave room for the null |
| Numbers.NumeralLength | oz_common_486_c.c:77-106 | a numeral has no more digits than the power it is below |
| Numbers.Atoi | oz_common_486_c.c:112-135 | the loop over digits reads decimal, or hexadecimal after 0x, modulo the word size, and reports where it stopped |
| Numbers.ReadLoop | oz_common_486_c.c:139-157 | one loop reads exactly the digits of its base |
| Numbers.ReadNumeral | oz_common_486_c.c:112-157 | a numeral standing anywhere is read as its value and used up exactly |
| Numbers.RoundTrip | oz_common_486_c.c:77-135 | reading a printed number gives it back, whatever follows it |
| Numbers.HexRoundTrip | oz_common_486_c.c:94-157 | the same in hexadecimal |
| Numbers.DigitsAre | oz_common_486_c.c:77-157 | which character stands for which digit, in capitals or small letters |
| Numbers.ReadsHorner | oz_common_486_c.c:112-157 | digits are read as the integer they denote, wrapped at the word size, up to the first character that is none |
| Numbers.NumberIs | oz_common_486_c.c:112-135 | a number is decimal, also after a zero, and used up to its last digit |
| Numbers.HexNumberIs | oz_common_486_c.c:112-157 | behind 0x it is hexadecimal |
| Evaluator.EvaluateText | oz_cli.c:1569-1775 | the loop that overwrites the left value comes to the recursive left-to-right reading of the text |
| Arithmetic.TextComputes | oz_cli.c:1569-1775 | the text of two numbers with an operator between them evaluates to that operator's result, all of it used up |
| Arithmetic.StringsCompute | oz_cli.c:1569-1775 | so does that of two quoted strings |
| Arithmetic.SumAndDifference | oz_cli.c:1606-1733 | + and - are the sum and the difference but for a multiple of the word, and undo each other |
| Arithmetic.Product | oz_cli.c:1703-1710 | * is the product but for a multiple of the word |
| Arithmetic.Division | oz_cli.c:1678-1702 | / and % are quotient and remainder; by zero there is no value |
| Arithmetic.ShiftLeft | oz_cli.c:1712-1719 | << multiplies by a power of two but for a multiple of the word |
| Arithmetic.ShiftRight | oz_cli.c:1721-1728 | >> divides by one |
| Arithmetic.Bits | oz_cli.c:1624-1649 | each bit of &, | and ^ comes from the same bit of the operands |
| Arithmetic.BitsTell | oz_cli.c:1624-1649 | a number is determined by its bits |
| Arithmetic.Truths | oz_cli.c:1651-1677 | the truth tables of &&, || and ^^ |
| Arithmetic.NumbersCompared | oz_cli.c:1753-1771 | the six comparisons of numbers, one under two names |
| Arithmetic.TextsCompared | oz_cli.c:1753-1771 | anything else is compared as text, by the first difference or else the length |
| Arithmetic.JoinAndCut | oz_cli.c:1606-1751 | with strings + joins, and - cuts the second out of the first where it first stands, if it does |
| Arithmetic.OnlyThose | oz_cli.c:1624-1729 | every other operator fails on a string |
| Evaluator.GetOperand | oz_cli.c:1795-1905 | an operand is read as its function says: number, literal, variable, function or parentheses |
| Evaluator.GetSymbol | oz_cli.c:1844-1891 | a name stands for its variable, or applies its function to the arguments in parentheses, with the function's failures |
| Evaluator.GetArguments | oz_cli.c:3020-3033 | arguments are read one after another, each up to its comma or the parenthesis and converted before the next |
| Evaluator.GetOperator | oz_cli.c:1922-1942 | the first table entry that matches is found, and the text is used up only then |
| Evaluator.GetString | oz_cli.c:1819-1840 | a literal is read up to its quote with its escapes resolved |
| Evaluator.NameMatches | oz_cli.c:1931-1933 | a name is found exactly when it stands there in full |
| Expr.Evaluate | oz_cli.c:1569-1775 | evaluation ends on every input and, if it succeeds, after at least one character and within the text |
| Expr.Bitwise | oz_cli.c:1624-1649 | bit by bit results stay within the word |
| Printing.PrintThenEvaluate | oz_cli.c:1569-1942 | for every expression tree, evaluating its printed text gives its left-to-right value or its first failure, and uses all of the text |
| Printing.PrintReads | oz_cli.c:1569-1942 | wherever the text of a tree stands, evaluation comes to the tree's outcome at its end and goes on from there |
| Printing.FirstIsLongest | oz_cli.c:182-203 | the first entry that matches is the longest: two-character operators precede their one-character prefixes |
| Printing.OperatorReads | oz_cli.c:182-203 | an operator printed before an operand is read back as itself |
| Printing.QuoteReads | oz_cli.c:1819-1840 | an escaped literal is read back as its text |
| Printing.EscapedReads | oz_cli.c:1828-1834 | b, n, r and t behind a backslash stand for control characters, any other character for itself |
| Printing.PlainQuoteReads | oz_cli.c:1819-1840 | text without backslashes may stand as it is in either kind of quotes that it does not hold |
| Printing.BlanksIgnored | oz_cli.c:1805-1942 | blanks before an operand or an operator make no difference |
| Printing.CallReads | oz_cli.c:1856-1889 | a printed function call applies the function to its arguments' values, converted, and fails as the first of them that fails |
| Printing.ArgumentsRead | oz_cli.c:1486-1548 | printed arguments, however many and however nested, are read back as their values, with the same failures |
| Printing.ConvertIs | oz_cli.c:1486-1551 | any value is text, and a number is one as itself or as its text |
| Printing.NoNumber | oz_cli.c:1503-1511 | text that ends in no digit is no number |
| Printing.InnerReads | oz_cli.c:1895-1895 | text in parentheses or up to an argument's comma is evaluated whole, up to its own closing character |
| Substitution.Substitute | oz_cli.c:1327-1406 | the growing output buffer ends up holding the substituted line and its null, and is never written past its end |
| Substitution.TemplateFills | oz_cli.c:1327-1406 | a line made of plain text and printed expressions in braces becomes the text with the expressions' values, or fails as the first failing expression does |
| Substitution.BraceReads | oz_cli.c:1351-1388 | braces around any expression stand for its value; a lone undefined name stands for nothing |
| Substitution.QuotedStays | oz_cli.c:1341-1351 | what stands in single quotes is left alone, braces and all |
| Substitution.EscapedStays | oz_cli.c:1341-1347 | a backslash leaves the next character alone, and both stay in the line |
| Substitution.ReadBrace | oz_cli.c:1352-1374 | what follows a brace is told apart as its function says |
| Substitution.PutChar | oz_cli.c:1343-1400 | a character, escaped or not, is appended with room left for the null |
| Substitution.PutText | oz_cli.c:1376-1385 | text is appended with room left for the null |
| CommandLine.LineReads | oz_cli.c:1063-1144 | any lists of words can be written as a command line that is cut back into exactly them |
| CommandLine.WordsRead | oz_cli.c:1075-1098 | quoted and escaped words are read back as they were |
| CommandLine.QuotedReads | oz_cli.c:1075-1092 | text in quotes of either kind is part of the word, blanks and all |
| CommandLine.OrdinaryReads | oz_cli.c:1079-1092 | any other character that is not blank is part of the word, also a bar that is no pipe |
| CommandLine.CommentEnds | oz_cli.c:1076-1078 | a comment ends the line, a pipe the segment and a blank the word |
| CommandLine.Split | oz_cli.c:1069-1144 | the next segment starts beyond what has been read and within the line |
| Tokenizer.ScanSegment | oz_cli.c:1069-1126 | chopping in place gives the words of the pure split; the vector has room for them and a null; the text of the next segment is untouched |
| Tokenizer.Chop | oz_cli.c:1080-1097 | one character moves down over one already read, never past it |
| Tokenizer.NewWordStep | oz_cli.c:1089-1092 | the vector has room for each new word |
| Tokenizer.Finish | oz_cli.c:1099-1126 | every vector entry points at its own word, and what has not been read is still the line |
| Tokenizer.LaidReads | oz_cli.c:1089-1100 | words laid end to end read back as C strings, each by itself |
| Tokenizer.Execute | oz_cli.c:1047-1145 | segments run one after another, each with exactly its own words, up to the first that does not start |
| Script.Interpreter.Goto | oz_cli.c:4707-4737 | the next line executed is the latest scanned definition of the label, else the first later one, else none, whatever goto came before it on the same line; only the empty label leaves an earlier one in force |
| Script.FirstDefLater | oz_cli.c:974-1031 | a label not seen so far is first defined where it first is among the lines not scanned |
| Script.Interpreter.ReadNext | oz_cli.c:662-715 | reading, noting labels and skipping comes to exactly that line, or to the end of the script |
| Script.Interpreter.ProcLabels | oz_cli.c:974-1031 | every recorded position stays that of the last scanned line with the label, and skipping ends at the label looked for |
| Script.Interpreter.NoteLabel | oz_cli.c:1000-1016 | one label is entered or moved, and no other |
| Script.Interpreter.FindLabel | oz_cli.c:1000-1002 | the list is searched to the first entry of the name |
| Script.LookupUpdated | oz_cli.c:1000-1016 | updating an entry in place changes one label's position |
| Script.ListsSnoc | oz_cli.c:1000-1016 | noting one line's label keeps the list that of the last definitions |
| Script.LabelIs | oz_cli.c:974-1031 | a line is labelled when its first word ends in a colon; the label is the rest of the word, cut to its longest, and what follows is executed |
| Script.OnlyLabels | oz_cli.c:974-1031 | and only then |
| Script.ClipIs | oz_cli.c:974-1031 | a label is kept whole up to 63 characters |
| Script.FirstDefIs | oz_cli.c:974-1031 | the first later definition has none before it, and there is none only if no line is one |
| Script.LastDefIs | oz_cli.c:1000-1016 | the last definition is the one scanned last |
| Script.LastDefLabelled | oz_cli.c:1013-1016 | a recorded position is a line that starts with its label |
| Scopes.Interpreter.InsertSymbol | oz_cli.c:3297-3324 | the one scope meant gets the binding, the outermost if there are not that many; all lists stay sorted and without duplicates |
| Scopes.PutSorted | oz_cli.c:3314-3323 | replacing or inserting at the found place keeps a list strictly sorted |
| Scopes.PutMap | oz_cli.c:3314-3323 | and updates the map that the list stands for |
| Expr.BeforeIsOrder | oz_cli.c:3315-3320 | the string order used is a strict total order |
| Scopes.Interpreter.FindPlace | oz_cli.c:3314-3321 | the place found is where the name is or would go |
| Scopes.Interpreter.LookupSymbol | oz_cli.c:3345-3377 | the binding found is the first in the order in which scopes are searched for that level |
| Scopes.LookupIsInnermost | oz_cli.c:3345-3377 | at level 0 that is the innermost binding |
| Scopes.InnermostIs | oz_cli.c:3345-3377 | the innermost binding is in a scope inside of which there is none |
| Scopes.LookupFrom | oz_cli.c:3345-3377 | from any level there is, scopes are searched from that one outward |
| Scopes.GlobalLookup | oz_cli.c:3345-3377 | past the outermost level it is the outermost scope's binding if and only if the name is bound there or in no saved scope |
| Scopes.Interpreter.SearchList | oz_cli.c:3365-3370 | one list is searched as the map it stands for |
| Scopes.Interpreter.IntScript | oz_cli.c:6541-6558 | a script starts with its arguments as its only symbols and no labels, everything of its caller's saved |
| Scopes.BindAllIs | oz_cli.c:6541-6558 | of several arguments with one name the last counts |
| Scopes.Interpreter.ExitScript | oz_cli.c:929-966 | the caller's symbols, labels and handles are in force again, or the interpreter has exited |
| Scopes.Interpreter.CallScript | oz_cli.c:4435-4550 | for every script, given as what it does in order, with bindings at any levels and scripts run by it nested to any depth: afterwards the scopes are the caller's with exactly the bindings that went outward applied, each a level further in, and none of its own left; labels, handles and saved scripts are the caller's; the symbol lists are unchanged if and only if those bindings change nothing |
| Scopes.Interpreter.RunCmd | oz_cli.c:4435-4550 | one command of a script changes its caller's scopes by exactly the bindings that go outward |
| Scopes.Interpreter.ScriptBinds | oz_cli.c:3297-3324 | a binding at level 0 leaves every outer scope alone; one at level n is made at level n - 1 of the caller's |
| Scopes.OutwardApplies | oz_cli.c:3297-3324 | what any sequence of bindings does to the outer scopes is what its outward ones do there |
| Scopes.MapTellsList | oz_cli.c:3314-3323 | a sorted list is determined by the map it stands for, so equal scopes are equal lists |
| PageTable.Tables.Probe | oz_common_axp_c.c:941-998 | true if and only if the range neither wraps nor spans the gap and every byte of it is in an accessible page |
| PageTable.ProbeRights | oz_common_axp_c.c:939-965 | a probe asks for a valid entry that the kernel may read, for the user that the user may, and for writing that those may write |
| PageTable.Tables.AccessibleIs | oz_common_axp_c.c:967-997 | the way to a page leads over one entry of each level, all of which must be valid and readable, and the last have the rights asked for |
| PageTable.PageOf | oz_common_axp_c.c:961-962 | page numbers follow the addresses on either side of the gap |
| PageTable.Tables.CheckPages | oz_common_axp_c.c:967-997 | looking at the upper levels only where their index changes checks every page at every level |
| PageTable.ByteOfPage | oz_common_axp_c.c:961-962 | each page checked holds a byte of the range, so none is checked in vain |
| PageTable.Tables.PoolInit | oz_common_axp_c.c:236-297 | the block is aligned, large enough, previously unmapped and maps to consecutive pages; every other translation is unchanged; new table pages are distinct and lie below the pool |
| PageTable.Tables.FindBlock | oz_common_axp_c.c:259-274 | the block found is the lowest aligned one with no mapped page |
| PageTable.Tables.FillBlock | oz_common_axp_c.c:282-296 | page by page, earlier pages stay mapped, other translations stay as they were, and table pages are counted down without a gap |
| PageTable.Tables.MapPage | oz_common_axp_c.c:284-295 | one page is mapped, with the table pages it lacks |
| PageTable.Tables.NeedL1 | oz_common_axp_c.c:287-290 | a new second-level table changes no translation |
| PageTable.Tables.NeedL2 | oz_common_axp_c.c:291-294 | a new third-level table changes no translation |
| PageTable.Tables.PoolAccessible | oz_common_axp_c.c:236-297 | the probe finds every pool page writable by the kernel |
| PageTable.PoolFlagsAre | oz_common_axp_c.c:282-296 | a pool page is valid, the kernel's to read and write and not the user's, with the hint in its place |
| PageTable.Rounding | oz_common_axp_c.c:249-263 | sizes and addresses are rounded to the granularity in the direction that keeps the block large enough and in place |
| PageTable.GranIs | oz_common_axp_c.c:249-258 | the granularity is the largest that is no more than twice what is required |
| PhysCopy.Cpu.MoveFromVirt | oz_common_axp_c.c:484-508 | on distinct pages exactly the flattened range receives the bytes; nothing else changes; the temporary mapping is restored |
| PhysCopy.Cpu.MoveToVirt | oz_common_axp_c.c:527-550 | the buffer receives exactly the flattened range and nothing else of it changes; the mapping is restored |
| PhysCopy.GatherIsSlice | oz_common_axp_c.c:484-508 | on pages that follow one another the flattened range is a stretch of memory |
| PhysCopy.Cpu.OutAndBack | oz_common_axp_c.c:484-550 | moving out to distinct pages and back again gives what there was |
| PhysCopy.Cpu.MovePhys | oz_common_axp_c.c:570-602 | between ranges that share no byte, whatever their offsets, the destination becomes the source; nothing else changes; both mappings are restored |
| PhysCopy.Cpu.MovePiece | oz_common_axp_c.c:582-597 | each turn copies at least one byte, as much as both pages have left |
| PhysCopy.Cpu.TakePiece | oz_common_axp_c.c:538-547 | each turn moves at least one byte to the buffer, as much as the page has left, and keeps what was moved before |
| PhysCopy.Cpu.Normalize | oz_common_axp_c.c:495-496 | an offset past a page is carried over into the page list |
| PhysCopy.WritePiece | oz_common_axp_c.c:499-504 | a piece of one page extends the written part of the range and touches nothing outside |
| PhysCopy.NextWritten | oz_common_axp_c.c:590-597 | the source's bytes still to be read have not been written over |
| FdTable.Descriptors.Run | oz_crtl_fd.c:39-189 | over any sequence of requests the two hints give the results that searching from 0 would |
| FdTable.StepIs | oz_crtl_fd.c:59-189 | a granted descriptor names the file asked for, or that of the descriptor copied; a freed one is open no more; no other changes |
| FdTable.Descriptors.Alloc | oz_crtl_fd.c:59-79 | the lowest descriptor not open is granted, clear; it fails only when all are taken |
| FdTable.Descriptors.Release | oz_crtl_fd.c:121-138 | exactly that descriptor is free afterwards, if it was in use |
| FdTable.Descriptors.Check | oz_crtl_fd.c:97-103 | true if and only if the descriptor is open; a negative one is looked up outside the table |
| FdTable.Descriptors.Dup | oz_crtl_fd.c:148-159 | the lowest free descriptor names the same file; the table is left if and only if the old descriptor is negative |
| FdTable.Descriptors.Dup2 | oz_crtl_fd.c:161-189 | the descriptor asked for names the same file, closed first if it was open, wherever it lies with respect to the hints; the table is left if and only if the old descriptor is negative, or is open and the new one is negative |
| FdTable.GrantIsLeast | oz_crtl_fd.c:59-79 | a grant fails if and only if every descriptor is open, and otherwise is the least that is not |
| FdTable.Dup2Opens | oz_crtl_fd.c:161-189 | the new descriptor is open on the old one's file if and only if the two differ |
| FdTable.FirstFree | oz_crtl_fd.c:65-65 | after a run of entries in use, the first one that is not is the lowest descriptor to grant |
| Select.Poller.Select | oz_crtl_select.c:44-218 | a non-error return leaves exactly the bits a completed poll reported, its value is their number, each report is handed out at most once, no timer runs, and zero is returned only with a timeout; whatever wanted was reported before the call is handed out by it, so it neither waits nor returns zero; an error changes no set and loses no such report; a descriptor that is not open is an error; with all open, if the first descriptor asked about has a poll that came out before and asked for all that is wanted, the call fails if that failed and succeeds if it reported something wanted; a call that sleeps, with its event flag down, has a poll outstanding on every descriptor it asks about, but for polls answered at once |
| Select.Poller.AnswerOverlooked | oz_crtl_select.c:142-148 | the failing input: a poll started again and answered at once is passed over, and the flag stays down |
| Select.Poller.StuckBehindReady | oz_crtl_select.c:132-140 | an input where a failed poll does no harm: it stands behind a descriptor that is ready |
| Select.Poller.QueuePolls | oz_crtl_select.c:77-114 | every descriptor asked about is polled for all that is wanted and none has two polls outstanding; a new poll is started exactly where a wanted bit is outside the old mask |
| Select.Poller.QueueOne | oz_crtl_select.c:93-114 | one descriptor gets a new poll for exactly what is wanted if its old one does not cover that, and otherwise keeps its poll and status |
| Select.Poller.Begin | oz_crtl_select.c:58-114 | queueing the polls leaves alone those that came out before and cover what is wanted, and fails if and only if a descriptor asked about is not open |
| Select.Poller.LeftAlone | oz_crtl_select.c:93-94 | a poll that has come out and covers what is wanted stays as it is while the others' polls are queued |
| Select.Poller.StartPoll | oz_crtl_select.c:109-113 | a poll is started only when none is outstanding, whether the kernel takes it, completes it at once or refuses it |
| Select.Poller.AbortPoll | oz_crtl_select.c:99-105 | afterwards no poll is outstanding, and what the kernel completed meanwhile is not lost |
| Select.Poller.Examine | oz_crtl_select.c:132-148 | a poll is ready, failed or started again only after it has completed; if none of these, it is outstanding, or has put the flag up, or was answered at once |
| Select.Poller.Scan | oz_crtl_select.c:118-149 | ready means some wanted bit has been reported; an error is a status the kernel gave; what was reported before is not passed over |
| Select.Poller.ScanOne | oz_crtl_select.c:118-149 | one turn leaves the descriptors looked at so far with their polls outstanding, the flag up, or an answer given at once |
| Select.Poller.ScanAll | oz_crtl_select.c:118-149 | one pass ends at the latest at a poll that has failed, or that has reported something wanted |
| Select.Poller.Await | oz_crtl_select.c:118-162 | scanning and waiting ends with a poll that came out or the time, and at once if something wanted was reported before |
| Select.Poller.Wait | oz_crtl_select.c:160-162 | a wait keeps that, whatever completes meanwhile |
| Select.Poller.Collect | oz_crtl_select.c:176-206 | reports there at the start are all handed out, none twice, and the sets keep exactly the reported bits |
| Select.OnesCount | oz_crtl_select.c:176-206 | the bits counted are as many as there are |
| Select.BitsAre | oz_crtl_select.c:182-184 | the bits of a completion status are those of the number it exceeds the first by |
| Select.FdSets.MaskIs | oz_crtl_select.c:81-85 | each bit asked about comes from its own set |
| Select.Poller.Take | oz_crtl_select.c:182-184 | a report handed out makes the next call poll again; one that is not there takes nothing away |
| Select.Poller.Finish | oz_crtl_select.c:167-210 | the timer is stopped first, a ready poll yields at least one bit, and every report there at the start is handed out |
| Select.Poller.Tick | oz_crtl_select.c:99-173 | whatever the kernel completes, and whenever, the bookkeeping holds |
| Select.AllKeptStep | oz_crtl_select.c:188-205 | one descriptor's turn keeps its reported bits, counts them and leaves all other bits |
| Select.Poller.ReadyIsLeft | oz_crtl_select.c:138-140 | a wanted bit that has been reported is one of those left |
| Cdfs.Volex.LookupFile | oz_dev_cdfs.c:1021-1099 | searching block by block with the carried counter is one search of all records in order, with the same error conditions |
| Cdfs.LookupChooses | oz_dev_cdfs.c:1021-1183 | the entry found is the one asked for, whatever blocks the records are in, and a lookup fails only if there is none |
| Cdfs.SearchChooses | oz_dev_cdfs.c:1145-1154 | `;n` is the first exact match and `;-n` the match with n before it |
| Cdfs.SearchGoesOn | oz_dev_cdfs.c:1087-1095 | the counter left by one block continues the search in the next |
| Cdfs.ChosenByAge | oz_dev_cdfs.c:1145-1154 | with versions ordered as in section 9.3 of ECMA-119, `;-n` has exactly n newer versions and a named version is unique |
| Cdfs.FoundAgain | oz_dev_cdfs.c:1161-1182 | the name given back leads to the same record if and only if it carries a version other than 0, which a directory's never does, or the record is the first of its name |
| Cdfs.NameBackIs | oz_dev_cdfs.c:1161-1182 | a file's name comes back with its version in decimal, a directory's as it is |
| Cdfs.SamePlaceSameEntry | oz_dev_cdfs.c:1118-1183 | no two records found are in the same place, so the place a lookup gives tells which it was |
| Cdfs.ParsePrinted | oz_dev_cdfs.c:1053-1071 | a version written after a name is the one asked for |
| Cdfs.ParseIs | oz_dev_cdfs.c:1053-1075 | without a version the newest is asked for; a name may be neither too long nor missing |
| Cdfs.BadVersion | oz_dev_cdfs.c:1053-1071 | behind the semicolon there have to be digits |
| Cdfs.Volex.ParseName | oz_dev_cdfs.c:1053-1075 | name, sign and version are taken apart, with the three errors |
| Cdfs.Volex.Scan | oz_dev_cdfs.c:1118-1183 | one block is searched record by record up to its end, a match or a record that does not fit |
| Cdfs.Volex.GetFileName | oz_dev_cdfs.c:1202-1250 | a record's name and version, from its Rock Ridge field if it has a good one |
| Cdfs.NamedIs | oz_dev_cdfs.c:1240-1250 | the version is the number behind the first semicolon, or 1 |
| Cdfs.RawNameIs | oz_dev_cdfs.c:1231-1239 | without a Rock Ridge name a record's name is its identifier byte for byte, a directory's with a slash |
| Cdfs.NameFieldIs | oz_dev_cdfs.c:1210-1229 | a Rock Ridge name is behind the five bytes of a field that says so; any other field is passed over |
| Cdfs.RecordListed | oz_dev_cdfs.c:1118-1183 | a record that fits is listed by its name and place, unless it has no name or is the directory itself or its parent |
| Cdfs.Volex.FindName | oz_dev_cdfs.c:1210-1229 | the walk over extension fields ends, within the record, at the first good name |
| Cdfs.Volex.CopyName | oz_dev_cdfs.c:1231-1239 | the name is cut to the buffer, with a slash for a directory |
| Cdfs.NextBlock | oz_dev_cdfs.c:1087-1095 | a block searched in vain leaves the rest of the directory to be searched with the counter it left |
| Strtol.Strtol | oz_crtl_misc.c:320-367 | the value is that of exactly the digits consumed, which are as many as fit below the maximum, then the sign; never past the maximum either way |
| Strtol.Strtoul | oz_crtl_misc.c:375-413 | the same without a sign |
| Strtol.ReadDigitsOf | oz_crtl_misc.c:348-363 | the two overflow tests, with the wrapped sum, stop where and only where another digit does not fit |
| Strtol.StopsThere | oz_crtl_misc.c:350-363 | stopping at a character that is no digit, or does not fit, is stopping at the longest value that fits |
| Strtol.ReadHead | oz_crtl_misc.c:332-347 | blanks, sign and prefix are skipped and choose the base |
| Strtol.DigitsAre | oz_crtl_misc.c:348-356 | letters of either case follow on the digits as far as the base goes; nothing else is a digit |
| Strtol.ValueIs | oz_crtl_misc.c:350-363 | each further digit is worth one and multiplies those before it by the base |
| Strtol.PlainHead | oz_crtl_misc.c:332-347 | without sign and prefix base 0 means ten, or eight after a zero |
| Strtol.HexHead | oz_crtl_misc.c:336-347 | base 0 means sixteen after 0x, which it and sixteen pass over, and no other base does |
| Strtol.SignedHead | oz_crtl_misc.c:332-336 | a sign is passed over, and minus noted, if the number is signed, and else is no digit |
| Strtol.ReadsBack | oz_crtl_misc.c:320-367 | a printed number in any base is read back, and no further, if and only if it is not the lowest of its type |

## Left out

- printf and scanf families, freopen, gets, fgets, puts, fputs, rewind, fgetpos, fsetpos: wrappers, or the formatter is not part of this model.
- Stdio.Stream.Fread: asks for a non-zero item size, because the source divides by it.
- Stdio.Stream.WriteHull: file positions are unbounded integers; the width of `long` is not modelled.
- SIG_IGN (its test repeats the one for SIG_DFL), `kill` to another process, and what default actions do: a default action is one opaque event.
- Signals.AnyProgram: a handler that waits for good, and a run that spends the budget, are not followed further.
- Signals.Process.SetSigMask: a signal arrives between calls, never between two statements of the routine, whose own masking of asynchronous calls is not modelled.
- Conpseudo.ModeReqs.PostMode: the modes asked for and their buffers are left out.
- Conpseudo.Devex.Abort: the class driver's own abort routine, and callbacks that re-enter the port driver, are left out; each call holds the database lock.
- Liveness of screen data with several simultaneous readers, and keyboard data.
- DbLock.NeverLockedOut: says that some schedule lets a thread in, not that every fair one does.
- Evaluator.GetSymbol: a function's result depends on its arguments only, and each argument is a number or a string; handle arguments and the functions that act on the system are left out.
- Expr.Evaluate: a division by zero and a shift by 32 or more are failures of their own, since the source leaves them to the machine.
- Tokenizer.Execute: whether a segment's command starts is any choice; command handlers, run options and the pipes themselves are left out.
- Script.Interpreter.ReadNext: a record's position is its line number; control-Y and read errors other than the end are left out.
- Scopes.Interpreter.CallScript: a script is given as the commands it comes to execute; which those are is not part of this module.
- Scopes.Interpreter.ExitScript: handles are numbers; releasing them, and the text of script arguments, are left out.
- PageTable.Tables.PoolInit: some aligned unmapped block exists, and physical pages below the pool are not counted; the self-map is left out, with the three levels as separate arrays.
- oz_hw_pte_readany, oz_hw_pte_writecur, translation buffer invalidation and other processors.
- PhysCopy.Cpu.MovePhys: says what the destination holds only for ranges without a common byte, as memcpy demands.
- FdTable.Descriptors.Dup2: a driver's own close work, and the handles that two copies of a descriptor share, are left out.
- Select.Poller.Select: NULL sets are empty ones; copies of a descriptor and closing one with a poll outstanding are left out; after an error return the timer may still run, and its later completion is not followed.
- Cdfs.Volex.LookupFile: the levels of the file identifier above the entry's own, wildcard scans, cdfs_returnspec and mounting are left out; names hold no null character.
- Strtol.Strtol: the base is 0 or 2 to 36, as the C standard asks.
