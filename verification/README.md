# Verification of the dom0 components

This project models the stateful parts of the dom0 packages for L4Re and proves what they are relied on for.
`dafny verify dfyconfig.toml` checks everything. Methods follow the source's loops and branches and are proved
against specifications; the protocols between several threads are state machines with one step per system call;
the theorems below are about all inputs, all interleavings or all runs.

* **Remote dom0** (`Bytes`, `Streams`, `Wire`, `TcpSocket`, `Dom0Server`, `RemoteDom0Instance`). Both ends of the
  two TCP protocols, with partial reads and writes, C-string buffers that keep stale bytes, and connections that
  end or fail at any byte.
* **Both ends together** (`BinaryProtocol`, `BinarySafety`, `BinaryCompletion`, `LuaProtocol`, `LuaCompletion`).
  Client and server interleave at every system call over bounded byte channels in which a call moves any number
  of bytes it can. An invariant equates the bytes in flight with what one end has sent and the other not taken; it
  gives safety, freedom from deadlock and a measure that every step raises.
* **Task life cycle of Ned** (`AppTask`, `TaskProtocol`, `TaskSafety`, `TaskResults`). Reference counting by the
  Lua thread, exit signals and observer requests by the server thread, over a heap of tasks in which a step through
  a pointer to a freed task would be recorded.
* **Object lists and library registry** (`ObjectList`, `ObjectListRuns`, `LibRegistry`). Pointer structures on the
  heap, refining sequences.
* **Initial capabilities** (`InitialCaps`). Two traversals of one Lua table that have to number slots alike.
* **Process stacks** (`ProcessStack`, `RemoteStack`). The downward builder, the upward scan, and the one-page cache
  that decides when memory is allocated.
* **Names in ned.lua** (`ClassNames`). Mangling with a reader for it, and argument splitting.
* **File system client and server** (`FileServer`, `VectoredIo`, `FileNames`, `FileHandles`). Vectored I/O through
  one shared buffer, path translation in reused buffers, and handle accounting. The one server class of the source
  appears once for each of these concerns, with the fields that matter to it.

Integers are little-endian, and `int` and the words of a process stack are 32 bits wide, as on x86; the path names
take the word size as a parameter, since the client's limit depends on it.

The received binary takes the whole way to the file: the descriptor of `Dom0Server` writes through the client of
`VectoredIo`, its stub and the shared buffer of `FileServer`.

## Findings

* `receiveData` and `sendData` read or write before they look at the size, so a request for zero bytes fails
  (tcp_socket.cc:18-26). A binary of size zero is created and gets its permission, and then both ends take the
  result for the end of the conversation: a stream of transfers is served completely if and only if none but the
  last is empty (`Wire.AllReadUnlessEmpty`). The joint machine presumes data that is not empty.
* A transfer does not truncate: a longer file keeps its tail (`Wire.StoreOverwritesPrefix`).
* The life cycle of tasks is sound as long as no exit signal overtakes `running()`, and only then: a run keeps clear
  of dangling pointers if and only if it is so ordered (`TaskResults.OrderedExactlyIfSound`).
  `TaskResults.EarlyExitRun` is a run of three steps that follows a pointer to a freed task, and there is no shorter
  one (`TaskResults.NoShorterRun`).
* The last reference of a kill frees the task if and only if its program has exited by then
  (`TaskResults.KillFreesExactlyZombies`). A task killed while running is never freed, whatever happens later
  (`TaskResults.KilledStays`), since only an exit signal gives back the reference of `running()`;
  `TaskResults.KillRun` is a run that gets there.
* Slots of initial capabilities agree exactly if both traversals take the same values for capabilities; a function
  that changes its answer moves a name onto somebody else's capability
  (`InitialCaps.NumberedAlike`, `InitialCaps.AFunctionThatChangesItsMind`).
* `mangle_class` output can be read back exactly if no component starts with a digit; otherwise different names
  collide (`ClassNames.MangledReadsBack`, `ClassNames.DigitsCollide`).
* The one-page cache is sound exactly if the first push does not land in page 0, because 0 is also the value that
  means that nothing was looked at (`RemoteStack.ShortcutIsSound`).
* `align(size)` rounds to the smallest power of two greater than `size`, so it aligns to twice a power of two
  (`ProcessStack.L4ReStack.Align`).
* The server copies names without a check. Every name that the client stubs let through fits its path buffer if and
  only if 58 words and the directory do: on x86, but not on amd64 (`FileNames.EveryNameIsDecided`).

## Model

| member | source | states |
|---|---|---|
| Bytes.Int32RoundTrip | dom0/dom0-main/server/src/tcp_socket.cc:30-33 | an int32_t sent as its four bytes is received as the same number |
| Bytes.CStringOfTerminated | dom0/dom0-main/server/src/dom0_server.cc:77 | a terminated string in a reused buffer reads as itself, whatever stale bytes follow |
| TcpSocket.ReceiveData | dom0/dom0-main/server/src/tcp_socket.cc:10-27 | success means exactly `size` bytes of the stream, in order, at the front of the buffer and the rest of it as it was; failure consumed fewer; on a live connection it succeeds whenever the bytes are there |
| TcpSocket.SendData | dom0/dom0-main/server/src/tcp_socket.cc:36-53 | success means that all bytes were appended to the stream, failure that a proper prefix was |
| TcpSocket.ReceiveInt32 | dom0/dom0-main/server/src/tcp_socket.cc:30-33 | the value of the next four bytes, or fewer than four consumed |
| TcpSocket.SendInt32 | dom0/dom0-main/server/src/tcp_socket.cc:56-59 | the four bytes of the value, or a proper prefix of them |
| Dom0Server.OpenFile.Write | dom0/libfs/lib/libc_backend/l4fs.cc:326-343 | a write of the receiver goes through the client file, its stub and the server: it is never rejected, makes progress, and rewrites exactly the accepted bytes of exactly this file |
| Dom0Server.WriteOut | dom0/dom0-main/server/src/dom0_server.cc:45-50 | however writes are cut short, each received byte is written once and in order |
| Dom0Server.ReceiveNetworkBinary | dom0/dom0-main/server/src/dom0_server.cc:22-54 | consumes exactly `size` bytes of the stream and leaves the file as one write of them would; no write exceeds the shared file-system buffer |
| Dom0Server.ReceiveString | dom0/dom0-main/server/src/dom0_server.cc:72-74 | the buffer reads as the string that was sent, and exactly its frame was consumed; failure on a live connection means that it was not complete |
| Dom0Server.LuaConnectionHandler | dom0/dom0-main/server/src/dom0_server.cc:56-90 | Ned hears a prefix of the complete commands in the stream, all of them if the connection lives; the replies are the answers to what it heard, with at most the last one missing or torn |
| Dom0Server.BinaryConnectionHandler | dom0/dom0-main/server/src/dom0_server.cc:92-128 | for a connection that ends or fails anywhere but inside of data: opens exactly the names that arrived, in order, leaves all files as if each transfer that arrived had been stored at once, and sends one permission per transfer; if a permission cannot be sent, the transfers before it are stored and its name is open |
| Dom0Server.ReceiveTransfer | dom0/dom0-main/server/src/dom0_server.cc:100-120 | one round stores one transfer, or opens a name whose size did not arrive or whose permission could not be sent, or finds no name; it goes on exactly if there was data |
| RemoteDom0Instance.RemoteDom0.ExecuteLuaString | dom0/dom0-main/server/src/remote_dom0_instance.cc:59-62 | whatever fails, a prefix of the frame of the C string was sent; a positive result is the reply, read after the whole frame went out |
| RemoteDom0Instance.RemoteDom0.ExecuteLuaBytes | dom0/dom0-main/server/src/remote_dom0_instance.cc:64-86 | the same for any size up to that of the memory, which need not be a C string; a size of zero never reports success |
| RemoteDom0Instance.RemoteDom0.SendElfBinaryFromMemory | dom0/dom0-main/server/src/remote_dom0_instance.cc:89-118 | no data before the permission arrived; success exactly if the whole image went out; an empty binary never reports success |
| Wire.CutLuaStream | dom0/dom0-main/server/src/dom0_server.cc:68-84 | cut the client's stream at any byte: the server finds exactly the commands that lie wholly before the cut, complete and in order |
| Wire.WholeBeforeIsLargest | dom0/dom0-main/server/src/dom0_server.cc:68-84 | and these are as many as fit before the cut |
| Wire.ImageParses | dom0/dom0-main/server/src/remote_dom0_instance.cc:97-114 | what the client sends for a transfer is read by the server as that transfer and no byte more |
| Wire.TransfersOfStream | dom0/dom0-main/server/src/dom0_server.cc:100-122 | the server reads a stream of transfers back as those transfers, up to and including the first empty one |
| Wire.AllReadUnlessEmpty | dom0/dom0-main/server/src/tcp_socket.cc:18-26 | all transfers of a client's stream are read by the server if and only if none but the last is empty |
| Wire.CutTransferStream | dom0/dom0-main/server/src/dom0_server.cc:100-122 | cut the client's stream anywhere but inside of data: the server finds exactly the transfers that lie wholly before the cut, in order, and at most one name more |
| Wire.StoreOverwritesPrefix | dom0/dom0-main/server/src/dom0_server.cc:107 | without truncation a transfer replaces the front of an existing file and keeps a longer tail |
| BinarySafety.StepKeepsInv | dom0/dom0-main/server/src/dom0_server.cc:92-128 | every step of either end keeps the invariant: nothing in flight is lost, added or reordered, and files and names are those of the finished transfers and the written part of the current one |
| BinarySafety.AtMostOneAhead | dom0/dom0-main/server/src/remote_dom0_instance.cc:109-114 | the wait for the permission keeps client and server within one transfer of each other |
| BinarySafety.ReadIsNextOfImage | dom0/dom0-main/server/src/tcp_socket.cc:18-26 | what a server read returns is the next part of the image it is inside of, never of the following one |
| BinaryCompletion.EveryReachableState | dom0/dom0-main/server/src/dom0_server.cc:92-128 | in every state of every interleaving and fragmentation the names opened are a prefix of those sent, finished transfers are stored, of the current one exactly the written part, and between transfers both channels are empty |
| BinaryCompletion.NoDeadlock | dom0/dom0-main/server/src/remote_dom0_instance.cc:97-114 | with channels of any capacity of at least one byte, every reachable unfinished state has an enabled step |
| BinaryCompletion.StepAdvances | dom0/dom0-main/server/src/dom0_server.cc:45-50 | every step adds its own amount to the work done, and none is undone |
| BinaryCompletion.RunsAreBounded | dom0/dom0-main/server/src/dom0_server.cc:100-119 | no run is longer than all the work there is |
| BinaryCompletion.EveryMaximalRunCompletes | dom0/dom0-main/server/src/remote_dom0_instance.cc:89-118 | a run that cannot go on has stored every transfer in order and left both channels empty |
| BinaryCompletion.MaximalRunMeetsHandler | dom0/dom0-main/server/src/dom0_server.cc:92-128 | such a run leaves files and names as the sequential handler promises for the client's stream: the interleaving does not matter |
| LuaCompletion.StepKeepsInv | dom0/dom0-main/server/src/dom0_server.cc:68-84 | every step keeps the invariant that equates the bytes in flight with what was sent and not yet taken |
| LuaCompletion.EveryReachableState | dom0/dom0-main/server/src/remote_dom0_instance.cc:64-86 | with either end failing at any moment, Ned has heard a prefix of the commands, and the n-th result of the client is the verdict on its n-th command |
| LuaCompletion.FailureIsFinal | dom0/dom0-main/server/src/tcp_socket.cc:21-22 | an end whose connection failed sends, receives, hears and answers nothing more in any continuation |
| LuaCompletion.ReplyIsVerdict | dom0/dom0-main/server/src/remote_dom0_instance.cc:82-85 | the reply being received answers the command being waited for |
| LuaCompletion.NoDeadlock | dom0/dom0-main/server/src/dom0_server.cc:72-83 | while both ends are connected, every reachable unfinished state has a step that is not a failure |
| LuaCompletion.EveryFailureFreeRunCompletes | dom0/dom0-main/server/src/remote_dom0_instance.cc:64-86 | without failures runs are bounded, and one that only a failure could continue has had every command heard and every verdict reported |
| LuaCompletion.HeardMeetsHandler | dom0/dom0-main/server/src/dom0_server.cc:68-84 | in every state Ned has heard a prefix of the commands that the sequential handler finds in the client's stream |
| AppTask.ControlBlock.ExitSignal | dom0/dom0-ned/server/src/app_task.cc:62-84 | state zombie, the code, unregistered, one reference less; to be freed if and only if that was the last; otherwise it is the noted thread that is woken, and it is no longer noted; the protocol's step uses the same outcome |
| AppTask.ControlBlock.SetRunning | dom0/dom0-ned/server/src/app_task.h:58-62 | the running program holds one reference |
| AppTask.ControlBlock.Observe | dom0/dom0-ned/server/src/lua_exec.cc:41-52 | a zombie is answered at once, otherwise the thread is noted for the exit signal |
| TaskSafety.StepKeepsInv | dom0/dom0-ned/server/src/lua_exec.cc:301-350 | every step of exec, wait, kill, queries, collection, exit signals and observer requests keeps the ownership invariant, unless it is an early exit |
| TaskResults.ReferenceCounts | dom0/dom0-ned/server/src/app_task.h:29-32 | in every reachable state a live task's count is its live pointers plus one while its program runs and never zero, and no step followed a pointer to a freed task |
| TaskResults.FreedExactly | dom0/dom0-ned/server/src/app_task.cc:71-75 | a task is freed by exactly the step that leaves it without an owner |
| TaskResults.ZombieForever | dom0/dom0-ned/server/src/app_task.cc:66-67 | a zombie stays one, with its exit code, as long as it lives |
| TaskResults.KillTakesItsWay | dom0/dom0-ned/server/src/lua_exec.cc:331-343 | a kill frees a zombie at once, and only for a running task does it begin to terminate |
| TaskResults.DroppingFreesExactlyZombies | dom0/dom0-ned/server/src/lua_exec.cc:317-348 | letting go of a userdata, in whatever call, frees the task if and only if its program has exited |
| TaskResults.KillFreesExactlyZombies | dom0/dom0-ned/server/src/lua_exec.cc:338-340 | the last step of a kill frees the task if and only if it is a zombie by then |
| TaskResults.KilledIsNeverFreed | dom0/dom0-ned/server/src/lua_exec.cc:338-340 | a task killed while running stays allocated, running and unregistered over any step |
| TaskResults.KilledStays | dom0/dom0-ned/server/src/lua_exec.cc:338-340 | and so over every ordered run |
| TaskResults.KillRun | dom0/dom0-ned/server/src/lua_exec.cc:321-343 | a run of seven steps that ends with a killed task to which nobody points |
| TaskResults.NoLostWakeup | dom0/dom0-ned/server/src/lua_exec.cc:301-319 | in every reachable state a waiter can be taken up, or the exit of its task, whatever the code, puts one message into the waiting thread's own box, or that message is there and the waiter gets that exit's code; no other thread ever has a message, and each is consumed by one completed wait |
| TaskResults.OrderIsExactlyWhatIsNeeded | dom0/dom0-ned/server/src/lua_exec.cc:408-413 | a step from a good state leads to a good state if and only if it is not an exit before `running()` |
| TaskResults.EarlyExitFrees | dom0/dom0-ned/server/src/app_task.cc:71-75 | an early exit frees the task under exec's pointer, and whatever exec does next follows it |
| TaskResults.EarlyExitRun | dom0/dom0-ned/server/src/lua_exec.cc:408-410 | a concrete run of that kind |
| TaskResults.NoShorterRun | dom0/dom0-ned/server/src/lua_exec.cc:408-410 | no legal run of two steps follows a pointer to a freed task |
| TaskResults.OrderedExactlyIfSound | dom0/dom0-ned/server/src/lua_exec.cc:392-413 | a run never leaves exec with a pointer to a freed task, nor follows one, if and only if every `running()` in it precedes the exit signal |
| ObjectList.List.Add | dom0/dom0-ned/server/src/server.cc:46-58 | the list stays well formed and has the object in front, unless it was on some list, in which case nothing changes |
| ObjectList.List.Remove | dom0/dom0-ned/server/src/server.cc:60-82 | the list stays well formed and loses exactly the named object, or the newest if none is named; an object not on it is left alone |
| ObjectList.List.Destroy | dom0/dom0-ned/server/src/server.cc:26-43 | walking the chain detaches exactly the objects that name the list and touches no other; the complaint about a foreign object is never reached |
| ObjectList.LinkedHolds | dom0/dom0-ned/server/src/server.cc:50-56 | linking in front makes a doubly linked, acyclic list of one object more |
| ObjectList.UnlinkedHolds | dom0/dom0-ned/server/src/server.cc:65-78 | unlinking leaves the doubly linked list of the others in their order |
| ObjectListRuns.CallKeeps | dom0/dom0-ned/server/src/server.cc:26-82 | with any number of lists over the same objects, the pointers after a call represent what the call means for the sequences |
| ObjectListRuns.EveryRunRepresents | dom0/dom0-ned/server/src/server.cc:26-82 | so they do after every run of constructions, additions, removals and destructions; an object names exactly the one list that holds it, and an object on no list has no links |
| ObjectListRuns.RemovingAStrangerChangesNothing | dom0/dom0-ned/server/src/server.cc:65 | removal leaves memory as it is if and only if the object is not on the list |
| ObjectListRuns.AddThenRemoveNewest | dom0/dom0-ned/server/src/server.cc:64-79 | asking for the newest after an addition returns that object and restores every pointer |
| ObjectListRuns.DestructDetaches | dom0/dom0-ned/server/src/server.cc:29-39 | destruction detaches exactly the objects of its list |
| LibRegistry.Registry.Construct | dom0/dom0-ned/server/src/lua.cc:121-129 | the linked list gets the library before the first one of no lower priority |
| LibRegistry.Registry.ConstructAll | dom0/dom0-ned/server/src/lua.cc:121-129 | after any number of constructions the linked list is the arranged list of those libraries |
| LibRegistry.Registry.RunInit | dom0/dom0-ned/server/src/lua.cc:131-136 | initialises each library of the list once, in list order |
| LibRegistry.RegisteredArranged | dom0/dom0-ned/server/src/lua.cc:121-129 | after any constructions the list is a permutation of the libraries, sorted by priority, newest first among equals |
| LibRegistry.ArrangedOnce | dom0/dom0-ned/server/src/lua.cc:121-129 | and there is only one such list |
| InitialCaps.PushInitialCaps | dom0/dom0-ned/server/src/lua_exec.cc:106-137 | records the names of the capabilities found before the end or the first offending item, in table order, with consecutive slots, and returns the first unused one or the error |
| InitialCaps.MapInitialCaps | dom0/dom0-ned/server/src/lua_exec.cc:139-171 | maps the capabilities found, in table order, to consecutive slots, up to the end, the first offending item or the first slot that the kernel refuses, and reports which it was |
| InitialCaps.EndIsCalled | dom0/dom0-ned/server/src/lua_exec.cc:122-126 | the calling loop ends in the value that a chain of answers ends in, and only there |
| InitialCaps.AnswerTakesItsPlace | dom0/dom0-ned/server/src/lua_exec.cc:156-160 | calling a function of the table on the spot changes nothing: its answer in that traversal is taken in its place |
| InitialCaps.OthersArePassedOver | dom0/dom0-ned/server/src/lua_exec.cc:128-134 | an item that is neither a capability nor other userdata might as well not be there |
| InitialCaps.FirstDecides | dom0/dom0-ned/server/src/lua_exec.cc:117-133 | a capability with an accepted name is taken as it is; a key that is no string, a name too long to record and other userdata stop the traversal with their own errors |
| InitialCaps.NumberedAlike | dom0/dom0-ned/server/src/lua_exec.cc:106-171 | the two traversals number the same names alike if and only if they take the same values for capabilities |
| InitialCaps.SlotsHoldWhatTheyAreNamedFor | dom0/dom0-ned/server/src/lua_exec.cc:106-171 | for a table whose values end in the same both times, only the kernel can stop the mapping once recording has succeeded, and the slot recorded for a name, and only that, receives the capability and rights that the table gives the name, as far as the mapping got |
| InitialCaps.EveryCapHasASlot | dom0/dom0-ned/server/src/lua_exec.cc:128-133 | every capability of the table is recorded once, in slots that ascend from the first and end before the index handed on |
| InitialCaps.AFunctionThatChangesItsMind | dom0/dom0-ned/server/src/lua_exec.cc:122-126 | a table for which the slot of one name receives another's capability |
| ProcessStack.L4ReStack.PushObject | dom0/dom0-l4re_kernel/server/src/loader.h:37-42 | the object is in front of what was on the stack, and memory below is untouched |
| ProcessStack.L4ReStack.Align | dom0/dom0-l4re_kernel/server/src/loader.h:51-60 | the pointer goes down to the next multiple of the smallest power of two above the size: 2, 4, 8 and 16 for sizes 1, 2 to 3, 4 to 7 and 8 to 15 |
| ProcessStack.PowersDouble | dom0/dom0-l4re_kernel/server/src/loader.h:55 | powers of two start at one and double |
| ProcessStack.L4ReStack.PushEnvp | dom0/dom0-l4re_kernel/server/src/loader.cc:197-203 | the environment is on the stack in the opposite order, with a null behind it |
| ProcessStack.L4ReStack.PushArgv | dom0/dom0-l4re_kernel/server/src/loader.cc:205-214 | the argument count, the arguments in order and a null are on the stack |
| ProcessStack.Scan | dom0/dom0-l4re_kernel/server/src/main.cc:143-175 | the scan finds where environment and start-up block begin, and the value of the last entry of key 0xf0, or null |
| ProcessStack.BuiltIsLaid | dom0/dom0-l4re_kernel/server/src/loader.cc:197-214 | what the two builders leave above a start-up block is, byte by byte, what the scan expects |
| ProcessStack.StartProgram | dom0/dom0-l4re_kernel/server/src/main.cc:143-175 | building and scanning recovers the count, the arguments in order, the environment reversed, the block where it was and its last 0xf0 value |
| RemoteStack.StackBase.CheckAccess | dom0/dom0-ned/server/src/remote_mem.h:29-39 | allocates exactly the pages on which the bytes of the access lie, unless its first page is the remembered one, and remembers that page |
| RemoteStack.FitTogether | dom0/dom0-ned/server/src/remote_mem.h:29-39 | pushes fit one by one if and only if they fit together |
| RemoteStack.ShortcutIsSound | dom0/dom0-ned/server/src/remote_mem.h:25-39 | for every run of pushes from the top of a fresh stack, the cache allocates just the pages that allocating at every push would, if and only if the first push does not land in page 0 |
| RemoteStack.UsedPartIsAllocated | dom0/dom0-ned/server/src/remote_mem.h:25-39 | above page 0, the allocated pages are exactly those that the used part of the stack touches |
| ClassNames.NextMatch | dom0/dom0-ned/server/src/ned.lua:89 | the next maximal run without separators: only separators before it, none in it, one behind it unless the text ends |
| ClassNames.SeparatorSkips | dom0/dom0-ned/server/src/ned.lua:248 | a separator in front changes nothing |
| ClassNames.TokensOfWord | dom0/dom0-ned/server/src/ned.lua:248 | a word in front of a separator, or alone, is the first match |
| ClassNames.MangleClass | dom0/dom0-ned/server/src/ned.lua:87-93 | the nested name of the components between colons and white space, character by character as written out, each behind its decimal length without leading zeros |
| ClassNames.MangledReadsBack | dom0/dom0-ned/server/src/ned.lua:87-93 | a reader of decimal lengths recovers the components if and only if none of them starts with a digit |
| ClassNames.PartsReadBack | dom0/dom0-ned/server/src/ned.lua:89-91 | the same for every list of components that are not empty |
| ClassNames.MangledApart | dom0/dom0-ned/server/src/ned.lua:87-93 | without leading digits, names are mangled alike if and only if they have the same components |
| ClassNames.DigitsCollide | dom0/dom0-ned/server/src/ned.lua:87-93 | two class names of different components, with leading digits, that are mangled alike |
| ClassNames.SplitArgs | dom0/dom0-ned/server/src/ned.lua:245-254 | the words between blanks, tabs, line feeds, vertical tabs, form feeds and carriage returns in order, and behind them the environment if there is one |
| ClassNames.SplitJoinSplit | dom0/dom0-ned/server/src/ned.lua:245-254 | the words joined by single spaces split into the same words, none of them empty or with white space |
| ClassNames.JoinedSplits | dom0/dom0-ned/server/src/ned.lua:248 | any words joined by single spaces split into just those |
| ClassNames.TokensKeepTheText | dom0/dom0-ned/server/src/ned.lua:248 | splitting loses nothing but separators |
| FileServer.Server.Pread | dom0/fs_srv/server/src/main.cc:135-139 | as many bytes as asked for, or as there are up to the end of the file, each the file's byte at its place |
| FileServer.Server.Pwrite | dom0/fs_srv/server/src/main.cc:141-145 | the accepted front part of the shared buffer stands at the offset, and no other file changes |
| FileServer.CallPread | dom0/libfs/lib/src/l4fs.cc:101-111 | rejects what exceeds the buffer, otherwise answers with the server's count |
| FileServer.CallPwrite | dom0/libfs/lib/src/l4fs.cc:113-123 | rejects what exceeds the buffer, otherwise the server's count of bytes is written |
| VectoredIo.L4fsFile.Preadv | dom0/libfs/lib/libc_backend/l4fs.cc:307-324 | returns the smaller of the total length and what the file holds from the offset to its end; byte i of the memory is the file's byte at p + i, and the rest is as it was; every piece is asked for, until one fails or is too large; an error leaves the pieces from the failing one on untouched |
| VectoredIo.L4fsFile.Pwritev | dom0/libfs/lib/libc_backend/l4fs.cc:326-343 | goes on as long as the server accepts all of a piece, so that a result short of the total length means a short last answer; whatever the answers, a result n means one write of the first n bytes of all pieces, and an error exactly the pieces before the failing one; no other file changes |
| VectoredIo.FullSum | dom0/libfs/lib/libc_backend/l4fs.cc:330-341 | if all of each piece was accepted, all of them together was |
| Bytes.ReadAtIs | dom0/fs_srv/server/src/main.cc:135-139 | what a read can return is the file's own bytes up to its end and no further |
| VectoredIo.WriteThenRead | dom0/libfs/lib/libc_backend/l4fs.cc:307-343 | reading back into pieces of the same total length, cut in any way, returns what was accepted, and all that was written if no answer was short |
| VectoredIo.ReadBack | dom0/libfs/lib/libc_backend/l4fs.cc:307-343 | what was written comes first when reading from where it was written |
| FileNames.Server.GetActualPath | dom0/fs_srv/server/src/main.cc:209-213 | the path buffer reads as the directory and the current name, whatever longer names came before |
| FileNames.Server.ReadName | dom0/libfs/lib/server/svr.cc:8-18 | the static buffer reads as the name sent, if that fits, and is terminated in any case |
| FileNames.Server.Rename | dom0/fs_srv/server/src/main.cc:72-84 | the file system is asked to rename the one prefixed name to the other, whatever else is in the shared buffer |
| FileNames.CallOn | dom0/libfs/lib/src/l4fs.cc:22-37 | for any word size, a name of fewer than 58 words asks for one call, to open, mkdir, rmdir or unlink as requested, of /tmp/ and the name; a longer one is rejected and nothing is asked |
| FileNames.CallRename | dom0/libfs/lib/libc_backend/l4fs.cc:293-300 | for any word size, one call renames /tmp/ and the first name to /tmp/ and the second, or nothing is asked |
| FileNames.Requests | dom0/fs_srv/server/src/main.cc:57-96 | for any word size, any sequence of requests reaches the file system in parts, part i being the call that request i, written out, means |
| FileNames.EveryNameIsDecided | dom0/fs_srv/server/src/main.cc:209-213 | every name the client lets through fits the path buffer if and only if 58 words and the directory do, which holds on x86 and not on amd64 |
| FileHandles.L4fsFileBase.Close | dom0/libfs/lib/libc_backend/l4fs.cc:184-190 | closes the handle at most once, with the server's answer; a second close is answered EBADF without the server |
| FileHandles.L4fsFileBase.Destroy | dom0/libfs/lib/libc_backend/l4fs.cc:48 | destruction closes a handle that is still held |
| FileHandles.GetEntry | dom0/libfs/lib/libc_backend/l4fs.cc:247-269 | a file exactly if the server opened the name, holding that handle, as the step of the account has it; otherwise a negative error |
| FileHandles.StepKeepsInv | dom0/libfs/lib/libc_backend/l4fs.cc:184-190 | each opening, close or destruction keeps the account of handles, although numbers are used again |
| FileHandles.EveryRunBalances | dom0/libfs/lib/libc_backend/l4fs.cc:247-269 | after every run the open handles are exactly those that files hold; no opening is closed twice, and each exactly once when its file is closed or destroyed |

## Left out

- Dom0Server.ReceiveNetworkBinary: requires that the connection delivers the data and that the file system makes progress, because the source stores signed results in unsigned counters and does not recover.
- Dom0Server.BinaryConnectionHandler: a failing read is the same to it as the end of the stream, so streams end anywhere but inside of data instead.
- A failing `open` in the binary handler, and that it never closes the files it opened.
- Dom0Server.ReceiveString: lengths that are negative or larger than `BUF_LEN`, and strings without a NUL: the server does not check them, and what happens then is not defined by the language.
- Dom0Server.LuaConnectionHandler: the same.
- RemoteDom0Instance.RemoteDom0.ExecuteLuaBytes: a negative size, or one beyond the memory given.
- `disconnect`, which shuts the binary socket twice and the Lua socket not at all; `main`, option parsing, network setup, sleeps and log output.
- The widths of `size_t` and `ssize_t` beyond the int32_t values on the wire.
- BinaryProtocol: has no failure steps, because a failure inside a transfer is not recovered from; and data is not empty, for the reason given above.
- TaskSafety.StepKeepsInv: presumes that no exit signal arrives before `running()`; the exact condition is TaskResults.OrderIsExactlyWhatIsNeeded.
- Updates of the reference count are single steps, although the code does not synchronise them; list operations run under their locks and are single steps.
- Allocation failures, Lua errors other than those of the two capability traversals, and Lua number keys, which `luaL_checkstring` converts in place while the table is being traversed.
- InitialCaps: the step between slots is a parameter because L4_CAP_OFFSET is defined outside this repository.
- ProcessStack: the libloader steps around `push_envp` and `push_argv`, and the strings the pointers refer to.
- RemoteStack: the library that moves the stack pointer is not part of this repository; pushes are contiguous, go down, and are checked at their new stack pointer.
- ClassNames.MangleClass: compares with no other mangling scheme; characters are classified as in the C locale.
- VectoredIo.L4fsFile.Pwritev: requires pieces within the shared buffer, because the source copies a piece before the stub checks its length.
- VectoredIo.L4fsFile.Preadv: requires pieces that do not overlap in memory; offsets and totals do not overflow.
- FileNames.Server.GetActualPath: requires a name that fits the path buffer, because the source copies it unchecked; FileNames.EveryNameIsDecided says when all names do.
- FileNames.Server.Rename: the same for both names; and a shared buffer without a terminator, which no client of this repository produces.
- Dom0Server.OpenFile.Write: the position kept by the C library's file class, and the memory a pointer into the middle of a buffer stands for, are written out here; the class is not part of this repository.
- FileHandles.EveryRunBalances: one client per server; a failing `new` in `get_entry` would leave the handle open.
- Two clients in the one shared buffer at a time; `mount`, `link`, `symlink`, `readlink`, `getdents`, `dataspace` and everything the server answers with ENOSYS.
- `Registry::unregister_obj` beyond the removal from the reap list, which is `ObjectList.List.Remove`; the object registry, reference pointers and the kernel's IPC.
- The mirroring of reserved areas in the region map, the page arithmetic of attaching data spaces, and the length check of Ned's own IPC.
