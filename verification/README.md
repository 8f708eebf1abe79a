# MTPRetag: verified core

A Dafny 4.11 model of the parts of MTPRetag that carry real logic, with proofs about all inputs and all
runs. `dafny verify dfyconfig.toml` checks everything.

| files | what they model |
|---|---|
| `ShutdownMonitor.dfy` | the idle-shutdown monitor of the out-of-process server and the threads that lock and unlock it |
| `CopyEngine.dfy`, `CopyConservation.dfy`, `CopyBatch.dfy`, `CopyTermination.dfy`, `CopyProgress.dfy`, `CopyWindow.dfy` | the copy worker, the transfer queue, `terminate` and the progress bar |
| `FileSystem.dfy`, `LazyTree.dfy`, `FileTree.dfy` | the lazily populated file tree |
| `CopyList.dfy` | the recursive collector of files to copy |
| `SplitString.dfy`, `DeviceStore.dfy`, `MtpPaths.dfy`, `MtpDevice.dfy` | path handling and the storage tree of an MTP device |
| `MscCopy.dfy` | the chunked copy to a mounted device |
| `DescriptorWalker.dfy`, `HubTraversal.dfy` | the USB descriptor walk and the traversal of hubs |
| `Preorder.dfy`, `Sequences.dfy`, `Wrappers.dfy` | shared helpers |

Two threads or more are modelled as a state machine: a `State`, one function per atomic step, `Feasible`
schedules and `Execute`. A class beside it has the source's fields and changes them step by step; its
methods are proved to perform exactly the steps of the machine. Sequential code is a class or a method with
the source's loops, proved against a function of the inputs, and the results are lemmas about that function.

## What turned out not to hold

Each point names the lemma with the exact condition and, where it is not the same, the lemma or method with a
concrete input.

- `terminate` does not always return. An empty queue makes `remove()` throw, so that progress 100 and the
  notification are skipped. Once in its wait loop it returns exactly if the worker will still meet the
  cancellation test (`TerminateReturnsExactlyWhen`); a run that hangs is `LastFileRunReachesHang`. A
  device list with a device in it but a null entry last ends `terminate` by an exception before the loop
  (`NullDeviceEndsTerminate`).
- The progress bar can stay one step short for ever, because all events of a batch share two arrays that the
  worker goes on writing: exactly if an event is delivered between the two writes (`BatchProgress`,
  `MissedExactlyBetweenWrites`, `BarCanStick`).
- In the build without class-object suspension a client can lock a module that is about to quit
  (`SafeExactlyWhenFreeThreaded`, `LateClientIsServedByDyingModule`). Even with the suspension the event can be
  closed before a thread that is inside `Unlock` signals it (`ClosedEventSignalledExactlyWhen`,
  `SecondClientSignalsClosedEvent`).
- `transfer_file` returns success without a file unless the destination has a name after its last slash and
  the folders in front of it stop existing at a folder, not at a file (`TransferSucceedsExactlyWhen`,
  `TransferNothing`). For an empty destination it indexes an empty vector.
- `read_file` returns success without data unless there is a file at the path (`ReadSucceedsExactlyWhen`,
  `ReadNothing`).
- `create_folder_mtp` on a used path hides the new folder behind the old storage (`CreateExistDelete`,
  `TwinIsHidden`).
- `msc_copy` returns 0 for an incomplete copy if its last, partial write is short
  (`ZeroMeansCopiedExactlyWhen`, whose proof builds the input), and reports positions that jump below zero
  from two gigabytes on (`PositionsIncreaseExactlyWhen`).
- An unreadable directory ends the collector of files by an exception, and the files after it are not
  collected (`CollectKeepsListSound`, `UnreadableDirectoryEndsWalk`). The list remembers no refusal
  (`RefusalIsForgotten`).

## Assumptions

- Client threads unlock only what they have locked; suspended class objects admit no first client; memory is
  sequentially consistent. Waiting with a timeout returns the signal if there is one.
- A future that is cancelled before it starts never runs; progress events are delivered one at a time, in
  order, by the event thread, which does nothing else inside `terminate`.
- One batch at a time: a batch starts only when the previous worker has finished.
- `wait` may wake up without a notification, and any send may throw. The bound on steps in
  `TerminateReturnsExactlyWhen` counts the spurious wake-ups.
- The file system does not change during a run; no directory entry is itself named ".".
- A device appends a new storage at the end of its folder and does not compare names, except that an
  insertion in overwrite mode replaces the content of the first file of that name, if there is one. It refuses empty names, names
  with a slash and insertion into a file. It deletes only empty storages, because the code does not ask for
  recursive deletion, and never the root. Any request may fail, and a failed request does nothing. Names
  are folded for ASCII letters only; no proof depends on more than that folding is applied character by
  character.
- Indexing an empty vector ends `transfer_file`; what a C++ implementation really does there is undefined.
- The target of `msc_copy` can be opened, since the code tests the wrong handle there and would go on with a
  null one.
- The size `msc_copy` reports for a file of two gigabytes or more is the -1 of a failed `ftell`.
- A device sends no more than the 256 bytes of a configuration descriptor it is asked for, and gives the
  same language each time.

## Model

| member | source | states |
|---|---|---|
| ShutdownMonitor.NoLostSignal | c-source/jusbpmp_native_source/AppAtlModule.cpp:23-58 | in every interleaving of any number of locking and unlocking threads with the monitor, an unlock that reached zero is still visible to the monitor: event signalled, signal still owed, or monitor past its infinite wait |
| ShutdownMonitor.ShutdownCompletes | c-source/jusbpmp_native_source/AppAtlModule.cpp:35-58 | from every reachable state with the count back at zero, if no client returns, every interleaving ends within an explicit bound and can only end with the quit message posted |
| ShutdownMonitor.SafeExactlyWhenFreeThreaded | c-source/jusbpmp_native_source/AppAtlModule.cpp:47-54 | once the monitor has left its loop the count is zero and stays zero, in all runs, if and only if the build suspends class objects and tests again |
| ShutdownMonitor.LeavesExactlyWhenIdle | c-source/jusbpmp_native_source/AppAtlModule.cpp:35-55 | in every run of either build, the monitor is past its loop if and only if, since it last cleared the activity flag, its wait timed out and every test found the flag clear and the count zero |
| ShutdownMonitor.LeavesUnlocked | c-source/jusbpmp_native_source/AppAtlModule.cpp:47-55 | in every run of either build, the step that leaves the loop finds the count zero |
| ShutdownMonitor.ClosesThenPosts | c-source/jusbpmp_native_source/AppAtlModule.cpp:56-57 | in every run the monitor has exited if and only if it has closed the event once and then posted the quit message once |
| ShutdownMonitor.CountIsLocksHeld | c-source/jusbpmp_native_source/AppAtlModule.cpp:23-33 | the count is the number of locks not given back |
| ShutdownMonitor.LateClientIsServedByDyingModule | c-source/jusbpmp_native_source/AppAtlModule.cpp:47-57 | the concrete run of the other build in which a client locks a module that is about to quit |
| ShutdownMonitor.ClosedEventSignalledExactlyWhen | c-source/jusbpmp_native_source/AppAtlModule.cpp:28-56 | from every reachable state in which the monitor is about to close the event, some `Unlock` can still signal it afterwards, unless the build suspends class objects and no thread is inside `Unlock` |
| ShutdownMonitor.SecondClientSignalsClosedEvent | c-source/jusbpmp_native_source/AppAtlModule.cpp:28-56 | the concrete run of the free-threaded build in which a second client is about to signal the closed event |
| ShutdownMonitor.InvStep | c-source/jusbpmp_native_source/AppAtlModule.cpp:23-58 | every atomic step of every thread keeps the inductive invariant behind these results, and nothing leads back into the loop |
| ShutdownMonitor.AppAtlModule.UnlockDecrement | c-source/jusbpmp_native_source/AppAtlModule.cpp:25-31 | the decrement, and that just the thread which reaches zero goes on to raise the flag |
| ShutdownMonitor.AppAtlModule.UnlockFinish | c-source/jusbpmp_native_source/AppAtlModule.cpp:28-29 | raising the flag and signalling the event, as two steps that keep the invariant |
| ShutdownMonitor.AppAtlModule.MonitorShutdown | c-source/jusbpmp_native_source/AppAtlModule.cpp:35-58 | each step of the monitor, with flag and count read separately, keeps the invariant |
| CopyConservation.FifoConservation | src/mtpretag/MtpRetag.java:716-805 | in every run: files taken in order, then the file in flight, then the queue are exactly the files ever queued; a batch drops at most the last file it takes; `transferredOk` counts the sends that returned zero |
| CopyConservation.RecordsAreTrue | src/mtpretag/MtpRetag.java:716-805 | in every run the files ever queued are those of the batches asked for, and the sends logged are exactly the sends that returned, in order, with what they returned |
| CopyBatch.WorkerEnds | src/mtpretag/MtpRetag.java:766-809 | in every run a finished worker has emptied the queue with every file of its batch sent, or has dropped the last file it took, or was cancelled before it began; files stay queued only in the last two cases |
| CopyBatch.BatchIsCopied | src/mtpretag/MtpRetag.java:694-818 | a batch on a connected device with no exit, no disconnecting and no throwing send: the worker's steps are bounded, and once it stands still the queue is empty and exactly the queued and listed files have been sent, in order; if every send returned zero, all are counted as transferred |
| CopyTermination.TerminateIsSafe | src/mtpretag/MtpRetag.java:448-476 | in every run, once `terminate` is past its wait loop the worker is beyond its last send and `sendFile` is never called again, and a waiting `terminate` with progress 100 is about to be notified |
| CopyTermination.SkipsLoopExactlyWhenDone | src/mtpretag/MtpRetag.java:454-462 | in every run `terminate` exits without waiting if and only if there is no worker or it is done; otherwise it cancels and then waits; the wait loop is never entered without a worker |
| CopyTermination.IdleExit | src/mtpretag/MtpRetag.java:448-476 | from every reachable state with no worker at work, three steps of `terminate` disconnect and exit |
| CopyTermination.TerminateReturnsExactlyWhen | src/mtpretag/MtpRetag.java:454-467 | from every reachable state at the wait loop, for every future, spurious wake-ups and throwing sends included: the threads take a bounded number of steps; `terminate` never returns unless the worker will still meet the cancellation test; and if it will, and no exception ends a send already running, `terminate` has returned once both stand still |
| CopyTermination.HangsOnLastFile | src/mtpretag/MtpRetag.java:778-805 | cancelling while the last file is being sent leaves `terminate` in its wait loop in every future, because the empty queue ends the worker by an exception that skips the notification |
| CopyTermination.LastFileRunReachesHang | src/mtpretag/MtpRetag.java:448-476 | the run, for any one file, that reaches such a state: request, send, exit |
| CopyTermination.NullDeviceEndsTerminate | src/mtpretag/MtpRetag.java:448-452 | after connecting to any device list, asking to exit ends in an exception if and only if some entry is a device and the last is not |
| CopyTermination.ConnectedMeansDevice | src/mtpretag/MtpRetag.java:622-688 | in every run in which no device list ends in a null entry behind a device, the window is connected if and only if it has a device, and no exception ends `terminate` on the way to its test for a worker |
| CopyProgress.MissedExactlyBetweenWrites | src/mtpretag/MtpRetag.java:84-92 | an event misses the bar exactly if it is delivered between the two writes to the shared arrays |
| CopyProgress.BatchProgress | src/mtpretag/MtpRetag.java:645-662 | for a batch of any size started clean, in every run: the bar shows the events delivered and not missed, 1 to n in turn; "Finished" comes exactly with the last of n + 1 events none of which was missed, and reports n minus `transferredOk`; at the end the bar is back at zero if and only if no event was missed, and otherwise stands at n + 1 minus the missed ones |
| CopyProgress.BarCountsDeliveries | src/mtpretag/MtpRetag.java:84-92 | in every run, whatever earlier batches left behind, the bar is the number of deliveries since the last request that found the arrays different, modulo its maximum plus one; the maximum is the size of the batch plus what the bar showed before; "Finished" has appeared if and only if it has passed its maximum |
| CopyProgress.EventsConserved | src/mtpretag/MtpRetag.java:772-797 | in every run each event fired is delivered once or still to be delivered, also after its batch is over |
| CopyProgress.StaleArraysDiffer | src/mtpretag/MtpRetag.java:772-797 | the arrays of a batch that is over differ for good, so that its late events always move the bar |
| CopyProgress.BarCanStick | src/mtpretag/MtpRetag.java:790-797 | the run, for any one file, in which the file is sent, all events are delivered and the bar never finishes |
| CopyWindow.MtpRetag.DoInBackground | src/mtpretag/MtpRetag.java:766-809 | every step of the worker keeps conservation, progress and termination invariants |
| CopyWindow.MtpRetag.Terminate | src/mtpretag/MtpRetag.java:448-477 | every step of `terminate` keeps them |
| CopyWindow.MtpRetag.StepProgressBar | src/mtpretag/MtpRetag.java:645-662 | below its maximum the bar advances by exactly one; failures are reported, and the bar returns to zero, only from the maximum |
| CopyWindow.MtpRetag.PropertyChange | src/mtpretag/MtpRetag.java:84-99 | the delivery of one event, reading the arrays as they are then, keeps the invariants |
| CopyWindow.MtpRetag.ResetProgressBar | src/mtpretag/MtpRetag.java:706-716 | the maximum of the bar counts what an earlier bar shows |
| CopyWindow.MtpRetag.AddFilesToTransferQueue | src/mtpretag/MtpRetag.java:717-760 | the queue grows by exactly the listed files, in order |
| CopyWindow.MtpRetag.MenuItemCopyFilesAction | src/mtpretag/MtpRetag.java:694-818 | starting a batch keeps the invariants |
| CopyWindow.MtpRetag.UsbConnect | src/mtpretag/MtpRetag.java:667-688 | the loop over the device list: any entry that is not null makes the window connected, the last entry becomes the device, and the invariants are kept |
| CopyWindow.MtpRetag.UsbDisconnect | src/mtpretag/MtpRetag.java:622-626 | disconnecting keeps them and takes the device away |
| LazyTree.PopulateIsLeastExpansion | src/mtpretag/MtpRetag.java:498-535 | populating to a level gives the least image of the file system that contains the tree and is expanded to that level; this determines the result |
| LazyTree.PopulateImage | src/mtpretag/MtpRetag.java:498-535 | from any pruned image of a file tree the result is one again, contains it and is expanded to the level asked for |
| LazyTree.PopulateExpandsExactly | src/mtpretag/MtpRetag.java:498-535 | a node of the result is expanded if and only if it was before, or is less than the given levels below and has something to show |
| LazyTree.PopulateTwice | src/mtpretag/MtpRetag.java:529-534 | populating to k and then to m is populating to the larger of the two |
| LazyTree.VisibleNodesArePopulated | src/mtpretag/MtpRetag.java:415-423 | over every run of opening and closing nodes after `createNodes`, a visible node looks like a leaf if and only if it is a file, an unlistable directory, a placeholder or a root without roots |
| LazyTree.BelowIsEmptyExactlyWhen | src/mtpretag/MtpRetag.java:500-526 | a node has nothing below it exactly in those cases, and a placeholder below it exactly if it is a listable directory with nothing to show |
| LazyTree.OtherBranchesStay | src/mtpretag/MtpRetag.java:415-423 | opening a node leaves every branch off the way to it as it was |
| FileTree.TreeNode.PopulateSubtree | src/mtpretag/MtpRetag.java:498-535 | the recursive update of the mutable nodes represents exactly the least expansion, and touches nothing else |
| FileTree.TreeNode.PopulateDirectory | src/mtpretag/MtpRetag.java:505-526 | a leaf directory gets its directories and mp3-suffixed entries in order, or the placeholder |
| FileTree.TreeNode.PopulateKids | src/mtpretag/MtpRetag.java:529-534 | each kid of an expanded node is populated one level less, in place |
| FileTree.TreeNode.AddPopulated | src/mtpretag/MtpRetag.java:517-519 | a new node is appended and populated; its siblings are unchanged |
| FileTree.TreeNode.TreeWillExpand | src/mtpretag/MtpRetag.java:415-423 | opening a node populates two levels below it and changes no other part of the tree |
| LazyTree.ShownEntries | src/mtpretag/MtpRetag.java:514-521 | wherever an entry stands in the listing, it gets a node exactly if it is a directory or ends in mp3, in its place |
| FileTree.CreateNodes | src/mtpretag/MtpRetag.java:199-207 | the initial tree is the root expanded two levels |
| CopyList.CopyModel.AddNodeToList | src/mtpretag/MtpRetag.java:557-612 | the recursive collector with its early stop leaves the list, and returns the outcome, of one pass over the walk's files |
| CopyList.CopyModel.AddFile | src/mtpretag/MtpRetag.java:562-591 | one file: suffix test, search for a duplicate, question at 1000, append |
| CopyList.CollectTwo | src/mtpretag/MtpRetag.java:596-604 | collecting two walks one after the other is collecting their concatenation, early stop included |
| CopyList.CollectKeepsListSound | src/mtpretag/MtpRetag.java:557-612 | the list stays duplicate-free with its old entries as a prefix; the rest is the walk's new files, all of them unless refused; a refusal happens exactly on crossing 1000 and leaves the first 1001 entries; otherwise the collector ends by an exception if and only if some directory at or below the path cannot be listed |
| CopyList.CompleteExactlyWhen | src/mtpretag/MtpRetag.java:592-604 | the walk gets to its end if and only if every directory at or below the path can be listed |
| CopyList.WalkMeetsExactlyMp3s | src/mtpretag/MtpRetag.java:592-604 | on every tree the walk meets exactly the mp3 files with no unreadable directory before them, each once and in preorder; so all mp3 files below the path if every directory can be listed |
| CopyList.WalkPaths | src/mtpretag/MtpRetag.java:592-604 | the same as a set of paths: a path is met if and only if it is that of an mp3 file the walk gets to |
| CopyList.PathSpellsNames | src/mtpretag/MtpRetag.java:594-604 | the path of a file is the selected path followed by the names of all directories on the way and its own, each behind a backslash |
| CopyList.PathOfLast | src/mtpretag/MtpRetag.java:596-600 | it is the path of the directory that holds the file, a backslash, and the file's name |
| CopyList.WaysHaveOwnPaths | src/mtpretag/MtpRetag.java:594-604 | where sibling names differ and hold no backslash, different files have different paths |
| CopyList.NoneTakenForAnother | src/mtpretag/MtpRetag.java:566-604 | so a walk into an empty list collects every mp3 file it gets to; none is dropped as a duplicate of another |
| CopyList.FirstNewInOrder | src/mtpretag/MtpRetag.java:566-591 | what is appended to a list are, in the order of the walk, the paths at exactly those places where a path is met that is neither listed nor met before |
| CopyList.UnreadableDirectoryEndsWalk | src/mtpretag/MtpRetag.java:592-604 | a concrete directory of which only the file before an unreadable subdirectory is collected |
| CopyList.RefusalIsForgotten | src/mtpretag/MtpRetag.java:544-547 | corollary: after a refusal the next selected path is added in full without a question |
| SplitString.SplitStringInto | c-source/jusbpmp_native_source/helperlib.cpp:182-220 | the loop pushes exactly the tokens onto the given vector and returns their number |
| SplitString.SplitIsInverseOfJoin | c-source/jusbpmp_native_source/helperlib.cpp:207-219 | with empties kept and one delimiter character, the tokens are the only non-empty list of delimiter-free strings that joins back to the input less one leading slash |
| SplitString.ExactExactlyForOneCharacter | c-source/jusbpmp_native_source/helperlib.cpp:207-215 | joining back works for all inputs if and only if the delimiter has one character, since only one is skipped |
| SplitString.DroppingEmpties | c-source/jusbpmp_native_source/helperlib.cpp:207-217 | for every delimiter: with empties dropped, the non-empty tokens and the last one remain |
| SplitString.ParsersAgree | c-source/jusbpmp_native_source/usbdevice.cpp:125-129 | for every non-empty path the text after the last slash is the last component, and no earlier component is empty |
| SplitString.ChildComponents | c-source/jusbpmp_native_source/usbdevice.cpp:691-697 | the components of parent + "/" + child are the non-empty ones of the parent and the child |
| DeviceStore.OnlyMissingSuffixCreated | c-source/jusbpmp_native_source/usbdevice.cpp:177-191 | the creating walk succeeds unless a file is in the way; it then adds exactly one chain of folders named by the missing suffix, below the last existing folder, and changes no other storage; if it fails it creates nothing |
| DeviceStore.MakePathResolves | c-source/jusbpmp_native_source/usbdevice.cpp:177-191 | the names lead to the storage the walk ended in |
| DeviceStore.MakePathKeepsDistinct | c-source/jusbpmp_native_source/usbdevice.cpp:451-474 | the creating walk keeps siblings distinct ignoring case |
| DeviceStore.WalkExtends | c-source/jusbpmp_native_source/usbdevice.cpp:378-391 | whatever could be found is found again, unchanged, after storages have been added |
| DeviceStore.InsertThenDelete | c-source/jusbpmp_native_source/usbdevice.cpp:628-645 | deleting a storage just inserted restores all storages |
| DeviceStore.FoldingIgnoresCase | c-source/jusbpmp_native_source/usbdevice.cpp:455-462 | two names are the same once folded if and only if they agree letter by letter up to case |
| DeviceStore.DeleteUnlinksExactly | c-source/jusbpmp_native_source/usbdevice.cpp:628-645 | where siblings are distinct, after a deletion the names that led to the storage lead nowhere and all others lead where they did |
| MtpPaths.RootPaths | c-source/jusbpmp_native_source/usbdevice.cpp:340-362 | "/" and "//" are the root, a folder; the empty path leads nowhere |
| MtpPaths.TrailingSlashLeadsNowhere | c-source/jusbpmp_native_source/usbdevice.cpp:365-391 | every other path that ends in a slash leads nowhere |
| MtpPaths.JoinedNamesLead | c-source/jusbpmp_native_source/usbdevice.cpp:365-391 | names joined by slashes, with or without one in front, lead where the names lead one by one |
| MtpPaths.FindOrCreate | c-source/jusbpmp_native_source/usbdevice.cpp:340-413 | after a creating walk, `get_storage_bypath` on the joined names gives the same storage, walking again creates nothing, and every other path resolves as before |
| MtpPaths.ChildPath | c-source/jusbpmp_native_source/usbdevice.cpp:684-706 | for every parent that resolves, including "/" and "//", parent + "/" + child resolves to the parent's first kid of that name |
| MtpPaths.CreateSucceedsExactlyWhen | c-source/jusbpmp_native_source/usbdevice.cpp:684-723 | a folder is created if and only if the path is an existing folder's path, a slash, and a non-empty name |
| MtpPaths.DeleteSucceedsExactlyWhen | c-source/jusbpmp_native_source/usbdevice.cpp:628-645 | a storage is deleted if and only if the path leads to a file or an empty folder and is not the root |
| MtpPaths.DeleteThenLook | c-source/jusbpmp_native_source/usbdevice.cpp:628-682 | where siblings are distinct, what was deleted is gone from its path, and every path to another storage still leads there |
| MtpPaths.CreateExistDelete | c-source/jusbpmp_native_source/usbdevice.cpp:628-723 | a created folder exists under its path, and deleting that path restores the device, if and only if the path was unused before |
| MtpPaths.CreateKeepsDistinctExactlyWhen | c-source/jusbpmp_native_source/usbdevice.cpp:706-715 | creating keeps siblings distinct if and only if the path was unused |
| MtpPaths.TwinIsHidden | c-source/jusbpmp_native_source/usbdevice.cpp:684-723 | creating "a/b" a second time: the path still leads to the old folder, and deleting it deletes the old one |
| MtpPaths.TransferThenRead | c-source/jusbpmp_native_source/usbdevice.cpp:665-682 | a transferred file is the one `exist_file_mtp` and `read_file` find under the same path, with its content, if and only if no folder had that path; no other storage changes its name or content |
| MtpPaths.TransferAgain | c-source/jusbpmp_native_source/usbdevice.cpp:239-248 | a second transfer to the same path overwrites the same storage and creates nothing, whatever had that path |
| MtpPaths.TransferSucceedsExactlyWhen | c-source/jusbpmp_native_source/usbdevice.cpp:125-129 | for every device and destination, a transfer inserts a file if and only if there is a name after the last slash and the deepest existing storage on the way to it is a folder |
| MtpPaths.ReadSucceedsExactlyWhen | c-source/jusbpmp_native_source/usbdevice.cpp:1086-1160 | reading gives data if and only if `exist_file_mtp` holds of the path, and then that file's content |
| MtpDevice.UsbDevice.FindSubstorage | c-source/jusbpmp_native_source/usbdevice.cpp:432-474 | the enumeration, including the request that finds its end, returns the first kid of the name ignoring case or none; it fails if and only if the device left one of its requests unanswered |
| MtpDevice.UsbDevice.GetSubstorage | c-source/jusbpmp_native_source/usbdevice.cpp:415-546 | found storages change nothing; a missing one is created if and only if asked for and the device answers and accepts it; failures change nothing and have their own code; a null parent is reported as success |
| MtpDevice.UsbDevice.WalkFolders | c-source/jusbpmp_native_source/usbdevice.cpp:177-191 | if the device answers every request the walk finds or makes exactly the named path; otherwise it gives up and leaves the effect of a prefix of the names |
| MtpDevice.UsbDevice.GetStorageByPath | c-source/jusbpmp_native_source/usbdevice.cpp:340-413 | success exactly with a storage, which is the one the path leads to, if and only if every request is answered; an empty path is a wrong parameter, any other failure 1 |
| MtpDevice.UsbDevice.CreateFolderMtp | c-source/jusbpmp_native_source/usbdevice.cpp:684-723 | true if and only if every request is answered and the path is an existing folder's path, a slash, and a non-empty name; then the folder was created as specified, and otherwise nothing changed |
| MtpDevice.UsbDevice.DeleteMtpItem | c-source/jusbpmp_native_source/usbdevice.cpp:628-645 | true if and only if every request is answered and the path leads to a file or an empty folder and is not the root; then it was deleted as specified, and otherwise nothing changed |
| MtpDevice.UsbDevice.ExistFolderMtp | c-source/jusbpmp_native_source/usbdevice.cpp:647-663 | true if and only if every request is answered and the path leads to a folder |
| MtpDevice.UsbDevice.ExistFileMtp | c-source/jusbpmp_native_source/usbdevice.cpp:665-682 | likewise for files |
| MtpDevice.UsbDevice.InsertFile | c-source/jusbpmp_native_source/usbdevice.cpp:201-273 | the end of a transfer: its code tells only whether the folder's two interfaces were given; a file is inserted if and only if every request is answered and the device accepts it, which the code does not show |
| MtpDevice.UsbDevice.TransferFile | c-source/jusbpmp_native_source/usbdevice.cpp:86-299 | a file is inserted if and only if every request is answered and the destination is usable, a condition on the device before the call; then it is the transfer as specified, and otherwise the only change is the folders the walk made; the code is 0 whenever every request is answered, and another code means that the walk was completed; an empty destination indexes an empty vector |
| MtpDevice.UsbDevice.ReadFile | c-source/jusbpmp_native_source/usbdevice.cpp:1030-1181 | data arrives if and only if every request is answered and there is a file at the path, and is that file's; the code is 0 whenever every request is answered, and for a path that leads nowhere |
| MtpDevice.TransferNothing | c-source/jusbpmp_native_source/usbdevice.cpp:177-262 | two concrete calls that return 0 and change nothing: a destination without a name, and one that goes through a file |
| MtpDevice.ReadNothing | c-source/jusbpmp_native_source/usbdevice.cpp:1107-1160 | two concrete calls that return 0 without data: for a folder, and for a path that leads nowhere |
| DescriptorWalker.NextStart | c-source/jusbpmp_native_source/displayusb.c:198-258 | on any buffer the walk advances at least one byte per record and never looks past index 510 |
| DescriptorWalker.Port.DisplayDescriptor | c-source/jusbpmp_native_source/displayusb.c:199-257 | one turn of the switch, with its moving cursor, prints the record at the cursor and leaves the cursor before the next; the dump backs up by two |
| DescriptorWalker.Port.DisplayConfigurationDescriptor | c-source/jusbpmp_native_source/displayusb.c:178-262 | the loop prints the whole walk, stops at a zero length, and asks for exactly the strings named by the records |
| DescriptorWalker.Port.DisplayStringDescriptor | c-source/jusbpmp_native_source/displayusb.c:115-147 | a string request, preceded by a language request if no language is known |
| DescriptorWalker.LanguageAskedOnce | c-source/jusbpmp_native_source/displayusb.c:121-132 | a device with a language is asked for it once, before its first string, and all strings are asked in it |
| DescriptorWalker.OneLanguageRequestExactlyWhen | c-source/jusbpmp_native_source/displayusb.c:121-132 | one language request is sent if and only if there are strings and the device answers it or there is just one; otherwise it is sent again before every string |
| DescriptorWalker.StringsAskedFor | c-source/jusbpmp_native_source/displayusb.c:149-262 | the strings asked for are exactly the non-zero names of the printed configurations and interfaces, in their order |
| DescriptorWalker.EachStringAskedOnce | c-source/jusbpmp_native_source/displayusb.c:115-147 | whatever the language, each of them is asked for once, in order |
| DescriptorWalker.WalkRecoversDescriptors | c-source/jusbpmp_native_source/displayusb.c:196-260 | whatever list of standard descriptors a device holds, those that fit whole into 256 bytes are recovered in order, and nothing else if all fit |
| DescriptorWalker.WalkPrintsBack | c-source/jusbpmp_native_source/displayusb.c:196-260 | conversely, if all records printed are standard, the bytes walked over are exactly their bytes |
| DescriptorWalker.CursorFollowsLength | c-source/jusbpmp_native_source/displayusb.c:249-258 | corollary: the cursor moves by bLength if and only if the type is unknown or the length is the standard one |
| MscCopy.Copy | c-source/jusbpmp_native_source/usbdevice.cpp:1183-1248 | the copy loop returns the code and target of the specified loop, and calls the notifier once with the size, then with its positions in order, then once with the end |
| MscCopy.CopyOutcome | c-source/jusbpmp_native_source/usbdevice.cpp:1212-1247 | for every source, abort schedule and target: the target is a prefix of the source, the result is 0 or 4, 0 means complete unless the last write was short, and 4 without errors means an abort on a multiple of 1024 |
| MscCopy.PositionsIncreaseExactlyWhen | c-source/jusbpmp_native_source/usbdevice.cpp:1221-1230 | reported positions strictly increase for every source below two gigabytes, and for a complete copy exactly then, since they are cast to a 32-bit long |
| MscCopy.LastPositionIsAnnouncedSize | c-source/jusbpmp_native_source/usbdevice.cpp:1199-1230 | the size announced is the number of bytes if and only if the file is below two gigabytes, and is then the last position reported by a complete copy |
| MscCopy.ZeroMeansCopiedExactlyWhen | c-source/jusbpmp_native_source/usbdevice.cpp:1222-1238 | result 0 guarantees a complete copy if and only if the target can cut no last, partial chunk short, since the write error's own code is dropped |
| MscCopy.CopyCompletes | c-source/jusbpmp_native_source/usbdevice.cpp:1212-1247 | result 0 with a complete copy if and only if the source can be read and no chunk up to the last is aborted before or refused by the target |
| HubTraversal.System.GetPortData | c-source/jusbpmp_native_source/displayusb.c:264-330 | the recursive loop produces the specified events and handles |
| HubTraversal.EveryPortOnceInPreorder | c-source/jusbpmp_native_source/displayusb.c:279-329 | the printed lines belong to exactly the ports of the tree, each once, hubs before what is below them, each with its depth and index |
| HubTraversal.HandlesNest | c-source/jusbpmp_native_source/displayusb.c:317-326 | whatever handles the system gives, each one given is closed once and no other, always the one opened last among those still open |

## Left out

- Album, artist and title strings, metadata, the destination `/Music/` prefix and the dialog texts.
- CopyWindow.MtpRetag.MenuItemCopyFilesAction: does not model a batch started while an earlier worker is still running, because `worker`, the future and the progress are those of one batch; a second worker on the same queue makes the progress total meaningless.
- `navigateTreeToPath`: it populates along one path with the same `populateSubtree` calls; its index past the end for an unknown directory is not modelled.
- `parse_folder_mtp`, `get_metadata`, `update_metadata`: one enumeration or one request after `get_storage_bypath`.
- `GetAttributes` and `GetName` of a storage always give its kind and full name; the 260-character name buffer is not modelled.
- `DisplayDeviceDescriptor`, the class-name table and the printed layout: fixed fields with no branching beyond the string requests already modelled.
- Failing requests in the hub traversal, and connection states beyond the six with a name.
- `msc_copy` leaves both files open when it returns 4; file handles there are not modelled.
- COM reference counts, JNI marshalling, the device manager, Swing layout, logging, the process lock socket and `Sleep`.
- `StartMonitor`: it stores the monitor's thread number in a local variable that hides the field `MonitorShutdown` posts to.
