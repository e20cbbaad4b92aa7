# A verified model of Chromium's `base` algorithms

This project models the parts of the `base` library whose correctness depends on state, on interleaving
or on string reasoning, and proves what those parts are for. Everything is Dafny 4.11; from this
directory `dafny verify dfyconfig.toml` checks the whole project.

Each component keeps the form of its source. Code that updates things in place is a class or a method
with loops, proved to compute a specification function; what the source promises is then proved about
that function, or about every run of a transition system, for all inputs.

| file | component |
|---|---|
| `FileDescriptorShuffle.dfy`, `FileDescriptorShuffleProof.dfy` | one simultaneous assignment of descriptors by dup, dup2 and close |
| `FileDescriptorShuffleExact.dfy`, `FileDescriptorShuffleSafe.dfy` | the same with any number of temporaries, and the calls that are safe whatever the kernel answers |
| `FileDescriptorShuffleLeak.dfy` | which temporaries are left open |
| `AtomicOps.dfy`, `AtomicCounters.dfy` | the ARM retry loops, and sequence numbers and reference counts on top of them |
| `LazyInstance.dfy`, `LazyInstanceProgress.dfy` | the lock-free 0, creating, pointer word over a weak memory; the exit callback and progress |
| `Md5Spec.dfy`, `Md5Transform.dfy`, `Md5.dfy` | MD5: RFC 1321 as a function, the unrolled transform, the streaming context |
| `CommandLineQuoting.dfy` | quoting for CommandLineToArgvW and its inverse |
| `CommandLine.dfy`, `CommandLineProof.dfy`, `CommandLineParse.dfy`, `CommandLineText.dfy` | the argument vector, the divider and the switch map; parsing, also in terms of text alone |
| `FilePath.dfy`, `FilePathProof.dfy`, `FilePathExtension.dfy` | POSIX paths: DirName, BaseName, Append, components, extensions |
| `FileTree.dfy`, `FileTreeProof.dfy`, `FileTreeOrder.dfy` | FileEnumerator over a finite file tree: what it returns, and in which order |
| `FileUtil.dfy`, `CreateDirectory.dfy` | Delete and CreateDirectory on a disk |
| `IDMap.dfy`, `IDMapProof.dfy` | a table with nested iterators and deferred removal |
| `LinkedList.dfy` | an intrusive circular list on the heap |

Where the code does not do what its documentation says, the model follows the code, a lemma gives an
input that shows it, and another lemma says exactly when the promise holds:

- base/file_descriptor_shuffle.h:10-23 offers the shuffle as an assignment of all dests at once. It is
  not always one (`TemporaryMayBeALaterDest`, `IdentityMayBeClobbered`). Whatever the kernel answers it
  is one if and only if no remembered temporary is taken while a later dest is free and no identity arc
  is clobbered by a later sharer (`SafeExactly`).
- base/file_path.h:217-225 says that RemoveExtension and Extension always rebuild the path. They do not
  (`ExtensionDoesNotAlwaysRebuild`); they do exactly when the path has no extension or no trailing
  separator to strip (`ExtensionRebuilds`).
- GetComponents invents the alternate root for "///a" and loses a leading "." (`WalkIsNotAlwaysSplit`);
  `ComponentsAreSplit` gives the exact condition under which it is the plain split of the path.
- Parsing an argument vector twice is not always parsing it once: "--=" becomes "--" and "-a =" loses
  its space (`NotAlwaysIdempotent`); `ParseIsIdempotent` says exactly when it is.
- A switch name with '=' in it makes the vector and the map disagree for good
  (`EqualsInNameDisagrees`); `SwitchesAgree` says that nothing else does.
- CopySwitchesFrom files a name that starts with '-' without its prefix (`CopyLosesPrefix`);
  `CopyIsFaithful` says when exactly the asked-for switches arrive.
- base/file_util.h:475-478 calls the enumeration breadth-first. A stack is used, and a deeper entry can
  come before one that is less deep (`NotAlwaysBreadthFirst`); `BreadthFirstExactly` says for which trees
  and listing orders it cannot. The promise that file_util.h spells out, that what is in a directory comes
  before what is in its subdirectories, holds for every tree and every choice of files and directories
  (`EnumerationIsComplete`).

## Model

| member | source | states |
|---|---|---|
| `FileDescriptorShuffle.DescriptorTable.DuplicateFd` | base/file_descriptor_shuffle.cc:82-85 | on success the answer was not an open descriptor and now holds the file of fd, and every other entry is as before; on failure the table is unchanged |
| `FileDescriptorShuffle.DescriptorTable.MoveFd` | base/file_descriptor_shuffle.cc:87-89 | on success the dest holds the file of the source, whatever it held before, and every other entry is as before; on failure the table is unchanged |
| `FileDescriptorShuffle.DescriptorTable.CloseFd` | base/file_descriptor_shuffle.cc:91-94 | the descriptor is free afterwards and every other entry is as before; closing one that was not open is recorded |
| `FileDescriptorShuffle.RedirectInPlace` | base/file_descriptor_shuffle.cc:36-50 | rewriting a later arc to a temporary, in place, with the recorded temporaries and the table, is the specification step |
| `FileDescriptorShuffle.PassCloseInPlace` | base/file_descriptor_shuffle.cc:52-58 | the close flag is dropped at a later dest and handed on to a later sharer |
| `FileDescriptorShuffle.PrepareInPlace` | base/file_descriptor_shuffle.cc:35-59 | the whole inner loop, including its early failure, on the array of arcs and the fixed buffer of temporaries |
| `FileDescriptorShuffle.PerformInjectiveMultimapDestructive` | base/file_descriptor_shuffle.cc:16-74 | the nested loops over the array leave the result and the table of the specification run |
| `FileDescriptorShuffleSafe.PerformInjectiveMultimap` | base/file_descriptor_shuffle.cc:76-80 | on a copy of the arcs; for every safe call, dests that are closed before included, success means the assignment is done and nothing was closed while not open |
| `FileDescriptorShuffleProof.TableEntry` | base/file_descriptor_shuffle.cc:61-67 | closed form of the table after any number of arcs: overwritten with the source's first file, closed, or untouched |
| `FileDescriptorShuffleProof.InnerStep` | base/file_descriptor_shuffle.cc:35-59 | one turn of the inner loop keeps the invariant over redirected sources, close flags and temporaries |
| `FileDescriptorShuffleProof.CarryOutTable` | base/file_descriptor_shuffle.cc:61-67 | move and close lead to the next table and keep every temporary open with its file |
| `FileDescriptorShuffleProof.OuterLoop` | base/file_descriptor_shuffle.cc:24-68 | the invariant holds after all arcs, for every list of arcs including cycles and shared sources |
| `FileDescriptorShuffleProof.FinalTable` | base/file_descriptor_shuffle.cc:24-74 | the exact final table, no temporary left open among the remembered ones, and no close of a descriptor that is not open |
| `FileDescriptorShuffleProof.AssignsUnlessClobbered` | base/file_descriptor_shuffle.cc:24-74 | when no temporary is a dest, a successful run is the assignment if and only if no identity arc is clobbered; with at most 16 temporaries it is one if and only if both hold |
| `FileDescriptorShuffleExact.ArcIsDone` | base/file_descriptor_shuffle.cc:35-67 | what one turn of the outer loop does to the table, the later arcs and the temporaries, even when a temporary has the number of a dest |
| `FileDescriptorShuffleExact.TrackRun` | base/file_descriptor_shuffle.cc:24-68 | over the whole run, for any answers: arcs still to come read their first file, dests that were dealt with hold theirs, temporaries stay open |
| `FileDescriptorShuffleExact.RecordedDestIsLost` | base/file_descriptor_shuffle.cc:70-71 | a remembered temporary that is a dest is closed at the end, so the assignment fails |
| `FileDescriptorShuffleExact.ShuffleAssigns` | base/file_descriptor_shuffle.cc:24-74 | for any answers and any number of temporaries: without a clobbered identity arc, success is the assignment if and only if no remembered temporary is a dest; with one it is not, unless a forgotten temporary is a dest |
| `FileDescriptorShuffleProof.ShuffleFrame` | base/file_descriptor_shuffle.cc:35-71 | a descriptor that is no dest ends closed exactly when some arc from it asked for close, and keeps its file otherwise |
| `FileDescriptorShuffleSafe.SafeCallAssigns` | base/file_descriptor_shuffle.cc:24-74 | a safe call that succeeds is the assignment and closes nothing that is not open, whatever the kernel answers |
| `FileDescriptorShuffleSafe.ExposedIsLost` | base/file_descriptor_shuffle.cc:36-47 | when a remembered temporary is taken while a later dest is free, there are answers with which the call succeeds and a dest is lost |
| `FileDescriptorShuffleSafe.ClobberedIsLost` | base/file_descriptor_shuffle.cc:55-58 | with a clobbered identity arc there are answers with which the call succeeds and the assignment is not done |
| `FileDescriptorShuffleSafe.SafeExactly` | base/file_descriptor_shuffle.cc:24-74 | a condition on the arcs and the open descriptors alone under which the call is the assignment for all answers, and without which it is not for some |
| `FileDescriptorShuffleLeak.WhatIsLeft` | base/file_descriptor_shuffle.cc:18-74 | when no temporary is a dest, a successful call takes one temporary for each redirecting arc; apart from the dests it leaves open what was open and nobody asked to close, and all temporaries after the sixteenth |
| `FileDescriptorShuffleLeak.CleanExactly` | base/file_descriptor_shuffle.cc:18-74 | no successful call leaves a descriptor open that was neither open nor a dest, whatever the kernel answers, if and only if at most sixteen arcs redirect |
| `FileDescriptorShuffleLeak.FailedCallHolds` | base/file_descriptor_shuffle.cc:38-63 | a call that fails returns at once: every temporary it has taken is still open and nothing was closed wrongly |
| `FileDescriptorShuffleProof.TemporaryMayBeALaterDest` | base/file_descriptor_shuffle.cc:70-71 | two arcs and a dup answer for which closing the temporaries destroys a dest |
| `FileDescriptorShuffleProof.IdentityMayBeClobbered` | base/file_descriptor_shuffle.cc:55-58 | two arcs for which an identity arc hands its close flag on and loses its dest |
| `AtomicOps.StepKeeps` | base/atomicops_internals_arm_gcc.h:32-75 | every step of every thread keeps: the log is a legal sequential history, explains the word, and holds each call's effect once inside its interval |
| `AtomicOps.RunKeeps` | base/atomicops_internals_arm_gcc.h:32-75 | the same in every reachable state of any number of threads |
| `AtomicOps.Linearizable` | base/atomicops_internals_arm_gcc.h:32-75 | each completed call takes effect exactly once between its start and its return, with its own result, and the word is what the effects make it |
| `AtomicOps.FailedCompareAndSwap` | base/atomicops_internals_arm_gcc.h:32-44 | a failed swap returns a value different from old_value that the word held during the call, and writes nothing |
| `AtomicOps.CallByValues` | base/atomicops_internals_arm_gcc.h:32-75 | at one instant of every completed call: a swap stores its new value if the word was its old one, an exchange always, both return the word before; an increment adds modulo 2^32 and returns the sum |
| `AtomicOps.CallFinishesAlone` | base/atomicops_internals_arm_gcc.h:32-75 | from every reachable state a call under way is at most three steps of its own thread from that effect on the word as it is, and then returns |
| `AtomicSequenceNumber.EachNumberOnce` | base/atomic_sequence_num.h:14-27 | with no call pending, n completed calls have returned each of 0..n-1 exactly once |
| `AtomicSequenceNumber.CallsMatch` | base/atomic_sequence_num.h:19-22 | effects and completed calls match one to one |
| `AtomicRefCount.StepKeepsCount` | base/atomic_ref_count.h:22-40 | every step keeps the word equal to the references held and under way, without wrapping |
| `AtomicRefCount.CountIsOutstanding` | base/atomic_ref_count.h:22-40 | in every run the count is the number of outstanding references, and it is zero only after a last decrement |
| `AtomicRefCount.OneLastRelease` | base/atomic_ref_count.h:28-52 | once all references are given up exactly one decrement has returned false, and its effect is the last one |
| `AtomicRefCount.IsOneMeansExclusive` | base/atomic_ref_count.h:54-60 | a holder that sees one has the only reference, held or under way |
| `LazyInstance.StepKeeps` | base/lazy_instance.cc:18-56 | every step keeps the protocol invariant, and the word, the creators and the registrations only grow |
| `LazyInstance.RunKeeps` | base/lazy_instance.h:144-178 | the invariant holds in every reachable state |
| `LazyInstance.WordOnlyMovesForward` | base/lazy_instance.cc:18-56 | the word goes through 0, creating, instance and never back, with at most one creator and one registration |
| `LazyInstance.StepKeepsVisible` | base/lazy_instance.cc:24-51 | only an acquire load of a release store transfers visibility, and that suffices for every thread past the loop |
| `LazyInstance.ReturnedPointer` | base/lazy_instance.h:144-204 | a returned pointer is the instance, New ran exactly once, and the whole constructed buffer is visible although the swap and the final load have no barrier |
| `LazyInstance.BarriersAreNeeded` | base/lazy_instance.h:162-177 | for any buffer that is not empty, with or without an exit callback: with any one of the three barriers missing there is a run in which a thread returns without seeing any of the buffer |
| `LazyInstance.BarriersExactly` | base/lazy_instance.h:144-204 | in every run every returned thread sees the whole buffer, if and only if all three barriers are there or the buffer is empty |
| `LazyInstanceProgress.RegisteredExactly` | base/lazy_instance.cc:43-56 | in every reachable state the registrations made and under way are one if the instance is published and the traits ask for the callback, and none otherwise |
| `LazyInstanceProgress.RegisteredAtReturn` | base/lazy_instance.cc:43-56 | when the creator has returned, the callback has been registered exactly once if the traits ask for it, and never otherwise |
| `LazyInstanceProgress.EveryCallCanReturn` | base/lazy_instance.h:144-204 | from every reachable state the run can go on until a given call returns the instance |
| `Md5Transform.CoreFunctionsAgree` | base/md5.cc:49-55 | the optimised F1 to F4 equal F, G, H, I of section 3.4 of RFC 1321 on all words |
| `Md5Transform.StepsAgree` | base/md5.cc:57-59 | the step macro is the RFC operation, with its additions in another order |
| `Md5Transform.OperationsAgree` | base/md5.cc:57-146 | any number of operations agree with the RFC's |
| `Md5Transform.UnrolledRounds` | base/md5.cc:74-140 | the 64 written-out steps with their constants and register rotation are the 64 operations of the four rounds |
| `Md5Transform.Transform` | base/md5.cc:66-146 | the registers become their sum with the four rounds over the 16 words |
| `Md5.GatherIsLittle` | base/md5.cc:42-43 | shifts and ors of four bytes read them as a little-endian word |
| `Md5.ByteReverse` | base/md5.cc:39-47 | on either byte order the first longs of the buffer hold the little-endian words of the bytes, and the rest is untouched |
| `Md5.CountAdds` | base/md5.cc:178-181 | the low word with its carry and the high word together count eight times the length |
| `Md5.CountGivesRemainder` | base/md5.cc:183-183 | the buffered bytes are recovered from the bit count |
| `Md5.Context.constructor` | base/md5.cc:156-164 | a new context stands for the empty message |
| `Md5.Context.CountBits` | base/md5.cc:176-181 | the two count words hold 8 times the length modulo 2^64 |
| `Md5.Context.TransformInput` | base/md5.cc:196-197 | turning the buffer's bytes and transforming is the compression of that block |
| `Md5.Context.AbsorbBlocks` | base/md5.cc:204-215 | the loop over 64-byte chunks leaves the chain over all complete blocks and the remainder in the buffer |
| `Md5.Context.AbsorbData` | base/md5.cc:183-215 | the same when a part of a block was buffered before |
| `Md5.Context.Update` | base/md5.cc:170-216 | the context stands for the message followed by the data |
| `Md5.Context.Finish` | base/md5.cc:227-255 | in-place padding and the last one or two transforms give the chain over the padded message |
| `Md5.LongPadding` | base/md5.cc:239-246 | the two last blocks of the padded message when the length does not fit |
| `Md5.ShortPadding` | base/md5.cc:247-250 | the last block of the padded message when it fits |
| `Md5.Context.TransformLast` | base/md5.cc:251-257 | 14 longs turned and two count words stored give the compression of the block with the length |
| `Md5.Context.Emit` | base/md5.cc:258-259 | the digest is the little-endian bytes of the registers |
| `Md5.Context.Final` | base/md5.cc:222-261 | the digest of section 3 of RFC 1321 of the whole message, and a cleared context |
| `Md5.SumOfPieces` | base/md5.cc:278-284 | for every splitting of a message into updates the result is the digest of the concatenation |
| `CommandLineQuoting.QuoteForCommandLineToArgvW` | base/command_line.cc:98-138 | the loops over backslash runs build the quoted text |
| `CommandLineQuoting.EscapeRunAt` | base/command_line.cc:109-127 | a run of backslashes is doubled exactly before a double quote or the end |
| `CommandLineQuoting.ReadEscaped` | base/command_line.cc:106-135 | reading escaped text under the published backslash and quote rules gives the text back |
| `CommandLineQuoting.GoodListSurvives` | base/command_line.cc:98-138 | a list of acceptable arguments survives quoting, joining and splitting |
| `CommandLineQuoting.RoundTrip` | base/command_line.cc:98-138 | it survives if and only if every argument is non-empty, free of NUL, and free of tabs or quoted |
| `CommandLineQuoting.QuotesByText` | base/command_line.cc:101-104 | an argument is left alone if and only if it has no space, backslash or double quote |
| `CommandLineModel.TrimCuts` | base/string_util.cc:213-243 | trimming cuts only white space, only at the ends |
| `CommandLineModel.PiecesAreBetweenSpaces` | base/string_split.cc:19-35 | the untrimmed pieces have no space in them and give the text back when spaces are put between them |
| `CommandLineModel.SplitString` | base/string_split.cc:14-36 | the loop gives the trimmed pieces between spaces, empty ones included |
| `CommandLineModel.CommandLine.constructor` | base/command_line.cc:148-152 | a new line has the trimmed program alone |
| `CommandLineModel.CommandLine.FromArgv` | base/command_line.cc:160-164 | a new line is the parse of the vector |
| `CommandLineModel.CommandLine.SetProgram` | base/command_line.cc:259-261 | the first item becomes the trimmed program and nothing else changes |
| `CommandLineModel.CommandLine.AppendArgNative` | base/command_line.cc:363-365 | an argument goes to the end and nothing else changes |
| `CommandLineModel.CommandLine.AppendSwitchNative` | base/command_line.cc:302-319 | the switch is inserted at the divider, the map and the divider follow |
| `CommandLineModel.CommandLine.AppendSwitchesAndArguments` | base/command_line.cc:64-84 | the parsing loop is the specification fold over the items after the first |
| `CommandLineModel.CommandLine.InitFromArgv` | base/command_line.cc:216-221 | a parse that keeps the old map; on a fresh object it is the parse of the vector |
| `CommandLineModel.CommandLine.CopySwitchesFrom` | base/command_line.cc:330-337 | the listed switches that the source has are appended in order; the source may be the line itself |
| `CommandLineModel.CommandLine.AppendArguments` | base/command_line.cc:367-372 | the other line's items are parsed onto this one, its program taken if asked; a line may be appended to itself when it has only a program |
| `CommandLineModel.SelfAppendNeverEnds` | base/command_line.cc:64-84 | a line with anything else appended to itself: the loop follows the vector it makes longer, so its test holds after every number of turns |
| `CommandLineModel.CommandLine.PrependWrapper` | base/command_line.cc:374-384 | the wrapper's words come first and the divider moves with them |
| `CommandLineModel.CommandLine.GetArgs` | base/command_line.cc:339-348 | what follows the divider, without the first "--" |
| `CommandLineProof.EntryReads` | base/command_line.cc:48-61 | an entry written for a name without '=' is read back as that name and value |
| `CommandLineProof.ScanLooksUp` | base/command_line.cc:286-291 | a left-to-right scan files every key under its rightmost entry |
| `CommandLineProof.ApplyKeeps` | base/command_line.cc:302-384 | what each operation does to the segment, to its agreement with the map and to names with '=' |
| `CommandLineProof.SwitchesAgree` | base/command_line.cc:302-384 | after any operations on a newly built line the divider is in range and the segment holds only switches; all lookups agree with the rightmost entry if and only if no appended name contains '=' |
| `CommandLineProof.EqualsInNameDisagrees` | base/command_line.cc:302-319 | appending the name "a=b" makes the map and the vector disagree |
| `CommandLineProof.CopyIsFaithful` | base/command_line.cc:330-337 | copying onto any line adds exactly the asked-for switches of the source when none of those that exist starts with '-', and only then if the line has none of the names that do |
| `CommandLineProof.CopyLosesPrefix` | base/command_line.cc:330-337 | a switch given as "---x" is filed as "-x", and copying that name files it as "x" |
| `CommandLineParse.PartitionOnto` | base/command_line.cc:64-84 | parsing onto any line puts the switches at the divider and the rest at the end, each in its own order |
| `CommandLineParse.ParsePartitions` | base/command_line.cc:64-84 | a parsed vector is the program, the switches before "--", the other items, then "--" and all after it; the map is the scan of the switches |
| `CommandLineParse.AppendArgumentsPartitions` | base/command_line.cc:367-372 | merging another line partitions its items in the same way, with and without its program |
| `CommandLineParse.NothingDropped` | base/command_line.cc:64-84 | the three parts hold every trimmed item exactly once |
| `CommandLineParse.ParseKeepsEveryItem` | base/command_line.cc:48-84 | the vector holds the items unchanged if and only if no parsed switch ends in its first '=' |
| `CommandLineParse.ArgsOfParse` | base/command_line.cc:339-348 | GetArgs of a parsed line drops exactly the terminator |
| `CommandLineParse.ParseIsIdempotent` | base/command_line.cc:216-221 | parsing the parsed vector again gives the same line if and only if no valueless switch becomes "--" or ends in white space |
| `CommandLineParse.NotAlwaysIdempotent` | base/command_line.cc:48-84 | two vectors on which it does not |
| `CommandLineText.PrefixByText` | base/command_line.cc:32-45 | the prefix is "--", else "-", else nothing; an item is a switch exactly when it starts with "-" |
| `CommandLineText.SwitchByText` | base/command_line.cc:48-61 | a switch is filed under its text after the dashes up to "=", with the text after that as its value |
| `CommandLineText.ParseByText` | base/command_line.cc:64-84 | of the trimmed items before the first "--" those that start with "-" are the switches, in order, and a name is filed with the value of the last item that has it; all others and everything from "--" on are arguments, and GetArgs leaves out that "--" alone |
| `CommandLineText.AppendSwitchByText` | base/command_line.cc:302-319 | the text at the divider reads as the name without dashes and the value, which is what the map holds |
| `CommandLineText.WrapperByText` | base/command_line.cc:374-384 | the wrapper's trimmed words, in order, stand in front of the whole old vector |
| `CommandLineText.ProgramByText` | base/command_line.cc:259-261 | the program is the text without white space at its ends, in the first place, and nothing else changes |
| `CommandLineText.CopyOwnByText` | base/command_line.cc:330-337 | copying from the same object leaves the map alone when no copied name starts with a dash |
| `FilePathModel.FilePath.StripTrailingSeparatorsInternal` | base/file_path.cc:1191-1211 | the resizing loop strips trailing separators, but leaves one separator and exactly "//" |
| `FilePathModel.FilePath.GetDirName` | base/file_path.cc:295-329 | the edits of a local copy compute the directory function |
| `FilePathModel.FilePath.GetBaseName` | base/file_path.cc:331-352 | likewise for the base name |
| `FilePathModel.FilePath.GetComponents` | base/file_path.cc:208-241 | the backward walk, reversed, is the component function |
| `FilePathModel.FilePath.AppendComponent` | base/file_path.cc:445-477 | the edits compute Append |
| `FilePathModel.FilePath.AppendRelativePath` | base/file_path.cc:247-289 | true exactly for a proper non-empty prefix of the child's components, and then the target gets the rest |
| `FilePathModel.DirNameDescends` | base/file_path.cc:295-329 | every step up that changes the path lowers a rank, so walking up ends |
| `FilePathProof.LastName` | base/file_path.cc:295-352 | BaseName and DirName of any path that ends in a name, with any separators before and behind it |
| `FilePathProof.ComponentsAre` | base/file_path.cc:208-241 | the closed form of the walk for every path |
| `FilePathProof.ComponentsAreSplit` | base/file_path.cc:208-241 | the walk is the root and the non-empty segments if and only if the path does not start with three separators before a name and loses no leading "." |
| `FilePathProof.WalkIsNotAlwaysSplit` | base/file_path.cc:208-241 | the two families on which they differ |
| `FilePathProof.AppendIsUndone` | base/file_path.cc:445-477 | BaseName and DirName undo Append on every path; exactly one component is added unless "." is appended to the current directory or the path is a "." with separators behind it |
| `FilePathProof.RelativePathIsRest` | base/file_path.cc:283-287 | any target gets exactly the child's further components, unless these start with "." on the current directory or the target is a "." with separators behind it |
| `FilePathProof.ParentRebuildsChild` | base/file_path.cc:247-289 | on the parent itself the result has the child's components, unless the parent is a "." with separators behind it |
| `FilePathProof.AppendAllIsUnique` | base/file_path.cc:445-477 | different lists of names give different paths, on every root; on the current directory for names other than "." |
| `FilePathProof.AppendJoins` | base/file_path.cc:445-477 | appending a relative path of any number of names gives the segments of both and keeps the start of the first |
| `FilePathProof.AppendedIsChild` | base/file_path.cc:243-289 | a path with a component is a parent of what names appended to it give, if and only if there are any |
| `FilePathProof.ExtensionInPath` | base/file_path.cc:121-160 | an extension stands at the same place in the name and in every path that ends in it, whatever dots the directories have |
| `FilePathProof.ExtensionRebuilds` | base/file_path.cc:354-372 | RemoveExtension and Extension rebuild the path if and only if it has no extension or nothing to strip |
| `FilePathProof.ExtensionDoesNotAlwaysRebuild` | base/file_path.cc:354-372 | a directory name with a trailing separator for which they do not |
| `FilePathProof.ExtensionShape` | base/file_path.cc:121-160 | an extension starts with precisely one dot: dot-free text, or one to four characters and a common double extension |
| `FilePathExtension.ExtensionByText` | base/file_path.cc:116-160 | for every path: names without a dot, "." and ".." have no extension; otherwise it is what starts at the last dot, or, before gz, z or bz2 in any case, at the dot before when one to four characters stand between |
| `FileTree.ListingLists` | base/file_util_posix.cc:797-836 | a listing shows every child once with its kind, and "." and ".." anywhere |
| `FileTree.PushedAre` | base/file_util_posix.cc:744-755 | exactly the subdirectories are pushed, each once |
| `FileTree.LoadDescends` | base/file_util_posix.cc:730-761 | reading a directory keeps the stack free of nesting and covers less of the tree, so the loop ends |
| `FileTree.NextTakesFirst` | base/file_util_posix.cc:726-765 | each call takes the first of what remains; when nothing remains it answers empty and nothing remains after |
| `FileTreeProof.TraversalHolds` | base/file_util_posix.cc:726-765 | exactly the matching nodes below the stack come |
| `FileTreeProof.TraversalDistinct` | base/file_util_posix.cc:726-765 | no path comes twice |
| `FileTreeProof.TraversalOrdered` | base/file_util_posix.cc:726-765 | a directory comes before its contents when both are shown, and the entries of one directory come together |
| `FileTreeProof.EnumerationReturns` | base/file_util_posix.cc:726-765 | n calls return each matching descendant exactly once, then the empty path for ever |
| `FileTreeOrder.TraversalInReadingOrder` | base/file_util_posix.cc:726-765 | the exact order: of two directories that are read, the one that comes first is above the other or stands later in the listing where they part |
| `FileTreeOrder.EnumerationIsComplete` | base/file_util_posix.cc:726-765 | on every unchanging tree and in every listing order: n calls return exactly the files below the root if files are asked for and exactly the directories if directories are, each once, and then the empty path for ever; what is in one directory comes together and before anything in a subdirectory |
| `FileTreeOrder.OneDirectoryIsComplete` | base/file_util_posix.cc:726-765 | an enumeration that is not recursive returns exactly the children of the kinds asked for, and ".." if asked for, each once and then the empty path for ever |
| `FileTreeOrder.BreadthFirstExactly` | base/file_util.h:475-478 | depths never decrease if and only if, of any two directories at or under the root that show something and part ways, the deeper one stands earlier in the listing where they part |
| `FileTreeOrder.NotAlwaysBreadthFirst` | base/file_util.h:475-478 | a tree of five entries whose exact traversal comes to depth three before depth two |
| `FileUtil.FileEnumerator.constructor` | base/file_util_posix.cc:692-702 | a new enumerator has only the root pending |
| `FileUtil.FileEnumerator.Take` | base/file_util_posix.cc:742-760 | the loop over a listing keeps the entries to return and pushes the directories to read |
| `FileUtil.FileEnumerator.Next` | base/file_util_posix.cc:726-765 | the loops over the stack, the entries and the cursor compute the specification step |
| `FileUtil.TraversalSame` | base/file_util_posix.cc:726-765 | what comes depends only on the part of the disk below the stack |
| `FileUtil.UnlinkKeepsRemaining` | base/file_util_posix.cc:227-236 | unlinking a returned file during the enumeration does not change what is still to come |
| `FileUtil.TopIsEmpty` | base/file_util_posix.cc:238-242 | when its turn comes every collected directory is empty |
| `FileUtil.UnlinkFiles` | base/file_util_posix.cc:221-236 | all files under the path go and all directories are collected, parents first |
| `FileUtil.RemoveDirectories` | base/file_util_posix.cc:238-242 | every rmdir succeeds, and nothing of the tree is left |
| `FileUtil.Delete` | base/file_util_posix.cc:206-244 | nothing there is success, a file is unlinked, a non-recursive call removes exactly an empty directory, a recursive one succeeds and removes exactly what is at or under the path |
| `CreateDirectoryModel.Subpaths` | base/file_util_posix.cc:550-559 | the path, its DirName and so on up, until a path is its own DirName |
| `CreateDirectoryModel.LookUpWalks` | base/file_util_posix.cc:388-394 | a list of names, "." and ".." included, leads to a directory exactly when every place on the way is one |
| `CreateDirectoryModel.DirNamePlaces` | base/file_util_posix.cc:553-559 | DirName of a path string leads to where all but the last of its names lead, over the same places |
| `CreateDirectoryModel.PlacesByNames` | base/file_util_posix.cc:553-573 | for proper names the places are the top or the working directory, and from there down name by name |
| `CreateDirectoryModel.MakesPlace` | base/file_util_posix.cc:564-573 | with the directories above there, mkdir makes the place of a path exactly when nothing is at it |
| `CreateDirectoryModel.StoppedMadeNothing` | base/file_util_posix.cc:562-575 | a call stopped by a file has made nothing, unless ".." is among the names |
| `CreateDirectoryModel.CreateDirectory` | base/file_util_posix.cc:548-576 | for every path string: true exactly when the path is not empty, there is a directory to start from and no file is in the way; then the path is a directory and exactly the missing places are new; otherwise exactly the places before the file have been made; a path that is a directory already is left alone |
| `IDMap.IdTable.constructor` | base/id_map.h:41-45 | a new map is empty and starts its ids at 1 |
| `IDMap.IdTable.Add` | base/id_map.h:59-67 | the new id is the next one, and the table has exactly one entry more |
| `IDMap.IdTable.AddWithID` | base/id_map.h:73-78 | likewise with a given id, anywhere in the order of iteration |
| `IDMap.IdTable.Remove` | base/id_map.h:80-94 | exactly that id is live no more; erases and releases at depth 0, is put off otherwise, and ignores an absent id |
| `IDMap.IdTable.Compact` | base/id_map.h:190-197 | removes and releases exactly what was put off, in whatever order |
| `IDMap.IdTable.Destroy` | base/id_map.h:179-188 | releases every pointer left |
| `IDMap.IdIterator.constructor` | base/id_map.h:119-125 | one level deeper, on the first entry that is not removed |
| `IDMap.IdIterator.Advance` | base/id_map.h:148-161 | on to the next entry that is not removed |
| `IDMap.IdIterator.Close` | base/id_map.h:127-131 | one level up, and compaction at the outermost |
| `IDMapProof.StepKeeps` | base/id_map.h:59-161 | every permitted operation keeps the table proper, the cursors right and the pointers conserved |
| `IDMap.SizeCountsLive` | base/id_map.h:109-112 | the difference of the two sizes is the number of live ids |
| `IDMap.IdTable.Size` | base/id_map.h:109-112 | size() is the number of live ids |
| `IDMap.RemoveTakesOut` | base/id_map.h:80-94 | removal takes exactly that id out of the live ones at any depth, and inside an iteration erases and deletes nothing |
| `IDMapProof.LastCloseLeavesLive` | base/id_map.h:127-131 | when the last iterator closes the table holds exactly the live ids |
| `IDMapProof.RunIsSafe` | base/id_map.h:59-161 | over every run with nested iterators: ids put off are present, iterators stay valid, and one at the end has visited each live id exactly once |
| `IDMapProof.TableIsAsked` | base/id_map.h:59-161 | over every run with iterators open in between, the live ids are exactly those inserted and not removed since, with the pointers they were inserted with; with no iterator open that is the whole table |
| `IDMapProof.AutomaticIds` | base/id_map.h:59-67 | automatic ids are 1, 2, 3 and so on, and the next one is never in the table |
| `IDMapProof.EachPointerDeletedOnce` | base/id_map.h:174-188 | in owning mode each pointer is deleted at most as often as it was added, and by destruction exactly as often; otherwise never |
| `LinkedList.LinkNode.InsertBefore` | base/linked_list.h:91-96 | the ring has the new node before the given one |
| `LinkedList.LinkNode.InsertAfter` | base/linked_list.h:99-104 | likewise after it |
| `LinkedList.LinkNode.RemoveFromList` | base/linked_list.h:107-110 | the ring is without the node, whose own links stay |
| `LinkedList.Rotate` | base/linked_list.h:147-152 | a ring may be read from any node, so inserting before the root is appending |
| `LinkedList.InsertThenRemove` | base/linked_list.h:91-110 | inserting before a node and removing restores every other link |
| `LinkedList.InsertAfterThenRemove` | base/linked_list.h:91-110 | likewise after a node |
| `LinkedList.LinkedList.Append` | base/linked_list.h:150-152 | the list stands for the old sequence and the new node |
| `LinkedList.LinkedList.constructor` | base/linked_list.h:147-147 | a new list is the root linked to itself and holds nothing |
| `LinkedList.LinkedList.Insert` | base/linked_list.h:91-104 | a node goes in before or after a node of the list |
| `LinkedList.LinkedList.Remove` | base/linked_list.h:107-110 | a node of the list comes out and the others keep their order |
| `LinkedList.LinkedList.Forward` | base/linked_list.h:154-164 | walking by next from the head until the root gives the sequence |
| `LinkedList.LinkedList.Backward` | base/linked_list.h:154-164 | walking by previous from the tail gives its reverse |
| `LinkedList.PerformAll` | base/linked_list.h:91-164 | after every permitted sequence of operations the ring through the root carries the expected sequence |
| `LinkedList.PerformAllBesides` | base/linked_list.h:91-164 | a list that shares no node with it keeps every link over every permitted sequence of operations on another list |

## Left out

- Windows drive letters, wide strings, HFS tables and case folding of paths: platform tables and system calls.
- The program name in the quoting round trip: CommandLineToArgvW parses it by different rules.
- System call failures (errno, EINTR, permissions), symbolic link loops and fnmatch patterns: the file tree is finite, unchanging but for the calls modelled, and every call is permitted.
- base/bind*.h, base/callback*.h, message loop proxies, at_exit, environment and other small members: template plumbing or easy to state.
- The x86, MIPS, macOS and MSVC atomics: inline assembly without loops.
- OnExit running while other threads use a LazyInstance: the source forbids it.
- CreateDirectoryModel.CreateDirectory: does not model another process making directories at the same time, nor symbolic links.
- FileTreeOrder.EnumerationIsComplete: paths are lists of names; `FilePathProof.AppendAllIsUnique` says that appending them to a root gives different path strings.
- CommandLineProof.CopyIsFaithful: on a line that already has a switch under a copied name with a prefix only one direction is stated, because the old value may happen to be the copied one.
- AtomicSequenceNumber.EachNumberOnce: like the reference counts, below the 2^31 limit of the word, as the source assumes.
- FileDescriptorShuffleExact.ShuffleAssigns: does not decide runs that have both a clobbered identity arc and, past the 16 temporaries that the source remembers, one that is a dest; `SafeExactly` decides such calls over all answers.
- IDMapProof.RunIsSafe: insertion while an iterator is open is excluded, because it may invalidate the hash table's iterators; ids are unbounded integers, so the wrap-around of the automatic 32-bit id is not modelled.
- IDMap.IdTable.Compact: ids are removed in any order, while the source goes through them in increasing order.
- The check for NULL data in IDMap, thread checks and logging.
- MD5DigestToBase16 and MD5String: formatting only.
