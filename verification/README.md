# GemOS protocols, modelled and proved

GemOS is a teaching kernel. Each of its assignments holds one small stateful protocol written in C. This project models
them in Dafny and proves what they promise over whole runs.

* **Debugger** (`Debug*.dfy`). A breakpoint overwrites the `push %rbp` at a function entry with INT3; the handler emulates
  the push, and for an end breakpoint swaps the return address on the child's stack for `end_handler` and swaps it back when
  the function returns there. `DebugSpec` states each operation on values, `DebugSystem` the calling convention, a shadow
  call stack and the invariant, `DebugInvariant` that every step keeps it, `DebugTransparency` that debugging is transparent
  step by step, `DebugChild` that one and the same program makes the same run debugged and alone, `DebugResults` and
  `DebugEffects` what a user relies on, `DebugSession` one whole session, and `DebugKernel` carries the operations out in
  place on a linked list, arrays and contexts.
* **Scheduler and handoff** (`ProcessState`, `SchedulerSpec`, `Scheduler`, `Handoff`). Round robin among n contexts; debugger and
  child take turns.
* **Pipes** (`Ring`, `PipeSpec`, `Pipe`, `PipeLifetime`, `PipeFiles`). One ring shared by processes is one queue; descriptors,
  process slots, reference counts and the pipe's pages tell the same story.
* **Persistent pipes** (`PPipeSpec`, `PPipe`, `PPipeLifetime`, `PPipeFiles`). One ring with a lag per process is an
  ever-growing stream with a cursor per process and a flush frontier. Forgetting the cursors turns its life into a plain
  pipe's. The size of both rings and the number of slots are parameters (4096 and 16 in the kernel).
* **Thread-private memory** (`PageEntry`, `AddressWord`, `PageTable`, `PageWalk`, `ThreadSpec`, `ThreadSwitch`,
  `ThreadIsolation`, `ThreadEffects`, `ThreadSession`, `ThreadKernel`). A four-level page-table walk over frames, the pass
  over all private areas at a context switch, the fault handler, the thread slots, who may take an area from whom, and one
  whole run. Entry layout follows sections 4.5 and 4.6 of the Intel 64 and IA-32 Architectures Software Developer's Manual,
  Volume 3A.
* **Archiver** (`TarSpec`, `Tar`). Name, newline, decimal size, newline, contents, repeated.

Each protocol has a specification on values, lemmas about it over whole runs, and a class or loops that change state the way
the C code does, proved to have the effect the specification states.

## Assumptions

* Debugger: calls are well nested and at most 64 deep; function entries are more than four bytes apart; flags are 0 or 1;
  `end_handler` is never breakpointed or called; no true return address is a function entry; the outermost activation
  returns to END_ADDR; the child writes no live linkage word; during a visit the body of `end_handler`, and what it calls,
  writes only below the return slot it was reached through. What the program does next depends only on rip, rsp, rbp, the
  general registers it still needs, and stack words it has written and not released, other than return slots: a child that
  inspects its own return address can tell that it is debugged (`DebugChild.ReturnSlotDiffers`). A visit to
  `end_handler` restores the registers still needed where it returns to. Breakpoints are set at function entries. The program
  text holds, by address, the first byte of each instruction: a byte 0xCC inside a longer instruction is never executed and
  does not matter. Debugger and child execute the same text, and the debugger itself never executes a function entry that
  has a breakpoint.
* Page tables: the allocator hands out unused, zeroed, distinct frames with 32-bit numbers; private areas are page aligned,
  disjoint, inside 48-bit addresses and not mapped when recorded; the memory-area code clears an area's owner when it unmaps
  it and leaves the leaf entries of other live private areas alone (any such behaviour is allowed at each unmap, exit and
  in between); a new pid differs from all live ones; only the process clones.
* Pipes: a process has at most one descriptor for each end of the pipe.
* Archiver: reads and writes are complete; names hold neither a newline nor a zero byte.

## Where the code and its documentation disagree

* `clone_threads.c` promises to fix every legal access (lines 127-130). Line 172 masks the error code with `0x2 == 0`, which
  is 0, so a sibling's read of a read-only area that is not mapped yet is refused. `ThreadIsolation.LegalIsFixedExactly`
  states exactly which legal accesses are fixed, `ThreadSession.ReadOnlySiblingIsRefused` gives the run. Isolation holds
  regardless.
* The archiver opens the archive, the listing and extracted files without truncation, so a longer file of the same name keeps
  its end (`TarSpec.RoundTripExactly`, `TarSpec.OverwriteIs`, `TarSpec.ExtractionIsExactly`).

`do_file_fork` counts a reference even when `do_pipe_fork` reports that no slot is free (`PipeLifetime.ForkKeepsInvExactly`).
The kernel cannot reach that case: it has 7 contexts (`MAX_PROCESSES`) and 16 slots (`MAX_PIPE_PROC`), and with no more
processes than slots a slot is always free (`PipeLifetime.AlwaysFree`).

## Model

| member | source | states |
|---|---|---|
| DebugChild.SameProgram | Assignment3/Assignment-3/src/debug.c:146-199 | take a program whose next instruction is a function of its registers and stack and which, alone, looks at no return slot, no word that is not live and no register no longer needed: any debugged run of it (set, remove, continue and visits to end_handler interleaved) in which visits restore the needed registers can be carried out; with visits and requests erased it is instruction by instruction the run the same program makes alone, ending at the same rip, rsp, rbp, call stack, live words and needed registers |
| DebugChild.SameRegisters | Assignment3/Assignment-3/src/debug.c:146-199 | in runs without visits, and in runs whose visits restore every register, all registers are the same outside visits |
| DebugChild.OwnStepSame | Assignment3/Assignment-3/src/debug.c:146-199 | each step of the program is allowed under the debugger, cannot make the handler fail, and is the same instruction as alone |
| DebugChild.ReturnSlotDiffers | Assignment3/Assignment-3/src/debug.c:180-186 | a program that did look at the return slot of a patched activation would see end_handler where alone it sees its return address |
| DebugChild.StopsKeepGeneral | Assignment3/Assignment-3/src/debug.c:154-192 | neither stop changes a general register of the child |
| DebugTransparency.Transparency | Assignment3/Assignment-3/src/debug.c:146-199 | for whatever instructions the child decides on in a debugged run: with visits and requests erased they form a permitted run without a debugger, ending at the same rip, rsp, rbp, call stack and live stack words |
| DebugTransparency.StepIsTransparent | Assignment3/Assignment-3/src/debug.c:146-199 | one debugged step is no step, or the same instruction as a permitted step, of the undebugged program, and keeps the two related |
| DebugTransparency.EntryStopIsPush | Assignment3/Assignment-3/src/debug.c:168-192 | for the child an entry stop, with or without patching its return address, is the `push %rbp` that INT3 replaced |
| DebugTransparency.RetAgrees | Assignment3/Assignment-3/src/debug.c:180-186 | `ret` from a patched activation is, for the program alone, the ordinary return, and starts a visit to end_handler in the debugged run |
| DebugTransparency.VisitIsHidden | Assignment3/Assignment-3/src/debug.c:154-167 | no step of a visit to end_handler, stops and nested calls included, changes anything the undebugged program can see, and the visit ends at the true return address with the caller's rsp and rbp |
| DebugTransparency.RequestIsHidden | Assignment3/Assignment-3/src/debug.c:261-373 | set, remove and continue change nothing of the child's registers or stack |
| DebugInvariant.StepKeepsInv | Assignment3/Assignment-3/src/debug.c:146-199 | every step of the child and every request keeps the shadow call stack, the stack words, the program text, the breakpoint list and the debugger's two arrays in agreement, and the handler never leaves its arrays |
| DebugInvariant.EntryStopKeepsInv | Assignment3/Assignment-3/src/debug.c:168-192 | an entry stop keeps the invariant; the patched activation becomes the last entry of both arrays |
| DebugInvariant.EndStopKeepsInv | Assignment3/Assignment-3/src/debug.c:154-167 | an end stop takes off both arrays exactly the activation that is ending, whose true return address is the last one saved, also under recursion and nesting |
| DebugInvariant.OnStackIsPatched | Assignment3/Assignment-3/src/debug.c:180-186 | an address is on the debugger's stack array exactly when an activation of that function is patched |
| DebugInvariant.WalkMeetsFrames | Assignment3/Assignment-3/src/debug.c:99-110 | the copy_stack walk meets exactly the words shown in the return slots, innermost first, and stops at END_ADDR |
| DebugInvariant.ResolveShown | Assignment3/Assignment-3/src/debug.c:101-105 | replacing each end_handler word by the latest unused saved address gives the true return addresses |
| DebugInvariant.WalkIsTrue | Assignment3/Assignment-3/src/debug.c:92-112 | the walk terminates inside its arrays and records the true backtrace whatever is patched |
| DebugInvariant.EntryTraceIsTrue | Assignment3/Assignment-3/src/debug.c:179 | at an entry stop the trace is the entry address and the true return addresses |
| DebugInvariant.EndTraceIsTrue | Assignment3/Assignment-3/src/debug.c:163 | at an end stop the trace is the true backtrace of the ending function |
| DebugInvariant.SetKeepsList | Assignment3/Assignment-3/src/debug.c:261-318 | setting keeps addresses distinct, at most 8 of them, numbers increasing, and 0xCC in the text exactly at listed addresses; only the given address's flag changes |
| DebugInvariant.RemoveKeepsList | Assignment3/Assignment-3/src/debug.c:325-373 | removing keeps the same facts and changes no other breakpoint |
| DebugResults.StartIsRelated | Assignment3/Assignment-3/src/debug.c:234-256 | after become_debugger and fork the child is related to the program running alone |
| DebugResults.NeverStuck | Assignment3/Assignment-3/src/debug.c:92-199 | any run extends by any step that child and debugger may take: the unchecked array accesses of the handler stay in range |
| DebugResults.TrueWalk | Assignment3/Assignment-3/src/debug.c:99-110 | the walk over a stack whose return addresses were never patched gives the true return addresses |
| DebugResults.TraceAsIfUnpatched | Assignment3/Assignment-3/src/debug.c:92-112 | at every stop the stored trace is what the same walk gives on the stack with no return address ever patched |
| DebugResults.RemoveRefusedExactly | Assignment3/Assignment-3/src/debug.c:341-355 | removal fails exactly when there is no such breakpoint or an activation of the function still awaits its end stop |
| DebugResults.DisableRefusedExactly | Assignment3/Assignment-3/src/debug.c:283-291 | disabling a listed end breakpoint fails exactly while an activation awaits its end stop; enabling never fails |
| DebugResults.AllowedAtLastEndStop | Assignment3/Assignment-3/src/debug.c:154-167 | at the stop where the last such activation ends, removing and disabling are allowed again |
| DebugResults.RequestKeepsNumbers | Assignment3/Assignment-3/src/debug.c:299-301 | no request gives an old number to another address, and the counter never goes back |
| DebugResults.NumbersNeverReused | Assignment3/Assignment-3/src/debug.c:299-301 | over any run a number once issued is never borne by a different breakpoint |
| DebugSession.Session | Assignment3/Assignment-3/src/debug.c:146-199 | a program and a whole session of it exist that meet all hypotheses: an end breakpoint is set, the function is called, patched and left, the child stops in end_handler with the true return address in the trace and back on the stack, goes on, leaves end_handler with the needed register restored, and ends behind the call with the outermost activation alone |
| DebugEffects.StopsExactly | Assignment3/Assignment-3/src/debug.c:146-168 | the child stops exactly when it calls a function that has a breakpoint or has returned into end_handler |
| DebugEffects.StopReports | Assignment3/Assignment-3/src/debug.c:114-152 | every stop reports the truth: the result of wait_and_continue is the entered function, or end_handler, the saved registers are those at that function's first instruction with rsp at its return slot, the trace is the true backtrace; the child then waits and the debugger runs |
| DebugEffects.OthersReportNothing | Assignment3/Assignment-3/src/debug.c:431-450 | no other step changes what was reported; continuing puts the debugger to sleep and the child to work and changes nothing more |
| DebugEffects.ReportIsLastStop | Assignment3/Assignment-3/src/debug.c:114-199 | over any run the debugger is told the truth about the last stop |
| DebugEffects.OneActiveInEveryRun | Assignment3/Assignment-3/src/debug.c:194-196 | over any run one of debugger and child is active and the other waits |
| DebugEffects.StopPushes | Assignment3/Assignment-3/src/debug.c:154-192 | a stop pushes rbp below the return slot, leaves that slot showing end_handler exactly while an end stop is awaited, and changes no other word, no text and no breakpoint |
| DebugEffects.PatchedExactly | Assignment3/Assignment-3/src/debug.c:180-187 | an entry stop hides the return address exactly when the function's end breakpoint is enabled, and then records entry and address |
| DebugEffects.RemoveExactly | Assignment3/Assignment-3/src/debug.c:325-373 | removal with result 0 takes the breakpoint off the list, keeps all others in order, writes `push %rbp` back and changes nothing else; with -1 nothing changes; which of the two is settled by list and call stack |
| DebugEffects.SetAgainExactly | Assignment3/Assignment-3/src/debug.c:283-295 | setting a listed address changes its flag and nothing else, or is refused with nothing changed, exactly if that would disable an awaited end breakpoint |
| DebugEffects.SetNewExactly | Assignment3/Assignment-3/src/debug.c:297-318 | setting another address appends it under the next number and writes INT3, or is refused with nothing changed, exactly if the list is full or memory is out |
| DebugEffects.UnnamedStays | Assignment3/Assignment-3/src/debug.c:261-373 | over any run only requests naming an address change whether it has a breakpoint and its flag |
| DebugEffects.RemovedNeverStops | Assignment3/Assignment-3/src/debug.c:356-368 | after a removal, in any run that sets no breakpoint there again, calling the function does not stop |
| DebugEffects.SetAlwaysStops | Assignment3/Assignment-3/src/debug.c:261-318 | after a set with result 0, in any run that neither removes nor sets it again, every call of the function stops and its end breakpoint is as asked |
| DebugKernel.Debugger.constructor | Assignment3/Assignment-3/src/debug.c:234-256 | empty list and arrays, end_handler's first byte 0xCC |
| DebugKernel.Debugger.CopyStack | Assignment3/Assignment-3/src/debug.c:92-112 | the loop stores the entry address (at entry stops) and the resolved walk in the trace array |
| DebugKernel.Debugger.Lookup | Assignment3/Assignment-3/src/debug.c:276-282 | the list search returns the first node of the address, or null |
| DebugKernel.Debugger.Int3Handler | Assignment3/Assignment-3/src/debug.c:146-199 | the handler's effect on registers, child stack, arrays, trace and states is the stop of the specification, in both branches |
| DebugKernel.Debugger.RestoreReturn | Assignment3/Assignment-3/src/debug.c:156-162 | both arrays lose their last entry and the saved return address is back at rsp - 8 |
| DebugKernel.Debugger.PatchReturn | Assignment3/Assignment-3/src/debug.c:180-187 | exactly when the end breakpoint is enabled, entry and return address are recorded and end_handler written over the return slot |
| DebugKernel.Debugger.SetBreakpoint | Assignment3/Assignment-3/src/debug.c:261-318 | list, counters, text byte and result of do_set_breakpoint in every branch |
| DebugKernel.Debugger.AppendNode | Assignment3/Assignment-3/src/debug.c:306-314 | the new node becomes the last of the linked list, all others keep their contents |
| DebugKernel.Debugger.RemoveBreakpoint | Assignment3/Assignment-3/src/debug.c:325-373 | list, text byte and result of do_remove_breakpoint in every branch |
| DebugKernel.Debugger.UnlinkNode | Assignment3/Assignment-3/src/debug.c:358-368 | the k-th node leaves the linked list, the rest stays in order |
| DebugKernel.Debugger.InfoBreakpoints | Assignment3/Assignment-3/src/debug.c:380-396 | the caller's buffer receives the list in order and nothing beyond it |
| DebugKernel.Debugger.Backtrace | Assignment3/Assignment-3/src/debug.c:413-423 | the caller's buffer receives the trace and nothing beyond it |
| DebugKernel.Debugger.WaitAndContinue | Assignment3/Assignment-3/src/debug.c:446-449 | the debugger waits and the child runs |
| DebugKernel.Debugger.ReleaseAll | Assignment3/Assignment-3/src/debug.c:214-224 | at the debugger's exit each node is unlinked and released exactly once |
| SchedulerSpec.CandidateDistance | Assignment3/Assignment-3/src/schedule.c:17-31 | the search order p+1..n-1, 1..p names each user context exactly once |
| SchedulerSpec.PickIsFirst | Assignment3/Assignment-3/src/schedule.c:15-33 | the first READY context in cyclic order is returned, and the swapper exactly when no user context is READY |
| SchedulerSpec.KeepsRunningExactly | Assignment3/Assignment-3/src/schedule.c:119-127 | a tick keeps the running context exactly when no other user context is READY after sleep accounting, and leaves it READY |
| SchedulerSpec.ChangeComesCloser | Assignment3/Assignment-3/src/schedule.c:15-33 | a tick or a direct pick that passes over a READY context dispatches one nearer to it |
| SchedulerSpec.DispatchedWithinRound | Assignment3/Assignment-3/src/schedule.c:110-152 | over changes of the processor by timer ticks and by picks at exits and waits, without direct handoff, a READY context that nobody takes out of the queue is dispatched within n-1 changes, whatever the others do |
| SchedulerSpec.SleepsExactly | Assignment3/Assignment-3/src/schedule.c:42-49 | a context sleeping t ticks still waits before the t-th tick and is READY or running right after it |
| SchedulerSpec.TickExactly | Assignment3/Assignment-3/src/schedule.c:110-152 | a tick context by context: sleepers come a tick nearer and wake when none is left, the outgoing context is READY, the incoming one was READY and is RUNNING, nothing else changes |
| SchedulerSpec.PickExactly | Assignment3/Assignment-3/src/schedule.c:90-91 | giving up the processor makes the picked context RUNNING and touches no other |
| SchedulerSpec.PreemptedComesBack | Assignment3/Assignment-3/src/schedule.c:119-147 | a context preempted by a tick is dispatched again by one of the next n-1 changes |
| SchedulerSpec.OneRunsAlways | Assignment3/Assignment-3/src/schedule.c:119-147 | over any run no context but the current one is RUNNING |
| Scheduler.Contexts.PickNextContext | Assignment3/Assignment-3/src/schedule.c:15-33 | the wrap-around loop terminates for every n >= 2 and start pid and returns the specified context |
| Scheduler.Contexts.DoSleepAccount | Assignment3/Assignment-3/src/schedule.c:42-49 | the loop accounts for every context exactly once |
| Scheduler.Contexts.HandleTimerTick | Assignment3/Assignment-3/src/schedule.c:110-152 | the state change of a timer tick |
| Scheduler.Contexts.Schedule | Assignment3/Assignment-3/src/schedule.c:90-91 | the given context becomes current and RUNNING, no other changes |
| Handoff.StepKeepsInv | Assignment3/Assignment-3/src/debug.c:431-450 | fork, continue, breakpoint stop, sleep, tick, child exit and other contexts' steps keep exactly one of debugger and child up |
| Handoff.TickKeepsUp | Assignment3/Assignment-3/src/schedule.c:36-49 | a tick neither wakes a context that waits for its peer nor stops one that is up |
| Handoff.TakeTurns | Assignment3/Assignment-3/src/debug.c:194-213 | over any run, while the child is alive the two are never both READY or RUNNING, and never both waiting for each other |
| Handoff.HandsOver | Assignment3/Assignment-3/src/debug.c:194-196 | continuing and stopping give the processor directly to the other one, which was waiting, and touch no third context; a forked child waits; an exit leaves the debugger up |
| Handoff.SleepWakes | Assignment3/Assignment-3/src/schedule.c:42-49 | a context that asks to sleep for some ticks waits until the last of them and is READY or running right after it |
| PPipeSpec.StreamExact | Assignment2/gemOS/src/ppipe.c:93-358 | over every interleaving of reads, writes, flushes, forks and closes, what each process has read, preceded by what it inherited at fork, is exactly the stream up to its cursor; written bytes = flushed bytes + bytes held, at most `size` held |
| PPipeSpec.NextExact | Assignment2/gemOS/src/ppipe.c:93-358 | each single operation keeps that ledger |
| PPipeSpec.CreateExact | Assignment2/gemOS/src/ppipe.c:361-437 | a new persistent pipe satisfies it |
| PPipeSpec.FlushExact | Assignment2/gemOS/src/ppipe.c:221-253 | with an open reader the frontier moves exactly to the slowest one; the result is the bytes gained, never negative; flushing again gains 0; without reader nothing moves |
| PPipeSpec.ReadsCompose | Assignment2/gemOS/src/ppipe.c:292-301 | reading a then b bytes is reading a + b bytes |
| PPipeSpec.ReadersIndependent | Assignment2/gemOS/src/ppipe.c:256-303 | two readers get the same bytes and leave the same stream whoever reads first |
| PPipeSpec.Slowest | Assignment2/gemOS/src/ppipe.c:238-244 | a bound below every open reader's cursor that some reader attains |
| PPipeSpec.ReadDelivers | Assignment2/gemOS/src/ppipe.c:279-301 | a process with the read end gets exactly the next `count` bytes of the stream it has not had, or all there are; any other gets -EINVAL and nothing changes |
| PPipeSpec.WriteAccepts | Assignment2/gemOS/src/ppipe.c:326-356 | a process with the write end has min(count, room) bytes accepted, the room being the size less what is not reclaimed; any other gets -EINVAL and nothing changes |
| PPipeSpec.ForkCopies | Assignment2/gemOS/src/ppipe.c:106-143 | a forked process holds its parent's ends and has read what its parent has; the second call changes nothing; -EOTHERS exactly without free slot or parent |
| PPipeSpec.CloseShuts | Assignment2/gemOS/src/ppipe.c:167-205 | closing takes exactly that end from exactly that process, fails exactly where there is none, and the pages go exactly when nobody holds an end |
| PPipeSpec.FlushMakesRoom | Assignment2/gemOS/src/ppipe.c:221-253 | once every reader has had everything, a flush makes the whole buffer writable |
| PPipe.PPipe.ReaderAccounts | Assignment2/gemOS/src/ppipe.c:292-298 | in every state an open reader has 0 <= loc_offset <= buff_offset <= size, read_pos == (written - loc_offset) mod size, and write_pos the place loc_offset further on |
| PPipe.PPipe.constructor | Assignment2/gemOS/src/ppipe.c:361-437 | the ring, slots and positions of a new persistent pipe represent the empty stream |
| PPipe.PPipe.Read | Assignment2/gemOS/src/ppipe.c:256-303 | bytes, result and state of ppipe_read: min(count, unread) bytes from the reader's own position, -EACCES, -EINVAL |
| PPipe.PPipe.CopyOut | Assignment2/gemOS/src/ppipe.c:292-298 | the copy loop over the ring delivers the stream's bytes in order |
| PPipe.PPipe.Write | Assignment2/gemOS/src/ppipe.c:306-358 | result and state of ppipe_write: min(count, free) bytes appended, every process lags that much more |
| PPipe.PPipe.CopyIn | Assignment2/gemOS/src/ppipe.c:340-348 | the fill loop overwrites no byte still held |
| PPipe.PPipe.Account | Assignment2/gemOS/src/ppipe.c:349-354 | every process of the pipe, reader or not, lags further behind |
| PPipe.PPipe.Flush | Assignment2/gemOS/src/ppipe.c:221-253 | the reclaimed space and new frontier are those of the slowest open reader |
| PPipe.PPipe.LargestOffset | Assignment2/gemOS/src/ppipe.c:238-244 | the loop finds the largest lag of an open reader and whether there is one |
| PPipe.PPipe.SearchLast | Assignment2/gemOS/src/ppipe.c:172-176 | the search without early exit finds the process's only slot |
| PPipe.PPipe.Fork | Assignment2/gemOS/src/ppipe.c:93-146 | the child's slot is a copy of the parent's with the child's pid; idempotent for the second file; -EOTHERS without slot or parent |
| PPipe.PPipe.Close | Assignment2/gemOS/src/ppipe.c:150-205 | the end is shut, an empty slot freed, and the pages freed exactly when no end is left open |
| PipeSpec.QueueExact | Assignment2/gemOS/src/pipe.c:81-367 | over every interleaving by any number of processes, all bytes read are a prefix of all bytes written and the rest, at most `size` bytes, is queued |
| PipeSpec.CreateFifo | Assignment2/gemOS/src/pipe.c:405-442 | a new pipe satisfies it |
| PipeSpec.NextFifo | Assignment2/gemOS/src/pipe.c:81-367 | each single operation keeps that |
| PipeSpec.ReadTakes | Assignment2/gemOS/src/pipe.c:281-314 | a process with the read end takes the first min(count, queued) bytes of the queue; any other gets -EINVAL and nothing changes |
| PipeSpec.WriteAccepts | Assignment2/gemOS/src/pipe.c:340-365 | a process with the write end has min(count, room) bytes accepted; any other gets -EINVAL and nothing changes |
| PipeSpec.ForkCopies | Assignment2/gemOS/src/pipe.c:94-128 | a forked process holds its parent's ends; the second call changes nothing; -EOTHERS exactly without free slot or parent |
| PipeSpec.CloseShuts | Assignment2/gemOS/src/pipe.c:150-197 | closing takes exactly that end from exactly that process, fails exactly where there is none, and the pages go exactly when nobody holds an end |
| Pipe.PipeInfo.PositionsMeet | Assignment2/gemOS/src/pipe.c:305-312 | write_pos == (read_pos + buff_offset) mod size in every state |
| Pipe.PipeInfo.constructor | Assignment2/gemOS/src/pipe.c:370-444 | a new pipe represents the empty queue, its creator holding both ends |
| Pipe.PipeInfo.Read | Assignment2/gemOS/src/pipe.c:258-316 | bytes, result and state of pipe_read: min(count, available), -EACCES, -EINVAL |
| Pipe.PipeInfo.Drain | Assignment2/gemOS/src/pipe.c:305-312 | the loop takes the queue's front bytes in order |
| Pipe.PipeInfo.Write | Assignment2/gemOS/src/pipe.c:319-367 | result and state of pipe_write: min(count, free), -EACCES, -EINVAL |
| Pipe.PipeInfo.Fill | Assignment2/gemOS/src/pipe.c:356-363 | the loop appends in order and overwrites no unread byte |
| Pipe.PipeInfo.SearchLast | Assignment2/gemOS/src/pipe.c:159-163 | the search without early exit finds the process's only slot |
| Pipe.PipeInfo.Fork | Assignment2/gemOS/src/pipe.c:81-130 | slots and result of do_pipe_fork |
| Pipe.PipeInfo.Close | Assignment2/gemOS/src/pipe.c:133-194 | slots and result of pipe_close, and whether the pages are freed |
| PipeLifetime.LifetimeExact | Assignment2/gemOS/src/file.c:42-120 | over every run of forks, closes and exits by no more processes than there are slots: each file's ref_count is the number of slots holding that end, slots are exactly the processes with a descriptor, pids distinct, and the pages are freed exactly once, when the last descriptor is gone |
| PipeLifetime.AlwaysFree | Assignment2/gemOS/src/pipe.c:113-122 | with fewer processes than slots a slot is always free at a fork |
| PipeLifetime.FreedExactlyWhenAbandoned | Assignment2/gemOS/src/pipe.c:192-197 | pages freed, both file objects deleted, and no descriptor left are the same thing; each happens at most once |
| PipeLifetime.CreateInv | Assignment2/gemOS/src/pipe.c:405-442 | the invariant holds when the pipe is created |
| PipeLifetime.ForkEntriesIs | Assignment2/gemOS/src/file.c:47-61 | the loop of do_file_fork adds one reference per inherited end and at most one slot |
| PipeLifetime.ForkKeepsInv | Assignment2/gemOS/src/file.c:42-65 | fork keeps the invariant when a slot is free |
| PipeLifetime.ForkKeepsInvExactly | Assignment2/gemOS/src/file.c:51-58 | in any state fork keeps it exactly when a slot is free or nothing is inherited: references are counted even where do_pipe_fork fails |
| PipeLifetime.CloseFdKeepsInv | Assignment3/Assignment-3/src/entry.c:171-180 | close keeps the invariant |
| PipeLifetime.CloseCounts | Assignment2/gemOS/src/pipe.c:150-197 | closing a held end releases one reference and, with the last one of both files, the pages |
| PipeLifetime.ExitKeepsInv | Assignment2/gemOS/src/file.c:67-84 | exit closes every descriptor and keeps the invariant |
| PipeLifetime.NextTables | Assignment2/gemOS/src/file.c:42-84 | fork copies the parent's table, close empties one entry, exit leaves no table; no other table changes |
| PipeLifetime.CountsAreDescriptors | Assignment2/gemOS/src/file.c:47-61 | a file's ref_count is the number of processes with a descriptor for it |
| PipeFiles.FileObject.constructor | Assignment2/gemOS/src/file.c:20-29 | a new file object has one reference |
| PipeFiles.FileObject.Close | Assignment2/gemOS/src/file.c:114-120 | one reference less; deleted when it was the last |
| PipeFiles.Files.PipeClose | Assignment2/gemOS/src/pipe.c:133-199 | pipe_close on slots, pages and file object together |
| PipeFiles.Files.DoClose | Assignment3/Assignment-3/src/entry.c:171-180 | the table entry is cleared and the file closed |
| PipeFiles.Files.DoFileFork | Assignment2/gemOS/src/file.c:42-65 | the loop over the child's table |
| PipeFiles.Files.DoFileExit | Assignment2/gemOS/src/file.c:67-84 | the loop over the dying process's table |
| PPipeLifetime.LifetimeExact | Assignment2/gemOS/src/file.c:42-120 | the same for a persistent pipe over every run of forks, closes, exits, reads, writes and flushes: reference counts, slots and descriptors agree, pids are distinct, the stream stays in order, and the pages are freed exactly once, when the last descriptor is gone and both file objects with it |
| PPipeLifetime.NextKeepsInv | Assignment2/gemOS/src/ppipe.c:93-358 | each operation keeps that, and frees nothing twice |
| PPipeLifetime.CreateInv | Assignment2/gemOS/src/ppipe.c:361-437 | it holds when the persistent pipe is created |
| PPipeLifetime.NextFilesForgets | Assignment2/gemOS/src/ppipe.c:93-211 | fork, close and exit of a persistent pipe do to slots, counts, tables and pages what those of a plain pipe do, whatever the cursors |
| PPipeLifetime.DataForgets | Assignment2/gemOS/src/ppipe.c:221-358 | reads, writes and flushes touch none of these |
| PPipeLifetime.CloseForgets | Assignment2/gemOS/src/ppipe.c:150-205 | result, slots and freeing of a close are those of a plain pipe's close |
| PPipeLifetime.ForkForgets | Assignment2/gemOS/src/ppipe.c:93-146 | so are the slots after a fork |
| PPipeFiles.Files.constructor | Assignment2/gemOS/src/ppipe.c:361-437 | two file objects with one reference each around a new persistent pipe |
| PPipeFiles.Files.PPipeClose | Assignment2/gemOS/src/ppipe.c:150-211 | ppipe_close on slots, pages and file object together |
| PPipeFiles.Files.DoClose | Assignment3/Assignment-3/src/entry.c:171-180 | the table entry is cleared and the file closed |
| PPipeFiles.Files.ForkOne | Assignment2/gemOS/src/file.c:47-61 | one inherited descriptor: a reference more, and the process's slot |
| PPipeFiles.Files.DoFileFork | Assignment2/gemOS/src/file.c:42-65 | the loop over the child's table |
| PPipeFiles.Files.DoFileExit | Assignment2/gemOS/src/file.c:67-84 | the loop over the dying process's table |
| AddressWord.IndicesArePath | Assignment4/template/clone_threads.c:15-54 | mask and shift of each level on the 64-bit address word give the base-512 digit of the page number |
| AddressWord.WordIndices | Assignment4/template/clone_threads.c:15-54 | the same from the number of any address to the word that holds it and back |
| AddressWord.ShiftIsDivision | Assignment4/template/clone_threads.c:15-54 | the shifts of the four levels divide the number the word stands for |
| AddressWord.MaskIsRemainder | Assignment4/template/clone_threads.c:15-54 | the nine low bits of a word are its number modulo 512 |
| PageEntry.PathNamesPage | Assignment4/template/clone_threads.c:15-54 | the four indices determine the page, and the page the indices |
| PageEntry.LeafSet | Assignment4/template/clone_threads.c:55-63 | the new rights of a mapped page by `remove` and `comp_off`; the frame stays |
| PageEntry.LeafCreated | Assignment4/template/clone_threads.c:67-70 | the rights and frame of a page just mapped |
| PageTable.WalkKeepsTree | Assignment4/template/clone_threads.c:9-73 | the table stays a tree with no shared frame |
| PageTable.AttachKeepsTree | Assignment4/template/clone_threads.c:23-25 | hanging a fresh zeroed frame into an absent entry extends the tree by it alone |
| PageTable.RelabelGrows | Assignment4/template/clone_threads.c:20-26 | frames are only added, and none when from_switch is set |
| PageWalk.WalkWrites | Assignment4/template/clone_threads.c:9-73 | only entries on the way to the address's page are written |
| PageWalk.OtherPagesUnchanged | Assignment4/template/clone_threads.c:9-73 | no other page's leaf entry changes |
| PageWalk.OwnPage | Assignment4/template/clone_threads.c:54-71 | the page's own leaf gets the asked rights and keeps its frame, or gets an unused one unless from_switch is set |
| PageWalk.EffectiveAtMostLeaf | Assignment4/template/clone_threads.c:16-19 | whatever the upper levels hold, the hardware grants no more than the leaf entry |
| PageWalk.OpenEffective | Assignment4/template/clone_threads.c:16-19 | where every upper level is open it grants exactly the leaf entry |
| PageWalk.WalkOpens | Assignment4/template/clone_threads.c:16-51 | the walk opens every upper level on its way |
| PageWalk.WalkKeepsOpen | Assignment4/template/clone_threads.c:16-51 | and closes none on the way to another page |
| PageWalk.PtWalkTouchesOnePage | Assignment4/template/clone_threads.c:9-73 | all of these for pt_walk on an address, by page |
| ThreadSpec.FindFrom | Assignment4/template/clone_threads_helper.c:46-51 | the first slot with the pid, used or not |
| ThreadSpec.UnusedFrom | Assignment4/template/clone_threads.c:101-107 | the lowest unused slot |
| ThreadSpec.FreeAreaFrom | Assignment4/template/clone_threads_helper.c:103-112 | the first area without owner |
| ThreadSpec.FindMapFrom | Assignment4/template/clone_threads_helper.c:120-129 | the first owned area recorded under the address (and length, unless 0) |
| ThreadSpec.LastHit | Assignment4/template/clone_threads.c:146-159 | the fault search: a hit is a live area of a used thread that holds the address; a miss means there is none |
| ThreadSwitch.SwitchPagesEffect | Assignment4/template/clone_threads.c:213-241 | the pass over one area sets exactly the area's pages to the asked rights, maps nothing and moves no frame |
| ThreadSwitch.ModeIsRule | Assignment4/template/clone_threads.c:217-235 | the flags passed to pt_walk are the area's rule for the incoming context |
| ThreadSwitch.SwitchThreadsEffect | Assignment4/template/clone_threads.c:193-249 | the whole pass sets each page of each live area to its rule and leaves every other page's leaf entry alone |
| ThreadIsolation.LeafIsRule | Assignment4/template/clone_threads.c:132-249 | in every state reached by clones, private maps and unmaps, faults, switches and exits, each present leaf entry of each live private area grants exactly the area's rule for the running context |
| ThreadIsolation.Isolation | Assignment4/template/clone_threads.c:132-249 | and so the hardware grants the running context no more there than the rule, whatever the upper levels hold |
| ThreadIsolation.SwitchIsExact | Assignment4/template/clone_threads.c:193-249 | right after a switch it grants exactly the rule on every mapped page, and the switch has mapped and moved nothing |
| ThreadIsolation.StepKeepsInv | Assignment4/template/clone_threads.c:76-249 | every step keeps tree, slots, areas and rights in order |
| ThreadIsolation.JudgeExactly | Assignment4/template/clone_threads.c:141-186 | a fault in a live area is granted exactly when the rule is read-write and it is not a write to a present page |
| ThreadIsolation.FixedIsLegal | Assignment4/template/clone_threads.c:163-171 | a fault that is fixed was a legal access, and the hardware allows it afterwards |
| ThreadIsolation.LegalIsFixedExactly | Assignment4/template/clone_threads.c:127-186 | a legal access is fixed exactly when it comes from the process, the owner or a read-write sibling and did not find the page present for writing |
| ThreadSession.ReadOnlySiblingIsRefused | Assignment4/template/clone_threads.c:172-180 | a run reaches a live read-only area, not mapped, with the sibling running: its legal read is refused, the mask of line 172 being always 0 |
| ThreadSession.SiblingMayRead | Assignment4/template/clone_threads.c:193-249 | a run reaches the same area mapped by its owner's fault: after the switch the sibling has exactly read access |
| ThreadIsolation.FindsLive | Assignment4/template/clone_threads_helper.c:38-52 | with the slots in order, the pid search that ignores the status returns a live thread's own slot |
| ThreadIsolation.FindsLiveInEveryRun | Assignment4/template/clone_threads_helper.c:38-81 | and so it does in every run, whatever stale pids exited threads have left |
| ThreadIsolation.CloneKeepsPids | Assignment4/template/clone_threads.c:100-112 | taking the lowest unused slot keeps stale pids behind live ones |
| ThreadIsolation.MmapTarget | Assignment4/template/clone_threads_helper.c:137-161 | a private map lands in a free area of the calling thread's own slot |
| ThreadEffects.UnmapExactly | Assignment4/template/clone_threads_helper.c:189-212 | an unmap gives up one area it names, and only one the running context owns or, for the process, any; where there is none nothing changes: the process goes on, a thread is killed |
| ThreadEffects.UnmapGivesUp | Assignment4/template/clone_threads_helper.c:183-212 | a nonempty area that its owner or the process names by start and length is the one given up, and no other changes |
| ThreadEffects.CloneExactly | Assignment4/template/clone_threads.c:100-112 | a clone takes the lowest unused slot, with the new pid and no area, or returns -1 exactly when there is none; no other slot changes |
| ThreadEffects.MmapExactly | Assignment4/template/clone_threads_helper.c:137-161 | a thread's private map is recorded as asked in a free area of its own slot exactly when it has one, and takes no area from anybody; the process gets -1 |
| ThreadEffects.ExitExactly | Assignment4/template/clone_threads_helper.c:56-73 | an exiting thread is no longer live and owns nothing, its pid stays in the slot, no other thread loses anything |
| ThreadEffects.FaultExactly | Assignment4/template/clone_threads.c:132-186 | a fault is refused with -1 and nothing changed, or fixed with 1: the page is mapped with full rights, in its old frame or an unused one, and no other page's leaf changes |
| ThreadEffects.KeptUnlessTaken | Assignment4/template/clone_threads_helper.c:56-212 | no step but an unmap by owner or process that names it, or its owner's exit, changes a live area |
| ThreadEffects.AreaStays | Assignment4/template/clone_threads_helper.c:183-212 | and so over any run without such a step a thread keeps its area as it was mapped |
| ThreadKernel.ThreadInfo.PtWalk | Assignment4/template/clone_threads.c:9-73 | the four-level walk, in place |
| ThreadKernel.ThreadInfo.Indices | Assignment4/template/clone_threads.c:15-54 | the four indices, by mask and shift on the address word |
| ThreadKernel.ThreadInfo.Enter | Assignment4/template/clone_threads.c:15-26 | one upper level: entry opened, created, or walk given up |
| ThreadKernel.ThreadInfo.Leaf | Assignment4/template/clone_threads.c:54-71 | the last level |
| ThreadKernel.ThreadInfo.FindThreadFromPid | Assignment4/template/clone_threads_helper.c:38-52 | the scanning loop |
| ThreadKernel.ThreadInfo.FindUnusedMap | Assignment4/template/clone_threads_helper.c:103-112 | the scanning loop |
| ThreadKernel.ThreadInfo.FindThmap | Assignment4/template/clone_threads_helper.c:120-129 | the scanning loop |
| ThreadKernel.ThreadInfo.FindThreadFromAddress | Assignment4/template/clone_threads_helper.c:163-182 | the scanning loop over used threads |
| ThreadKernel.ThreadInfo.DoClone | Assignment4/template/clone_threads.c:100-112 | slot and result of do_clone, -1 when no slot is free |
| ThreadKernel.ThreadInfo.HandleThreadPrivateMmap | Assignment4/template/clone_threads_helper.c:137-161 | the recorded area and result in every branch |
| ThreadKernel.ThreadInfo.HandleThreadPrivateUnmmap | Assignment4/template/clone_threads_helper.c:189-212 | which area is given up, or segmentation fault, in every branch |
| ThreadKernel.ThreadInfo.HandleThreadExit | Assignment4/template/clone_threads_helper.c:56-73 | all areas and the slot are given up, the pid stays behind |
| ThreadKernel.ThreadInfo.HandleThreadPrivateFault | Assignment4/template/clone_threads.c:132-186 | the two search loops, the decision and the walk |
| ThreadKernel.ThreadInfo.HandlePrivateCtxswitch | Assignment4/template/clone_threads.c:193-249 | the loops over threads and areas |
| ThreadKernel.ThreadInfo.SwitchArea | Assignment4/template/clone_threads.c:210-241 | the loop over the pages of one area |
| TarSpec.RoundTripExactly | Assignment1/190902/Part2/myTar.c:39-102 | for every nonempty list of files with newline-free names, parsing what the create loop leaves in the archive file yields the same names, sizes and contents in order if and only if the file held no more bytes before: it is opened without truncation |
| TarSpec.RoundTrip | Assignment1/190902/Part2/myTar.c:70-102 | parsing the bytes written yields the same names, sizes and contents in order, and the listing's lines are those of the files |
| TarSpec.ParseGoesOn | Assignment1/190902/Part2/myTar.c:198-199 | bytes left over behind the entries are read as further entries |
| TarSpec.CutShort | Assignment1/190902/Part2/myTar.c:169-199 | an archive whose last contents are cut short is read as far as it goes |
| TarSpec.CutInHeader | Assignment1/190902/Part2/myTar.c:151-168 | an archive that ends right behind a name has one more, empty file; one that ends inside a name or a size is never read to its end |
| TarSpec.WritesAppend | Assignment1/190902/Part2/myTar.c:85-102 | writes in sequence leave what one write of all the bytes from the start leaves |
| TarSpec.OverwriteIs | Assignment1/190902/Part2/myTar.c:39 | the file holds exactly the bytes written if and only if it held no more before |
| TarSpec.OverwriteAt | Assignment1/190902/Part2/myTar.c:39 | byte by byte: the data, and behind it what the file held there before |
| TarSpec.WriteAtIs | Assignment1/190902/Part2/myTar.c:85-102 | a write changes exactly the bytes at its position |
| TarSpec.ArchiveInjective | Assignment1/190902/Part2/myTar.c:80-102 | different lists give different archives |
| TarSpec.ValueOfDecimal | Assignment1/190902/Part2/myTar.c:159-166 | reading the digits of a printed size gives the size |
| TarSpec.EntryReadBack | Assignment1/190902/Part2/myTar.c:146-196 | an entry anywhere in an archive is read back with its bounds |
| TarSpec.PutAllWrites | Assignment1/190902/Part2/myTar.c:175-195 | extraction writes each file's bytes over the beginning of whatever bore its name |
| TarSpec.ExtractionIsExactly | Assignment1/190902/Part2/myTar.c:175-195 | every file is extracted exactly if and only if the directory held no longer file of the same name: files are opened without truncation |
| TarSpec.ArchiveThenExtract | Assignment1/190902/Part2/myTar.c:70-200 | archiving into a file that held no more than the archive, and extracting into an empty directory, gives the same files and no others |
| TarSpec.OneAgreesWithAll | Assignment1/190902/Part2/myTar.c:231-288 | the first file of the name, if there is one, gets the bytes a full extraction gives that name; where there is none, no archived file has the name and a full extraction leaves it alone |
| TarSpec.SearchFinds | Assignment1/190902/Part2/myTar.c:231-288 | in every archive whose contents are not cut short, created by this program or not, the seeking search finds the first file of the name exactly when there is one |
| TarSpec.FindIsFirst | Assignment1/190902/Part2/myTar.c:231-288 | and it is the first of that name |
| TarSpec.ListingReadBack | Assignment1/190902/Part2/myTar.c:321-384 | read line by line, a listing gives the archive's size first, the number of files second, and then the files' lines |
| TarSpec.FileLineReadBack | Assignment1/190902/Part2/myTar.c:385-428 | each of these lines is the name, a space and the size |
| TarSpec.SeekableParses | Assignment1/190902/Part2/myTar.c:146-200 | whatever can be sought through can be extracted |
| TarSpec.NoZerosIsString | Assignment1/190902/Part2/myTar.c:151-158 | appending byte by byte to a C string keeps every name without a zero byte |
| Tar.Create | Assignment1/190902/Part2/myTar.c:39-102 | the create loop writes the archive over the beginning of what the file held |
| Tar.CopyIn | Assignment1/190902/Part2/myTar.c:93-102 | the 2048-byte copies append exactly the contents |
| Tar.CountDigits | Assignment1/190902/Part2/myTar.c:71-77 | the digit count is the length of the printed number |
| Tar.ReadName | Assignment1/190902/Part2/myTar.c:151-158 | the loop collects the bytes up to the newline, as a C string |
| Tar.ReadSize | Assignment1/190902/Part2/myTar.c:159-166 | the loop computes the value of the digits up to the newline; at the end of the archive the newline still in the buffer ends the size at 0 |
| Tar.CopyOut | Assignment1/190902/Part2/myTar.c:169-195 | the chunked loop transfers exactly the given number of bytes, or what is left of the archive |
| Tar.Extract | Assignment1/190902/Part2/myTar.c:146-200 | the extraction loop writes every entry of the archive, contents cut short included, over the beginning of whatever bore its name |
| Tar.ExtractOne | Assignment1/190902/Part2/myTar.c:231-288 | the first entry of the name is written, clipped where the archive ends, and the result says whether there is one; others are sought over |
| Tar.CountFiles | Assignment1/190902/Part2/myTar.c:341-366 | the counting pass counts the entries of any archive whose contents are not cut short |
| Tar.List | Assignment1/190902/Part2/myTar.c:321-428 | the listing of any such archive (its size, the number of entries, a line per entry with the size as it stands there), written over the beginning of what the listing file held |
| Tar.ListLines | Assignment1/190902/Part2/myTar.c:385-428 | the second pass writes one line per entry |

## Left out

- Machine integers: counters, positions, pids, sizes and addresses are unbounded, so `loc_offset` of a process whose read end is closed grows for ever and no 32- or 64-bit wrap-around is modelled; page-table entries are 64-bit words.
- The child's stack is addressed by 8-byte word, and unaligned accesses are not modelled.
- DebugTransparency.Transparency: takes the child's instructions as given and does not speak of general registers; DebugChild.SameProgram ties the instructions to one program and speaks of the registers it still needs.
- DebugTransparency.StepIsTransparent: likewise takes the instruction as given.
- DebugKernel.Debugger.WaitAndContinue: does not model the search for the child or the result once the child is gone; stale `ppid` values depend on get_new_ctx, which is not part of this model.
- The return of the outermost function to END_ADDR, and exceptions other than INT3.
- DebugKernel.Debugger.ReleaseAll: does not model the freeing of the debugger's own page or the clearing of the context's pointer to it.
- do_info_registers: a plain copy of the saved registers.
- Handoff.StepKeepsInv: does not model several children of one debugger, nor a debugger that exits before its child; the sleep system call is not part of this model and is taken to set the tick count and schedule.
- Scheduler.Contexts.HandleTimerTick: does not model alarm accounting, signal delivery and the saving and loading of registers.
- do_exit's search for a live process before shutdown, and the contents of contexts copied by fork and clone.
- PPipe.PPipe.Close: leaves the file object to PPipeFiles.Files.PPipeClose.
- PipeLifetime.LifetimeExact: does not model duplicated descriptors, because the pipe keeps one flag per end and process and its counts do not cover them.
- PPipeLifetime.LifetimeExact: does not model duplicated descriptors, for the same reason.
- The search for two free descriptors and out-of-memory results in create_pipe and create_persistent_pipe.
- is_valid_mem_range: a buffer the process may access is a parameter of Read and Write; the convention for the end of a memory area is not part of this model.
- Null-pointer and file-type checks at the head of each handler.
- ThreadKernel.ThreadInfo.HandleThreadExit: does not model the states of the exiting context and of the process, nor what unmapping does to the page table, which is left to the memory-area code.
- cleanup_all_threads, do_wait_for_thread and do_make_thread_ready: context states of threads are not modelled.
- ThreadKernel.ThreadInfo.DoClone: does not model the context that is left behind when no slot is free.
- TLB invalidation, CR3 and other processor state.
- gthread.c and the memory-area code behind mmap and munmap.
- Tar.Extract: does not cover archives on which the program reads the end over and over (an empty one, one that ends inside a name or a size) or sizes that are not numbers; the fixed 20-byte name buffer is not modelled.
- Tar.ExtractOne: likewise, and contents cut short are covered only for the file asked for: seeking beyond the end never meets the end again.
- Tar.CountFiles: contents cut short are not covered, for the same reason.
- Tar.List: likewise.
- Tar.ListLines: likewise.
- Path building, directory scanning and the opening of files in the archiver.
