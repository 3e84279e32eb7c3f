# Verified models of the McKernel test suite

This project models the parts of the McKernel OS test suite that carry a protocol, a layout or a
round trip of their own, and proves what those parts are there to guarantee: for every thread count
and interleaving, every size, every list of regions, lines or reads. System calls and pthread
primitives appear as small contracts; where the kernel may answer one way or another, the answer is a
parameter.

`dafny verify dfyconfig.toml` checks everything.

## What is modelled

| file | models |
|---|---|
| `BarrierPrint.dfy` | the N-party barrier program: main creates, runs and joins; each thread opens, waits, prints, waits |
| `TlsRace.dfy`, `TlsSchedule.dfy` | the thread-local-storage test: semaphore gate, private counters, a shared counter with separate load and store |
| `SpinGate.dfy`, `PiPartition.dfy` | the pi computation: spin gate, division of the range, sum of the partial sums |
| `GettidMigrate.dfy` | serialised creation of children, the shared `child_cpu`, the start gate, the nested id checks |
| `AddressSpace.dfy`, `MremapAnon.dfy`, `MremapScenarios.dfy` | an address space in bytes, the region formatter and its checkers, moves between regions |
| `StackConsumer.dfy` | the unit split, the page-touch loop with its counter in the buffer, the mutual recursion |
| `ProcRead.dfy`, `DeviceNumbers.dfy`, `DriverSetup.dfy` | the driver: offset-based read, device-number table and its shell parser, setup and cleanup |
| `DeviceMap.dfy` | the mmap device: reset, fault-in, shared and private mappings, the two validating programs |
| `RemapPages.dfy` | reversing the pages of a mapped file and comparing |
| `OfpSplitter.dfy` | the list splitter and the counter of excluded lines |
| `MigrateTarget.dfy`, `Alignment.dfy` | the choice of a target CPU; the alignment macros and the large-page probe |
| `Prelude.dfy`, `TextFields.dfy` | sums, decimal numbers, word splitting |

Page rounding is counted page by page; `AddressSpace.AlignedMeans` ties it to division. Programs with
several threads are state machines: a step function per thread, schedules as sequences of steps,
theorems over all schedules. A "stuck" state is one in which no thread can move. Programs that change
memory or fields step by step are methods and classes.

What the kernel does is assumed, not proved, and stated as contracts: `mmap`, `munmap` and `mremap` as
methods of `AddressSpace.Kernel` (a fixed move is refused with `EINVAL` if an address is not aligned, a
size is 0 or the ranges overlap, and with `EFAULT` if the source is not all mapped; otherwise it
replaces what is at the target, carries the bytes over and unmaps the source), `snprintf` as
`DeviceNumbers.Snprintf` (it writes nothing and returns 0 for a size that is no int), and
`copy_to_user` inside `ProcRead.ProcFile.Read` (it fails for 2^63 bytes and more).

The tests are there to find a kernel or device that does something else, so they are also modelled
with one: `AddressSpace.Kernel` takes a quirk, any other answer to `mremap` with any memory, and the
device programs take a device that does not reset and a `MAP_SHARED` that does not share. What each
test accepts then is stated as an if-and-only-if over the bytes it can see.

## Where a promise has a condition

- The barrier program returns from `main` exactly when `fopen` answers the same in all threads. If it
  fails in some but not all, the first barrier round never fills (`BarrierPrint.CompleteRun`).
- The racy shared counter of the TLS test is exact with one child. With more it can end with exactly
  the values from 2 (from 1 if INC_COUNT is 1) to the number of increments (`TlsSchedule.Outcomes`).
- The pi program spins, so it need not end under every schedule; it ends under every schedule that
  gives each thread its turn again and again (`SpinGate.FairRunsPrint`).
- `child_cpu` is written once exactly when there is only one child or the first `sched_getcpu()` does
  not fail (`GettidMigrate.WrittenOnceIff`); in general by the children up to the first one that gets a
  CPU number (`GettidMigrate.WriteOnce`), and by all if none does (`GettidMigrate.AllFail`).
- `value_to_unit` is exact exactly below 2^61 bytes. Above that it splits the value modulo 2^62 if bit 61
  is clear, and gives a negative GiB count if it is set (`StackConsumer.ValueToUnit`).
- The procfs read stays inside its string exactly when offset plus count does not wrap
  (`ProcRead.CopyInside`); a wrapped count is too long for any user buffer.
- The table of device numbers is read back in full exactly when its last entry is not cut off. For a
  12-bit major that is up to two devices, or up to 1000 with a major below 1000
  (`DeviceNumbers.RoundTrip`, `DeviceNumbers.FitsMeans`). The driver has two devices
  (`src/test_drv/test_suite.list`), so its own table is always read back; a third device would be lost
  with major 1000 (`DeviceNumbers.ThirdDeviceLost`).
- The mmap-device tests keep their page count in an int. Below 8 TiB they accept exactly the sizes that
  the device can back (`DeviceMap.ReachableBelow8TiB`). At 8 TiB the count is negative and at 16 TiB it
  is 0, and a mapping the kernel grants passes without a page being touched (`DeviceMap.NoPageAt8TiB`);
  in general they go wrong exactly when the buffer ends between the pages touched and the pages mapped
  (`DeviceMap.ReachableMeans`).
- `remap_file_pages_compare` reads a `char`. The suite is built with `-funsigned-char`
  (`src/test_mck/Makefile:41`), and then the test accepts every size but 0, which `mmap` refuses; with a
  signed `char` it would accept exactly the sizes up to 128 pages (`RemapPages.RunTest`).
- A zero result of `test_mck_setup` means success or a failed `class_create`, which leaves the result
  of the call before it (`DriverSetup.ZeroResult`).
- `test_mck_cleanup` releases without looking. It releases only what is held exactly when the region,
  the proc directory and every device are; in a setup, exactly when nothing that it checks fails, or a
  proc entry does and no `device_create` (`DriverSetup.NoStaleSetup`). `device_create` is not checked:
  if it fails, the unload destroys a device that is not there (`DriverSetup.NoDeviceNode`). A failed first `class_create` releases seven things that were never
  acquired, and eight at the unload that its 0 permits (`DriverSetup.FirstClassFails`).
- The splitter's script names are distinct exactly when no two sections that produce scripts have the
  same name; lines before the first header form a section called `#` (`OfpSplitter.NamesDistinct`).
- 008 and 009 choose the same CPU except when the parent alone is on the last one
  (`MigrateTarget.InlineChoice`).

## Model

| member | source | states |
|---|---|---|
| BarrierPrint.OutputInOrder | src/lv07_read-write_with-glibc/entry-pth.c:30-38 | in every schedule the output so far is a prefix of 0, 1, 2, ..., and the schedule is no longer than the work of the first state |
| BarrierPrint.PrintsInItsRound | src/lv07_read-write_with-glibc/entry-pth.c:30-38 | thread k prints when exactly k barrier rounds are complete and lines 0..k-1 are out; no thread is past its wait number k+1 or has returned, and for k > 0 every thread is inside its loop |
| BarrierPrint.RunInv | src/lv07_read-write_with-glibc/entry-pth.c:14-48 | every reachable state ties each thread's loop counter, the barrier's arrivals, main's progress and the output to the number of complete rounds |
| BarrierPrint.RunWork | src/lv07_read-write_with-glibc/entry-pth.c:14-115 | every step uses up exactly one unit of work |
| BarrierPrint.InitialWork | src/lv07_read-write_with-glibc/entry-pth.c:89-112 | the exact number of steps of a run in which every file opens |
| BarrierPrint.NoDeadlock | src/lv07_read-write_with-glibc/entry-pth.c:89-112 | when every file opens, a stuck state is one where main has returned and lines 0..N-1 are out |
| BarrierPrint.OneFailure | src/lv07_read-write_with-glibc/entry-pth.c:20-23 | when some file does not open, a stuck main has returned only if none did, and at most line 0 is out |
| BarrierPrint.CompleteRun | src/lv07_read-write_with-glibc/entry-pth.c:14-115 | the outcome of every complete schedule: main returns iff fopen answers the same everywhere, output in order, one fixed length |
| BarrierPrint.CanComplete | src/lv07_read-write_with-glibc/entry-pth.c:14-115 | every schedule extends to a complete one |
| TlsRace.GateHolds | src/test_mck/src/tls/001.c:30-40 | no child is past the start gate before all children have posted sync |
| TlsRace.ExecInv | src/test_mck/src/tls/001.c:25-106 | the invariant of all schedules: semaphore values, private counters, bounds on every loaded value |
| TlsRace.SharedUpperBound | src/test_mck/src/tls/001.c:35-38 | notls never exceeds the completed stores, nor children times INC_COUNT |
| TlsRace.CompleteRun | src/test_mck/src/tls/001.c:63-106 | schedules are finite; a stuck one has passed the check, every private counter is INC_COUNT, notls is between 2 and children times INC_COUNT |
| TlsRace.Checks | src/test_mck/src/tls/001.c:102-106 | on any results the check passes iff every child has left INC_COUNT |
| TlsSchedule.CanComplete | src/test_mck/src/tls/001.c:25-106 | every schedule extends to a complete one |
| TlsRace.OneChild | src/test_mck/src/tls/001.c:35-38 | a single child leaves notls at INC_COUNT in every complete schedule |
| TlsSchedule.Outcomes | src/test_mck/src/tls/001.c:25-106 | v ends some complete schedule iff v is INC_COUNT (one child) or from min(2, INC_COUNT) to children times INC_COUNT (more) |
| SpinGate.GateHolds | src/test_mck/src/cpu_thread_limits/001.c:37-50 | no child computes before every child has set waiting |
| SpinGate.PrintedSum | src/test_mck/src/cpu_thread_limits/001.c:96-110 | the printed value is the sum over the whole range times dx, for any division into consecutive ranges |
| SpinGate.ScanStartsOver | src/test_mck/src/cpu_thread_limits/001.c:96-104 | a scan that finds a flag unset looks at every child again before the barrier opens |
| SpinGate.RankStep | src/test_mck/src/cpu_thread_limits/001.c:37-108 | no step raises the rank, a restarted scan included; a step lowers it iff it is not a spin |
| SpinGate.ReachableCanFinish | src/test_mck/src/cpu_thread_limits/001.c:96-110 | whatever has run so far, the program can still print its result |
| SpinGate.FairRunsPrint | src/test_mck/src/cpu_thread_limits/001.c:37-110 | every infinite run that gives each thread its turn again and again has printed the whole sum from some turn on |
| SpinGate.RoundRobinIsFair | src/test_mck/src/cpu_thread_limits/001.c:37-108 | there are such schedules: the threads in turn |
| PiPartition.StartIsFloor | src/test_mck/src/cpu_thread_limits/001.c:79-82 | the ranges begin at the exact quotients, rounded down |
| PiPartition.Balanced | src/test_mck/src/cpu_thread_limits/001.c:79-82 | every range has numdiv/n points or one more |
| PiPartition.Tiles | src/test_mck/src/cpu_thread_limits/001.c:79-82 | every point of the whole range belongs to exactly one child |
| PiPartition.NoOverflow | src/test_mck/src/cpu_thread_limits/001.c:79-82 | for numdiv 200000000 and any int thread count the products fit a 64-bit long |
| PiPartition.JobIs | src/test_mck/src/cpu_thread_limits/001.c:43-46 | dx times n is 1, and term i times 4n²+(2i+1)² is 16n²: the curve 4/(1+x²) at the midpoint of cell i |
| PiPartition.PartialSumsAddUp | src/test_mck/src/cpu_thread_limits/001.c:79-110 | in every interleaving the printed value is the single-loop sum, in exact arithmetic |
| PiPartition.PrintedIsArea | src/test_mck/src/cpu_thread_limits/001.c:43-110 | the printed value lies strictly between the areas of the n rectangles below and above the curve from 0 to 1, which are 2/n apart |
| PiPartition.SomeSchedulePrints | src/test_mck/src/cpu_thread_limits/001.c:79-110 | some schedule of the program with its own ranges and terms prints |
| PiPartition.FairRunsPrint | src/test_mck/src/cpu_thread_limits/001.c:43-110 | every fair run of it ends with the single-loop sum printed, which is that area |
| GettidMigrate.ExecInv | src/test_mck/src/gettid/002.c:28-112 | at most one child at a time deals with child_cpu; its value and the masks follow from the children heard so far |
| GettidMigrate.GateHolds | src/test_mck/src/gettid/002.c:51-55 | no child passes start before all children have posted sync |
| GettidMigrate.WriteOnce | src/test_mck/src/gettid/002.c:35-50 | children 0..w write child_cpu, w being the first to get a CPU number; all later masks are built from that number |
| GettidMigrate.AllFail | src/test_mck/src/gettid/002.c:35-50 | if every sched_getcpu fails, every child writes child_cpu in order, it stays -1 and no mask is built |
| GettidMigrate.WrittenOnceIff | src/test_mck/src/gettid/002.c:35-50 | child_cpu is written exactly once iff there is one child or the first call does not fail |
| GettidMigrate.NoDeadlock | src/test_mck/src/gettid/002.c:100-119 | every schedule is finite, and when nobody can move main has joined everybody |
| GettidMigrate.CanJoin | src/test_mck/src/gettid/002.c:100-119 | every schedule extends to one after which main has joined everybody |
| GettidMigrate.Check | src/test_mck/src/gettid/002.c:122-130 | accepts iff all post pids are equal, all post tids distinct and no id changed in any child but the last |
| AddressSpace.AlignedMeans | src/test_mck/src/test_mck.h:71-86 | counting page by page is the same as rounding by division with PAGE_SIZE 4096 |
| MremapAnon.WrapsIffOverflow | src/test_mck/src/mremap_mmap_anon/mremap_mmap_anon.c:98-101 | the test sum < total_size fires iff the true sum leaves 64 bits |
| MremapAnon.SumSizes | src/test_mck/src/mremap_mmap_anon/mremap_mmap_anon.c:95-104 | gives the exact total, and gives up iff that does not fit 64 bits; the addresses are MAP_FAILED as far as it got |
| MremapAnon.FormatRegion | src/test_mck/src/mremap_mmap_anon/mremap_mmap_anon.c:115-138 | a hole is unmapped; a region has its protection and sharing, every byte (48+i)%256 if writable and 0 if not, the rest of its last page 0; nothing outside its pages changes |
| MremapAnon.Carve | src/test_mck/src/mremap_mmap_anon/mremap_mmap_anon.c:113-141 | stops at the first region that cannot be placed; the addresses are the exact running sums |
| MremapAnon.Format | src/test_mck/src/mremap_mmap_anon/mremap_mmap_anon.c:89-142 | all outcomes of the formatter: what it returns, addresses one behind the other, each byte of region i as asked with (48+i)%256 for the fill, and every other byte of the address space |
| MremapAnon.DataCheck | src/test_mck/src/mremap_mmap_anon/mremap_mmap_anon.c:144-157 | passes iff every byte is readable and as expected; otherwise the first bad byte decides between mismatch and fault |
| MremapAnon.AccessCheck | src/test_mck/src/mremap_mmap_anon/mremap_mmap_anon.c:159-187 | passes iff the address is not NULL and the range is accessible; fills it and changes nothing else |
| MremapScenarios.RegionsDisjoint | src/test_mck/src/mremap_mmap_anon/mremap_mmap_anon.c:113-140 | regions do not overlap |
| MremapScenarios.CheckRegion | src/test_mck/src/mremap_mmap_anon/mremap_mmap_anon.c:115-157 | on a formatted space the data check of a readable and writable region i passes with character (48+i)%256 and fails with any other; on a hole or unreadable region it faults |
| MremapScenarios.SameCharacter | src/test_mck/src/mremap_mmap_anon/mremap_mmap_anon.c:135-135 | two regions have the same character iff their numbers agree modulo 256 |
| MremapScenarios.Verify | src/test_mck/src/mremap_mmap_anon/007.c:35-48 | on any memory the verify and access blocks pass iff every moved byte is readable, writable and as expected, and so is the target's tail |
| MremapScenarios.MoveScenario | src/test_mck/src/mremap_mmap_anon/007.c:9-50 | for any table of whole pages: the call it makes; with a correct kernel it passes iff the set-up is granted, with moved bytes, target tail, freed source, other regions and everything outside known; with any other it passes iff answer and bytes are as expected |
| MremapScenarios.RefusedScenario | src/test_mck/src/mremap_mmap_anon/008.c:9-34 | for any table of whole pages and each of the targets of 008 to 011: the call it makes; with a correct kernel it passes iff the set-up is granted and every byte stays as formatted; with any other it passes iff the answer is EINVAL |
| StackConsumer.ValueToUnit | src/test_mck/src/mem_stack_limits/000.c:93-107 | the counts are exact iff the value is below 2^61; with bit 61 clear they split the value modulo 2^62, with it set the GiB count is negative |
| StackConsumer.LoadStore | src/test_mck/src/mem_stack_limits/000.c:45-49 | reading back a little-endian counter gives the value stored |
| StackConsumer.StoreByte | src/test_mck/src/mem_stack_limits/000.c:45-49 | byte i of the stored counter is its i-th digit to base 256, the lowest first |
| StackConsumer.TouchPages | src/test_mck/src/mem_stack_limits/000.c:43-80 | the loop ends; it sets the first byte of every page, changes nothing else but its counter, and leaves that at the next page boundary |
| StackConsumer.Consumer.StackLimitFunc | src/test_mck/src/mem_stack_limits/000.c:41-91 | the recursion ends with all counts 0, having put on the stack new GiB, then MiB, then KiB arrays, as many as counted, the first byte of every page 0xFF |
| StackConsumer.Consumer.Consume | src/test_mck/src/mem_stack_limits/000.c:109-126 | refuses 0; otherwise the lengths of the arrays on the stack add up to the value modulo 2^62 less its part of a KiB |
| ProcRead.CopyInside | src/test_drv/test_mck_drv.c:84-88 | the copy stays inside the string iff offset plus count does not wrap |
| ProcRead.ProcFile.Read | src/test_drv/test_mck_drv.c:73-98 | for every count: at most that many bytes, those of the string from the offset on, as many as asked or up to the end; result and offset; faults, odd offsets and wrapped sums included |
| ProcRead.ReadsInOrder | src/test_drv/test_mck_drv.c:73-98 | any sequence of reads delivers the string up to the offset; useful reads reach the end |
| ProcRead.ReadAll | src/test_drv/test_mck_drv.c:73-98 | a program making any reads on a freshly opened file has the string up to the file's offset, and all of it after enough useful reads |
| ProcRead.Cat | util/insmod_test_drv.sh:51-51 | reads of any one size until nothing comes give the whole string |
| ProcRead.EndOfFile | src/test_drv/test_mck_drv.c:80-97 | once the end is reached, further reads deliver nothing |
| DeviceNumbers.Snprintf | src/test_drv/test_mck_drv.c:246-248 | text cut to fit, NUL, full length returned, nothing else in the buffer changed; nothing at all for size 0 or a size that is no int |
| DeviceNumbers.EntryColumns | src/test_drv/test_mck_drv.c:246-248 | an entry column by column: major right-justified, colon, minor left-justified, three places or more each, one space |
| DeviceNumbers.PrintTable | src/test_drv/test_mck_drv.c:222-251 | for numbers of any width the buffer of 8n+1 bytes is never left and holds the entries cut at 8n-1 characters |
| DeviceNumbers.TableColumns | src/test_drv/test_mck_drv.c:222-251 | while numbers have at most three digits the entry of device i is found at 8i, and only the last space is missing |
| WordSplit.WordsCons | util/insmod_test_drv.sh:51-52 | behind white space, the first word is the run up to the next white space, and the other words are those of what follows |
| WordSplit.FirstWord | util/insmod_test_drv.sh:51-52 | every text is white space or begins like that |
| DeviceNumbers.WordsOfTable | util/insmod_test_drv.sh:51-52 | if the last token comes before the cut, splitting the table at white space gives one token per device, in order |
| DeviceNumbers.WordsOfCutTable | util/insmod_test_drv.sh:51-52 | if it does not, there are fewer words than devices or the last one is a proper prefix of its token |
| DeviceNumbers.CutOfEcho | util/insmod_test_drv.sh:60-61 | cut picks the words of an echo one by one |
| DeviceNumbers.SedMajorIs | util/insmod_test_drv.sh:60-60 | the first sed rule keeps exactly the digits before the colon |
| DeviceNumbers.SedMinorIs | util/insmod_test_drv.sh:61-61 | the second sed rule keeps exactly the digits after the colon |
| DeviceNumbers.ParseTable | util/insmod_test_drv.sh:51-70 | for any text, echo, cut and sed handle every word once, in order |
| DeviceNumbers.RoundTrip | util/insmod_test_drv.sh:51-70 | printing the table, reading it from the proc file and parsing it recover every major and minor number, in order, iff the last token is not cut |
| DeviceNumbers.FitsMeans | src/test_drv/test_mck_drv.c:246-251 | for a 12-bit major it is not cut iff there are at most two devices, or at most 1000 and the major is below 1000 |
| DriverSetup.Driver.Cleanup | src/test_drv/test_mck_drv.c:149-202 | nothing is held after; which of its releases hit nothing, for everything that may be held before |
| DriverSetup.NoStale | src/test_drv/test_mck_drv.c:149-202 | a cleanup releases only what is held iff region, proc directory and every device are held |
| DriverSetup.NoStaleSetup | src/test_drv/test_mck_drv.c:204-269 | a setup releases only what it held iff no checked call failed, or a proc entry did and no device_create |
| DriverSetup.OutcomeIs | src/test_drv/test_mck_drv.c:204-269 | setup ends with a given failure, or none, iff exactly the calls before it succeed, for each kind of call and each device |
| DriverSetup.Driver.Setup | src/test_drv/test_mck_drv.c:204-269 | everything but failed device nodes is held or nothing is, which result is returned for which first failing call, and which releases on the way out hit nothing |
| DriverSetup.Driver.LoadAndUnload | src/test_drv/test_mck_drv.c:271-279 | loading, and unloading after a zero result, leave nothing held; no release hits nothing iff every device was created and nothing else failed but a proc entry |
| DriverSetup.FirstClassFails | src/test_drv/test_mck_drv.c:226-232 | with two devices and the first class_create failing, the releases that hit nothing, one by one |
| DriverSetup.NoDeviceNode | src/test_drv/test_mck_drv.c:244-244 | a failed device_create goes unnoticed until the unload |
| DriverSetup.ZeroResult | src/test_drv/test_mck_drv.c:226-232 | the result is 0 iff setup succeeded or class_create failed |
| DeviceMap.Device.Reset | src/test_drv/test_mck_drv-mmap_dev2.c:87-103 | for any length, every byte gets its page number plus one, modulo 256 |
| DeviceMap.Mapping.StoreFirst | src/test_drv/test_mck_drv-mmap_dev2.c:23-44 | a store reaches the buffer through a shared mapping, a copy through a private one, and faults past the end |
| DeviceMap.SharedTest | src/test_mck/src/mmap_dev/002.c:33-83 | accepts iff the size is not 0, every call is granted, the device has the pages of the int page count with the reset pattern in them, and stores show in the other mapping; a missing page is a signal; the stamps are in the device |
| DeviceMap.PrivateTest | src/test_mck/src/mmap_dev/001.c:32-77 | accepts under the same condition but the last; no store reaches the device |
| DeviceMap.WorkingDevice | src/test_mck/src/mmap_dev/002.c:51-71 | a device that resets has the pattern, and a MAP_SHARED that does not share is found on the first page |
| DeviceMap.ReachableMeans | src/test_mck/src/mmap_dev/002.c:51-56 | that is the condition size <= buffer iff the buffer does not end between the pages touched and the pages mapped |
| DeviceMap.ReachableBelow8TiB | src/test_mck/src/mmap_dev/002.c:51-56 | up to INT_MAX pages it is |
| DeviceMap.NoPageAt8TiB | src/test_mck/src/mmap_dev/002.c:51-56 | at 8 and 16 TiB no page is touched, whatever the device |
| RemapPages.CreateFile | src/test_mck/src/remap_file_pages/remap_file_pages.c:23-40 | the file has size/4096 pages of 4096 bytes, page p begins with p%256 and is 0 behind that |
| RemapPages.Mapping.Reverse | src/test_mck/src/remap_file_pages/000.c:70-81 | afterwards page p shows file page N-1-p |
| RemapPages.Mapping.Compare | src/test_mck/src/remap_file_pages/remap_file_pages.c:42-58 | accepts iff the first character of every page p of N is (N-1-p)%256 |
| RemapPages.RunTest | src/test_mck/src/remap_file_pages/000.c:53-88 | create, map, reverse, compare accepts iff the calls are granted, the size is not 0 and, with signed char, there are at most 128 pages |
| RemapPages.CompareUnremapped | src/test_mck/src/remap_file_pages/remap_file_pages.c:42-58 | without the remap it accepts iff the file is not empty and has at most one page |
| OfpSplitter.Generate | util/extestcase_ofp.awk:29-100 | one script per case line outside the skipped sections, in order, numbered from 0 in its section |
| OfpSplitter.CountExcluded | util/countexclude_ofp.awk:7-57 | generated plus excluded is the number of case lines |
| OfpSplitter.ScriptNameInjective | util/extestcase_ofp.awk:74-74 | a script name determines section name and number |
| OfpSplitter.NamesDistinct | util/extestcase_ofp.awk:73-100 | all names are distinct iff no two sections that produce scripts share a name |
| OfpSplitter.SecondField | util/extestcase_ofp.awk:30-30 | the second field is the second run of characters between white space |
| OfpSplitter.NoSecondField | util/extestcase_ofp.awk:30-30 | it is empty for a line with fewer than two |
| OfpSplitter.NameIs | util/extestcase_ofp.awk:74-74 | a script's name is its section, a dot, and its number in three digits or more without needless zeros |
| OfpSplitter.SplitList | util/extestcase_ofp.awk:29-100 | on the characters of the list: a line has a script iff it does not begin with ## and the second word of the nearest ## line above is not one of the sixteen names; scripts come in order, each numbered one more than the script before if no ## line lies between and 0 otherwise; how many lines are left out; when names are distinct |
| MigrateTarget.TargetIsLargestFree | src/test_mck/src/sched_setaffinity/008.c:14-24 | the result is the largest CPU at or below the target that hosts neither process |
| MigrateTarget.TargetExists | src/test_mck/src/sched_setaffinity/008.c:106-108 | with three CPUs or more the result is a valid CPU |
| MigrateTarget.InlineChoice | src/test_mck/src/sched_setaffinity/009.c:114-120 | never the child's CPU; agrees with 008 iff not the parent alone is on the last CPU |
| Alignment.MaskClears | src/test_mck/src/test_mck.h:53-53 | masking with the complement of size-1 clears the low bits and nothing else |
| Alignment.UpIsLeast | src/test_mck/src/test_mck.h:54-54 | align_up is the least multiple at or above the address when no sum leaves the word |
| Alignment.LargePageIs512 | src/test_mck/src/arch/x86/include/arch_test_mck.h:10-11 | on x86 a large page is 512 small ones, which is what the probe assumes of its parameters |
| Alignment.Probe | src/test_mck/src/mem_large_page/000.c:26-66 | the probed pages are those of the first whole large page, all inside the mapping; the flag is the conjunction of the answers |

## Left out

- Single system-call probes, ptrace, kill, wait and signal scenarios, sockets, popen, execve, core dumps: decided by a kernel that is not in the repository, or fixed scripts with little state.
- Register and assembly code, getopt parsing, usage text, Makefiles, logs and environment scripts.
- Failure of `pthread_create`, `calloc` and the semaphore calls in the threaded programs: a thread that is missing changes the protocol itself.
- The text of the printed lines, the contents of the generated scripts and the printing of the pi value.
- Floating-point rounding in the pi computation: sums are exact.
- The effect of `pthread_setaffinity_np` and of the migration itself in `gettid/002.c`; pids, tids and CPU numbers are parameters.
- StackConsumer.Consumer.Consume: stated for values with bit 61 clear; with it set the GiB count is negative and the recursion counts it down to an int overflow, which C leaves undefined.
- DeviceNumbers.PrintTable: stated for int majors and a buffer below 2 GiB.
- RemapPages.RunTest: stated for up to 2^31-1 pages, like CreateFile, Reverse and Compare; beyond that the int counters overflow, which C leaves undefined.
- Growing and shrinking in place by mremap, which other scenarios of the same suite use.
