# Verified models of the Arctic Core SPI flash driver and runtime helpers

This project states, in Dafny, what the SST25xx flash driver of Arctic Core and the small
runtime helpers around it do, and proves it: the flash job engine over whole runs, the
formatted print family, the string tokenizer with the shell built on it, and four small
concurrent structures (task sleep, circular buffer, debugger terminal, memory log).

Check everything with `dafny verify dfyconfig.toml`.

## How it is built

Every source file that changes its variables step by step appears twice: as functions on
plain values that say what one step does, and as a class or method with the source's
fields, loops and branches that is proved to do exactly that. The properties are proved
about the functions, over all inputs and all runs.

| file | models |
|---|---|
| `memory.dfy`, `cstring.dfy` | bytes, 32-bit wrap-around, slices of memory, terminated strings |
| `sectors.dfy` | the address and length checks, the sector search, the SPI address bytes |
| `spi_flash.dfy` | the environment: SPI sequences, the flash device, memory, the trace of the bus |
| `fls_spec.dfy` | ProcessJob, MainFunction and the service functions as functions; the steps of a run |
| `fls_transfer.dfy`, `fls_history.dfy`, `fls_invariant.dfy` | the invariants of one transfer, of its trace and call count, and of the whole driver |
| `fls_accept.dfy` | which requests the service functions accept, and the step size they record, told by the configuration |
| `fls_runs.dfy`, `fls_commands.dfy` | runs: safety, the effect of read, write and erase jobs, and what is put on the bus |
| `fls_compare.dfy`, `fls_failures.dfy` | runs: compare jobs, and what failing sequences do |
| `fls_progress.dfy`, `fls_witness.dfy` | runs: termination and success, and runs that reach the states the departures below start from |
| `fls_driver.dfy` | the driver with its global record, static variables and loop |
| `xtoa.dfy`, `format.dfy`, `printf.dfy` | number conversion, the meaning of a format, the interpreter and its bounded sink |
| `accepted.dfy`, `standard.dfy`, `standard_cases.dfy` | the conversions the interpreter accepts, the C standard's meaning, and how the two compare |
| `strtok.dfy` | the in-place tokenizer |
| `command_line.dfy`, `shell.dfy`, `backspace.dfy` | command lines and their words, the shell that runs them, the backspace filter |
| `sleep.dfy`, `cirq_buffer.dfy`, `winidea.dfy`, `ramlog.dfy` | tick counter and timeouts, ring queue, debugger ring, log |

The flash environment: only this driver starts sequences, a sequence is accepted when none
is pending, and development error detection is on. A pending sequence may complete or fail
at any time, in any order with the driver's calls; while a write or erase is in progress
the device ignores commands and its busy bit is set; what a failed transfer was to store
is arbitrary.
The application may change memory at any time, also while a job is pending: all of it, but
for the buffer of a pending read or write, and for the driver's own compare buffer. The caller of a
compare may even change the buffer that is being compared.

## Where the code departs from what one expects

Each of these is kept as the code has it, and stated by a member below.

- A call of MainFunction between Init and the first accepted job runs into an assert
  (`FlsRuns.AssertsFromFirstJob`); from that job on no assert can fail.
- A successful status read between two commands is not guaranteed: after a compare job whose read
  failed the next job sends its command at once (`FlsFailures.NoStatusReadAfterFailure`).
  It happens exactly when a sequence failed in between (`FlsRuns.CommandsAreChecked`).
- A failed read, write or erase job leaves the driver busy for ever (`FlsFailures.FailureIsForever`).
  Any such job gets there when one of its sequences fails (`FlsFailures.FailedJobIsLost`,
  `FlsWitness.FailureLocks`).
- A compare that meets a different byte does not fail. The job stays pending, and every later call
  compares the portion with the caller's buffer again, exactly as long as they differ
  (`FlsCompare.HeldUpExactlyWhileDifferent`): for ever, if the caller leaves the buffer alone
  (`FlsCompare.MismatchIsForever`), and up to success if the caller makes the bytes equal
  (`FlsProgress.AnyCompareSucceedsIff`).
- A compare job starts from the sequence result of the job before it. If that result is a
  failure the compare fails at once without reading, and so does the next, until a job of
  another kind has ended that sequence well (`FlsFailures.StaleFailure`, `FlsProgress.AnyCompareSucceedsIff`).
  A compare whose status read fails after a successful read leaves such a result (`FlsWitness.StaleSequenceReached`).
- Compare checks its flash address, not its buffer, against NULL, so address 0 is
  refused (`FlsAccept.AcceptsExactly`, `FlsWitness.ShippedCompare`).
- The length check adds in 32 bits. A range that wraps around is accepted
  (`Sectors.WrappingLengthAccepted`); a range lies in the device exactly if it does not wrap (`Sectors.AcceptedInside`).
- `vsnprintf` with a size of 0, or of 2^31 and more, does not limit (`Printf.LimitsExactlyPositive`),
  and returns the number of characters written, not the length of the whole text (`Printf.ResultIsWholeLength`).
- Zero padding precedes the minus sign, the blank flag only shows where blanks are padded
  anyway, and hides a zero in front of the width; the length modifier for short has no effect, and
  characters are never padded (`StandardFormat.StandardExceptDeviations`, `StandardCases.KnownAgrees`).
- The flags '+' and '#', and two flags in front of a width, stop the interpreter at an assert
  (`AcceptedFormat.OthersHalt`, `StandardCases.DefinedAccepted`).
- A debugger write of 256 bytes or more never returns (`WinIdea.LongWriteNeverReturns`).
- A command line without a word makes the shell compare a NULL pointer, and more than ten words
  of a known command fail its assert (`Shell.ShellWorld.RunCmd`).

One oddity needs no member: the base check of `xtoa` joins its two halves with "and", so no base
meets it, and the model leaves it out.

## Model

| member | source | states |
|---|---|---|
| Sectors.InSectorIsInterval | AUTOSAR/core/drivers/Fls_SST25xx.c:97-97 | The wrapping unsigned quotient test of the checks holds exactly for the addresses from the start to the end of a region that fits in 32 bits. |
| Sectors.ValidateAddress | AUTOSAR/core/drivers/Fls_SST25xx.c:91-129 | The search loop accepts exactly the addresses that some region contains, aligned to its page or sector size. |
| Sectors.ValidateLength | AUTOSAR/core/drivers/Fls_SST25xx.c:131-165 | The search loop accepts exactly the non-zero aligned lengths whose 32-bit end is not behind some region. |
| Sectors.GetSector | AUTOSAR/core/drivers/Fls_SST25xx.c:362-374 | Returns the first region that contains the address; the assert behind the loop is not reached. |
| Sectors.AcceptedAddress | AUTOSAR/core/drivers/Fls_SST25xx.c:91-129 | On regions without gaps an accepted address lies in the device, and GetSector finds a sector for it. |
| Sectors.AcceptedInside | AUTOSAR/core/drivers/Fls_SST25xx.c:91-165 | An address and length that pass both checks lie inside the device if and only if their sum does not wrap around 32 bits. |
| Sectors.ShippedChecks | AUTOSAR/core/boards/mpc5516it/config/Fls_SST25xx_Cfg.c:21-28 | On the shipped list, without wrapping, the checks accept exactly the non-empty ranges inside the 2 MiB device, and for an erase exactly those of whole sectors. |
| Sectors.WrappingLengthAccepted | AUTOSAR/core/drivers/Fls_SST25xx.c:131-147 | On the sector list of 512 sectors of 4 KiB, address 1 with length 2^32 - 1 passes both checks and ends outside the device. |
| Sectors.SpiAddressRoundTrip | AUTOSAR/core/drivers/Fls_SST25xx.c:348-354 | The three address bytes, most significant first, make up the address modulo 2^24, so the address itself below that, and the device reads them so. |
| SpiFlash.OneClosingEvent | AUTOSAR/core/drivers/Fls_SST25xx.c:630-698 | In a disciplined bus trace exactly one event between a command and the next one is a ready status read or a failure, and it is the one right before the next command. |
| SpiFlash.ReadyUnlessFailed | AUTOSAR/core/drivers/Fls_SST25xx.c:630-649 | Between a command and the next one a status read finds the device ready if and only if no sequence fails in between. |
| FlsTransfer.CompletionKeeps | AUTOSAR/core/drivers/Fls_SST25xx.c:612-707 | A sequence that completes, at any moment of a transfer, leaves exactly the effect of the chunks commanded so far. |
| FlsTransfer.FailureKeeps | AUTOSAR/core/drivers/Fls_SST25xx.c:612-707 | A sequence that fails, whatever it stored, leaves everything outside the task's ranges untouched. |
| FlsTransfer.AssertsAreSafe | AUTOSAR/core/drivers/Fls_SST25xx.c:618-637 | In every state of a transfer the asserts of ProcessJob on the first operation, the state and the accepted status read hold. |
| FlsTransfer.ProcessKeeps | AUTOSAR/core/drivers/Fls_SST25xx.c:612-707 | One call of ProcessJob keeps the transfer on course; it reports success exactly when nothing is left and the device was found ready. |
| FlsHistory.TilesCover | AUTOSAR/core/drivers/Fls_SST25xx.c:652-690 | The chunks of a range are contiguous, in order, disjoint, all but the last of full size, and end exactly at the end of the range. |
| FlsHistory.ChunksIsCeiling | AUTOSAR/core/drivers/Fls_SST25xx.c:652-690 | Their number is the length divided by the chunk size, rounded up. |
| FlsHistory.ProcessHistory | AUTOSAR/core/drivers/Fls_SST25xx.c:612-707 | Every effective call of ProcessJob keeps commands sent plus commands due equal to the tiles of the range, and calls made plus calls due in balance. |
| FlsInvariant.AcceptedTask | AUTOSAR/core/drivers/Fls_SST25xx.c:454-576 | An accepted request lies in the device and has a non-zero length and chunk size; an erase is aligned to the sectors of the device. |
| FlsAccept.AcceptsExactly | AUTOSAR/core/drivers/Fls_SST25xx.c:91-165 | A request is accepted exactly if the driver is idle and, told by start, size, count and page size of the regions, the range is one of whole pages, for an erase of whole sectors; the buffer of a read or write must not be NULL, the flash address of a compare not 0, and nothing else is asked. |
| FlsAccept.ChunkIsStepSize | AUTOSAR/core/drivers/Fls_SST25xx.c:470-474 | The chunk size recorded is the fast or normal read size for reads and compares, the fast or normal write size for writes, and for an erase the size of the one region that holds the address. |
| FlsInvariant.CallKeepsDriver | AUTOSAR/core/drivers/Fls_SST25xx.c:454-576 | Every service call, accepted or refused, keeps the driver invariant. |
| FlsInvariant.PortionReadKeeps | AUTOSAR/core/drivers/Fls_SST25xx.c:748-781 | After a portion was read and compared the driver is done, in the next portion with everything before it found equal, or waits at a difference. |
| FlsInvariant.StepKeeps | AUTOSAR/core/drivers/Fls_SST25xx.c:376-843 | Every step of the driver, its callers, the SPI and the device keeps the invariant of the whole driver. |
| FlsInvariant.UseKeepsDriver | AUTOSAR/core/drivers/Fls_SST25xx.c:718-781 | The application may change memory in any state, but for the buffer of a pending read or write and the compare buffer, and the invariant is kept. |
| FlsRuns.EveryRunIsSafe | AUTOSAR/core/drivers/Fls_SST25xx.c:612-843 | In every reachable state at most one sequence is outstanding, the status is busy exactly while there is a job, no assert of MainFunction fails except before the first job, and the trace is disciplined. |
| FlsRuns.AssertsFromFirstJob | AUTOSAR/core/drivers/Fls_SST25xx.c:712-841 | A call of MainFunction right after Init, with the result pending and no job, fails an assert; from the first accepted job on, for the rest of the run, none does. |
| FlsRuns.CommandsFindReady | AUTOSAR/core/drivers/Fls_SST25xx.c:630-649 | In every run no command at all is sent to a busy device. |
| FlsRuns.CommandsAreChecked | AUTOSAR/core/drivers/Fls_SST25xx.c:630-649 | Between a command and the next one a status read found the device ready if and only if no sequence failed in between. |
| FlsRuns.SuccessMeansReady | AUTOSAR/core/drivers/Fls_SST25xx.c:803-808 | A job reports success only when the device has finished, nothing is pending, and the last thing on the bus was a status read that found the device ready. |
| FlsRuns.TransferIsAtomic | AUTOSAR/core/drivers/Fls_SST25xx.c:612-707 | A run that takes a read, write or erase job to success has exactly the effect of one atomic operation on its range, sent exactly the tiles of the range, of the size configured for the job and the mode, and took two calls per tile, one for the end and one per busy status read; memory elsewhere is as the application made it meanwhile. |
| FlsCommands.ModeIsLastStored | AUTOSAR/core/drivers/Fls_SST25xx.c:446-451 | In every run the mode in which a job is accepted is the one last set while the driver was idle. |
| FlsCommands.CompareCommands | AUTOSAR/core/drivers/Fls_SST25xx.c:724-775 | A compare that succeeds has read its range in portions of 64 bytes and a rest, each portion with commands of the read size for the mode. |
| FlsCommands.PendingIsSetUp | AUTOSAR/core/drivers/Fls_SST25xx.c:630-682 | At every point of every run after Init a pending sequence has its opcode set up (0x05, 0x03, 0x02, 0xd8), a read a place in memory, and a status read one byte of status. |
| FlsRuns.OutsideUntouched | AUTOSAR/core/drivers/Fls_SST25xx.c:454-576 | At every step of a job, also of one that fails, the flash outside its range is as it was at its start, and memory outside the place it stores to is exactly as the application made it. |
| FlsCompare.CompareOkMeansSeen | AUTOSAR/core/drivers/Fls_SST25xx.c:718-781 | A compare job of any length reports success only if each byte of the flash range was in its place in the caller's buffer at some moment of the job, whatever the caller did to the buffer. |
| FlsCompare.CompareOkMeansEqual | AUTOSAR/core/drivers/Fls_SST25xx.c:718-781 | If the caller leaves the buffer alone, success means that flash range and buffer are equal. |
| FlsCompare.MismatchDecides | AUTOSAR/core/drivers/Fls_SST25xx.c:744-781 | After a difference a call changes nothing but the counters while portion and buffer differ, and moves the job on, or ends it with success, as soon as they are equal. |
| FlsCompare.HeldUpExactlyWhileDifferent | AUTOSAR/core/drivers/Fls_SST25xx.c:744-764 | In every run from a difference on, the job is held up in its place, with nothing sent, if and only if portion and buffer differ at each call. |
| FlsCompare.MismatchIsForever | AUTOSAR/core/drivers/Fls_SST25xx.c:750-755 | So the job never ends if the caller leaves the differing buffer alone, whatever else happens. |
| FlsFailures.FailureIsForever | AUTOSAR/core/drivers/Fls_SST25xx.c:811-836 | After a failed read, write or erase the driver stays busy with a failed result and sends nothing more, whatever happens. |
| FlsFailures.FailureDooms | AUTOSAR/core/drivers/Fls_SST25xx.c:622-625 | A sequence that fails in a read, write or erase job leaves the job waiting for the call that finds the failure. |
| FlsFailures.DoomedStep | AUTOSAR/core/drivers/Fls_SST25xx.c:801-836 | That call locks the driver; no other step changes the job's fate. |
| FlsFailures.FailedJobIsLost | AUTOSAR/core/drivers/Fls_SST25xx.c:801-836 | Once a sequence has failed in such a job, the job is lost or the driver locked at every later point of the run. |
| FlsFailures.StaleFailure | AUTOSAR/core/drivers/Fls_SST25xx.c:569-625 | The first call after an accepted compare fails if and only if the sequence of the job before it has not ended well, and leaves that sequence as it was. |
| FlsFailures.NoStatusReadAfterFailure | AUTOSAR/core/drivers/Fls_SST25xx.c:782-787 | After a compare job whose read failed, the command of the next read job follows the failure directly. |
| FlsProgress.CallIsEffective | AUTOSAR/core/drivers/Fls_SST25xx.c:616-627 | While no sequence is pending and the awaited one has not failed, a call of MainFunction gets the job ahead. |
| FlsProgress.StillGoing | AUTOSAR/core/drivers/Fls_SST25xx.c:612-843 | A job still going on has used fewer calls than its budget, not counting those that found the device busy or a portion different. |
| FlsProgress.JobsFinish | AUTOSAR/core/drivers/Fls_SST25xx.c:612-843 | If no sequence fails, a job whose budget of calls is used up has succeeded; a compare needs a good end of the sequence before it. |
| FlsProgress.CompareVerdict | AUTOSAR/core/drivers/Fls_SST25xx.c:718-781 | A compare whose buffer is left alone and in which no sequence fails has, once its budget is used up, succeeded if the bytes are equal, and is held up at a differing portion if not. |
| FlsProgress.CanStillSucceed | AUTOSAR/core/drivers/Fls_SST25xx.c:612-843 | From any point of a job that has not failed and meets no difference, success is reached when the environment ends each sequence and each busy time before the next call. |
| FlsProgress.EveryJobCanFinish | AUTOSAR/core/drivers/Fls_SST25xx.c:612-843 | Every accepted read, write and erase, and every compare of equal bytes with a good old sequence, does reach success in such a run. |
| FlsProgress.TransferSucceedsIff | AUTOSAR/core/drivers/Fls_SST25xx.c:612-707 | A read, write or erase job under way can still succeed if and only if none of its sequences has failed. |
| FlsProgress.CompareSucceedsIff | AUTOSAR/core/drivers/Fls_SST25xx.c:569-573 | An accepted compare whose caller leaves the buffer alone can reach success if and only if the bytes are equal and the sequence of the job before it ended well. |
| FlsProgress.AnyCompareSucceedsIff | AUTOSAR/core/drivers/Fls_SST25xx.c:569-573 | If the caller may change the buffer, that sequence alone decides. |
| FlsProgress.DifferenceIsMet | AUTOSAR/core/drivers/Fls_SST25xx.c:748-755 | Every accepted compare of different bytes with a good old sequence reaches the portion that holds it up. |
| FlsWitness.FailureLocks | AUTOSAR/core/drivers/Fls_SST25xx.c:801-836 | Every accepted read, write or erase job locks the driver when its first sequence fails and MainFunction is called again. |
| FlsWitness.StaleSequenceReached | AUTOSAR/core/drivers/Fls_SST25xx.c:569-625 | From Init, a successful read and a compare whose status read fails leave the idle driver with the failed sequence that later compares meet. |
| FlsWitness.ShippedRead | AUTOSAR/core/boards/mpc5516it/config/Fls_SST25xx_Cfg.c:21-46 | After Init on the shipped configuration every read of a range of the device, into memory behind the compare buffer, is accepted and can bring exactly the flash content of the range: in fast mode with commands of 64 bytes and a rest, else byte by byte. |
| FlsWitness.ShippedWrite | AUTOSAR/core/boards/mpc5516it/config/Fls_SST25xx_Cfg.c:21-46 | So is every write, at address 0 too; it can program exactly its range, byte by byte. |
| FlsWitness.ShippedErase | AUTOSAR/core/boards/mpc5516it/config/Fls_SST25xx_Cfg.c:21-46 | So is every erase of whole sectors; it can set exactly its range to 0xFF, one command a sector. |
| FlsWitness.ShippedCompare | AUTOSAR/core/boards/mpc5516it/config/Fls_SST25xx_Cfg.c:21-46 | A compare at address 0 is refused without effect; at any other address it is accepted, and can succeed with its buffer left alone if and only if the bytes are equal. |
| FlsRuns.EraseWriteRead | AUTOSAR/core/drivers/Fls_SST25xx.c:454-543 | An erase, a write inside it and a read of the same range, each run to success, bring the written bytes back. |
| FlsDriver.Driver.constructor | AUTOSAR/core/drivers/Fls_SST25xx.c:437-441 | After Init the status is idle, the result pending, no job is there and the current sequence is the one that unlocked the device. |
| FlsDriver.Driver.SetMode | AUTOSAR/core/drivers/Fls_SST25xx.c:446-451 | Stores the mode exactly if the driver is idle. |
| FlsDriver.Driver.Serve | AUTOSAR/core/drivers/Fls_SST25xx.c:454-576 | Any service call keeps the driver invariant and is either refused without an effect or recorded as the new job, with the step size for its kind and the mode; accepted exactly under the listed conditions. |
| FlsDriver.Driver.Read | AUTOSAR/core/drivers/Fls_SST25xx.c:454-486 | Records a read job exactly if idle, aligned, in range and with a buffer, with the read size for the mode; otherwise changes nothing. |
| FlsDriver.Driver.Erase | AUTOSAR/core/drivers/Fls_SST25xx.c:488-512 | Records an erase job exactly if idle, aligned to sectors and in range, with the size of the first sector that holds its address; otherwise changes nothing. |
| FlsDriver.Driver.Write | AUTOSAR/core/drivers/Fls_SST25xx.c:514-543 | Records a write job exactly if idle, aligned, in range and with a buffer, address 0 included, with the write size for the mode; otherwise changes nothing. |
| FlsDriver.Driver.Compare | AUTOSAR/core/drivers/Fls_SST25xx.c:546-576 | Records a compare job exactly if idle, aligned, in range and not at address 0, with the read size for the mode, leaving the first-operation flag and the sequence of the job before; otherwise changes nothing. |
| FlsDriver.Driver.ProcessJob | AUTOSAR/core/drivers/Fls_SST25xx.c:612-707 | The loop over the job state does exactly what the step function says, meets all its asserts and turns at most twice. |
| FlsDriver.Driver.SendChunk | AUTOSAR/core/drivers/Fls_SST25xx.c:652-690 | Sends the next chunk with its address and buffer and moves address, target and rest by its size. |
| FlsDriver.Driver.CompareBytes | AUTOSAR/core/drivers/Fls_SST25xx.c:748-781 | Compares the portion and stops, finishes or starts the next portion. |
| FlsDriver.Driver.MainFunction | AUTOSAR/core/drivers/Fls_SST25xx.c:712-843 | One call does exactly what the step function says, for all four kinds of jobs. |
| FlsDriver.Driver.Cycle | AUTOSAR/core/drivers/Fls_SST25xx.c:712-843 | From the first accepted job on a call of MainFunction keeps the driver invariant and meets every assert. |
| Xtoa.DigitsValue | AUTOSAR/core/common/xtoa.c:47-49 | Reading the digits of a number in its base gives the number back. |
| Xtoa.DigitsLead | AUTOSAR/core/common/xtoa.c:47-49 | The digits have no superfluous leading zero, and no sign among them. |
| Xtoa.Fits12 | AUTOSAR/core/common/printf.c:364-376 | Any 32-bit value with its sign and terminator fits the 12 bytes of the local buffer, in both bases used. |
| Xtoa.MagnitudeOfInt | AUTOSAR/core/common/xtoa.c:36-39 | Negating the unsigned image of a negative int gives its magnitude, also for the smallest int. |
| Xtoa.IntRoundTrip | AUTOSAR/core/common/xtoa.c:104-107 | Reading the text of an int back gives the int, sign included. |
| Xtoa.IntTextInjective | AUTOSAR/core/common/xtoa.c:104-107 | Different ints have different texts. |
| Xtoa.LowDigitsReversed | AUTOSAR/core/common/xtoa.c:45-62 | The digits as the loop produces them, reversed, are the digits most significant first. |
| Xtoa.ReverseInPlace | AUTOSAR/core/common/xtoa.c:56-62 | Two moving pointers reverse the text in place and touch nothing behind it. |
| Xtoa.PutDigits | AUTOSAR/core/common/xtoa.c:45-49 | The digit loop writes the digits least significant first. |
| Xtoa.Xtoa | AUTOSAR/core/common/xtoa.c:32-63 | Writes the sign, the digits and a terminator. |
| Xtoa.Ultoa | AUTOSAR/core/common/xtoa.c:93-95 | Writes the digits of an unsigned value and a terminator. |
| Xtoa.Itoa | AUTOSAR/core/common/xtoa.c:104-107 | Writes the text of an int, smallest int included, and returns the buffer. |
| StandardFormat.ReadingOf | AUTOSAR/core/common/printf.c:423-464 | What the standard reads in a conversion the interpreter accepts: the same flag, width, length and type, and a zero flag for a zero in front of the width. |
| StandardFormat.StandardExceptDeviations | AUTOSAR/core/common/printf.c:423-500 | A conversion the interpreter accepts and section 7.19.6.1 of ISO/IEC 9899:1999 defines prints what that section asks for if and only if it is none of the listed cases. |
| StandardFormat.PaddedShows | AUTOSAR/core/common/printf.c:335-361 | Padding hides neither the number nor its sign, so different numbers never print alike. |
| StandardFormat.ZerosBeforeSign | AUTOSAR/core/common/printf.c:335-361 | Zero padding of a negative number agrees with the standard exactly when no zero is added. |
| StandardFormat.ShortDiffers | AUTOSAR/core/common/printf.c:461-474 | An argument out of the range of short, with the length modifier for short, always prints another number than the standard's. |
| StandardFormat.BlankField | AUTOSAR/core/common/printf.c:428-431 | The blank flag of a number without a sign agrees with the standard exactly when the width exceeds the digits, or by exactly one if a zero leads the width. |
| StandardCases.DefinedAccepted | AUTOSAR/core/common/printf.c:423-504 | Of the conversions the standard defines the interpreter accepts exactly those with at most one flag out of "0", blank and "-", but for zeros behind it. |
| StandardCases.KnownAgrees | AUTOSAR/core/common/printf.c:423-504 | Those are accepted, and print what the standard asks for if and only if they are none of the listed cases. |
| StandardCases.PointerField | AUTOSAR/core/common/printf.c:486-490 | A pointer prints as its 32 bits in base 16, without a sign, padded like an unsigned number. |
| StandardCases.NullField | AUTOSAR/core/common/printf.c:491-499 | A NULL string prints "(null)", padded like any string. |
| StandardCases.CharacterField | AUTOSAR/core/common/printf.c:466-469 | A character prints as the one character of the low eight bits of its argument. |
| AcceptedFormat.AcceptedExactly | AUTOSAR/core/common/printf.c:423-504 | The interpreter accepts exactly the texts that start with at most one flag of "0", blank, "-", decimal digits, at most one length of "h", "l", "L", and a type of "c", "d", "u", "x", "p", "s". |
| AcceptedFormat.ConversionParsed | AUTOSAR/core/common/printf.c:423-464 | From such a text it reads just these parts and takes all of them. |
| AcceptedFormat.ConversionPrints | AUTOSAR/core/common/printf.c:415-504 | Every such conversion of a width up to three digits prints a fitting argument and goes on with the rest of the format. |
| AcceptedFormat.OthersHalt | AUTOSAR/core/common/printf.c:501-504 | Behind a percent sign anything else but a second one, the end of the format included, stops the interpreter before it prints. |
| AcceptedFormat.EscapedPrintsItself | AUTOSAR/core/common/printf.c:413-421 | Any text with its percent signs doubled prints itself. |
| Format.ParseExtends | AUTOSAR/core/common/printf.c:423-464 | Parsing a conversion does not depend on what follows it in the format. |
| Format.RenderConcat | AUTOSAR/core/common/printf.c:413-509 | Rendering two formats one after the other is rendering their concatenation with both argument lists. |
| Printf.EmitChar | AUTOSAR/core/common/printf.c:250-269 | Stores a character and moves on, unless the limit has counted down to one. |
| Printf.EmitString | AUTOSAR/core/common/printf.c:327-362 | Emits the string padded to the width on the side and with the character the flags say. |
| Printf.EmitInt | AUTOSAR/core/common/printf.c:364-376 | Emits the padded text of the number, converted in a 12-byte buffer. |
| Printf.ParseWidth | AUTOSAR/core/common/printf.c:445-459 | Collects up to three digits in the local buffer and yields their value. |
| Printf.Parse | AUTOSAR/core/common/printf.c:423-464 | Yields flag, width and type, and how much of the format they take. |
| Printf.PrintDirective | AUTOSAR/core/common/printf.c:415-504 | Prints one conversion with the next argument, or stops at an unknown one. |
| Printf.Interpret | AUTOSAR/core/common/printf.c:413-509 | Running over the format once emits exactly the rendered text of all items in order. |
| Printf.Print | AUTOSAR/core/common/printf.c:404-517 | Writes the rendered text cut to the limit, terminates a buffer, changes nothing else in it and returns the count written. |
| Printf.Vsnprintf | AUTOSAR/core/common/printf.c:222-227 | The new buffer is the old one with the rendered text, cut to the limit, and a terminator in its place, and nothing else changed; the count is returned. |
| Printf.Vsprintf | AUTOSAR/core/common/printf.c:210-212 | With the largest size all of the rendered text is written, terminated and counted, and nothing else in the buffer changes. |
| Printf.Vfprintf | AUTOSAR/core/common/printf.c:214-219 | All of the rendered text goes to standard output. |
| Printf.ReturnIsCount | AUTOSAR/core/common/printf.c:510-510 | The 32-bit difference of size and rest is the number of characters emitted, below 2^31. |
| Printf.ResultIsWholeLength | AUTOSAR/core/common/printf.c:510-516 | The result is the length of the whole text if and only if the text fits; else all but the last place holds its beginning. |
| Printf.TextTerminated | AUTOSAR/core/common/printf.c:510-516 | The buffer of a call that did not halt holds the text and a terminator behind it, and is unchanged elsewhere. |
| Printf.LimitsExactlyPositive | AUTOSAR/core/common/printf.c:250-256 | A size limits some text if and only if it is from 1 up to 2^31 - 1. |
| Printf.LimitsNest | AUTOSAR/core/common/printf.c:250-256 | A smaller limit gives a prefix of what a larger one gives. |
| Strtok.FindStart | AUTOSAR/core/clib/strtok_r.c:45-64 | Finds the first position without a delimiter, or in the other mode reports an empty token at a delimiter. |
| Strtok.FindEnd | AUTOSAR/core/clib/strtok_r.c:70-83 | Finds the first delimiter or the terminator behind a token. |
| Strtok.StrtokWithMode | AUTOSAR/core/clib/strtok_r.c:32-85 | One call in place returns the token, the new position and the new memory, for both modes, a fresh string or a continued one. |
| Strtok.StrtokR | AUTOSAR/core/clib/strtok_r.c:87-90 | The public function is the mode that skips leading delimiters. |
| Strtok.TokensAreStretches | AUTOSAR/core/clib/strtok_r.c:32-85 | In the skipping mode the tokens are exactly the maximal non-empty delimiter-free stretches; in the other exactly the fields at single delimiters, without an empty one at the very end. |
| Strtok.TokensInOrder | AUTOSAR/core/clib/strtok_r.c:32-85 | Tokens come in order and apart, inside the string. |
| Strtok.CallsReturnTokens | AUTOSAR/core/clib/strtok_r.c:32-85 | Repeated calls on memory already cut return the tokens of the original string one after the other, then NULL for ever. |
| Strtok.StringIsTokenized | AUTOSAR/core/clib/strtok_r.c:32-85 | The same from the first call on, which names the string, whatever position the calls before left. |
| Strtok.NamedCall | AUTOSAR/core/clib/strtok_r.c:39-85 | A call that names a string, whatever the old position, returns the first maximal stretch that counts as a token and cuts exactly behind it, or returns NULL and changes nothing exactly if there is none. |
| Strtok.CallsCutBehind | AUTOSAR/core/clib/strtok_r.c:73-80 | After n calls exactly the delimiters right behind the returned tokens are overwritten. |
| Strtok.TokensStayReadable | AUTOSAR/core/clib/strtok_r.c:73-80 | Every token already returned can still be read in place, whatever later calls cut. |
| CommandLine.WordsAreStretches | AUTOSAR/core/common/shell.c:205-252 | The words of a command line are exactly its maximal stretches without blanks, tabs and newlines. |
| CommandLine.SpelledWords | AUTOSAR/core/common/shell.c:205-252 | A line put together from words with blanks, tabs and newlines before, between and behind them has just these words, in order. |
| Shell.WordAt | AUTOSAR/core/common/shell.c:232-252 | A word already cut out of the buffer is read from it unchanged. |
| Shell.ShellWorld.AddCmd | AUTOSAR/core/common/shell.c:188-196 | Appends a command; the first call puts the help command in front. |
| Shell.ShellWorld.FirstWord | AUTOSAR/core/common/shell.c:230-233 | Copies the line with its terminator and cuts off the first word; there is none exactly if the line has no words. |
| Shell.ShellWorld.CollectArgs | AUTOSAR/core/common/shell.c:244-252 | Fills the argument vector with all words in order; the assert fails exactly if there are more than ten. |
| Shell.ShellWorld.Search | AUTOSAR/core/common/shell.c:235-241 | Finds the first registered command of the name. |
| Shell.ShellWorld.RunCmd | AUTOSAR/core/common/shell.c:205-261 | For every line: calls the first command named by word 0 once, with all words, and returns its value; or reports the error, compares NULL, or fails the assert, each exactly when it should, and calls nothing. A line of fewer than 40 characters put together from up to ten words, with blanks, tabs or newlines around them, that starts with a registered name calls that command with just these words. |
| Backspace.ShownCancels | AUTOSAR/core/common/shell.c:78-95 | A character and a backspace behind it cancel, wherever they stand in the text. |
| Backspace.ShownLeading | AUTOSAR/core/common/shell.c:85-87 | A backspace with nothing before it does nothing. |
| Backspace.Fix | AUTOSAR/core/common/shell.c:78-95 | Leaves the text with its backspaces carried out and terminated, also in place. |
| Sleep.StepKeepsWaiting | AUTOSAR/core/common/sleep.c:38-77 | Any step other than arming the task again keeps its entry waiting for its tick, or its one event set. |
| Sleep.WakesExactlyOnTime | AUTOSAR/core/common/sleep.c:38-77 | A task that sleeps n ticks and is not armed again gets exactly one event, in the scan of the max(n, 1)-th tick, across any wrap of the counter and any interleaving. |
| Sleep.SleepModule.constructor | AUTOSAR/core/common/sleep.c:28-36 | No entry is active at the start. |
| Sleep.SleepModule.CallSleep | AUTOSAR/core/common/sleep.c:38-54 | Arms the task's entry for the current tick plus the delay, or reports an invalid task. |
| Sleep.SleepModule.Turn | AUTOSAR/core/common/sleep.c:60-75 | One turn without interruption counts the tick and scans every entry once. |
| CirqBuffer.SlotKept | AUTOSAR/core/common/cirq_buffer.c:120-122 | Writing one element slot leaves every other slot as it was. |
| CirqBuffer.FillKeeps | AUTOSAR/core/common/cirq_buffer.c:155-166 | Writing the slot behind the elements changes no element of the queue. |
| CirqBuffer.OneMore | AUTOSAR/core/common/cirq_buffer.c:120-125 | The queue with one more element is the old one and the slot behind it. |
| CirqBuffer.OneLess | AUTOSAR/core/common/cirq_buffer.c:145-150 | The queue is its first slot and the queue from the next slot on. |
| CirqBuffer.PointerMoves | AUTOSAR/core/common/cirq_buffer.c:121-124 | A pointer moved by the element size, and back to the start at the end, moves by one slot, for any element size. |
| CirqBuffer.CirqBuffer.constructor | AUTOSAR/core/common/cirq_buffer.c:50-58 | An initialized buffer is an empty queue. |
| CirqBuffer.PushesSpare | AUTOSAR/core/common/cirq_buffer.c:110-129 | The slot an element was just popped from keeps its bytes over further pushes exactly if they do not fill the buffer. |
| CirqBuffer.CirqBuffer.Push | AUTOSAR/core/common/cirq_buffer.c:110-129 | Fails and changes nothing exactly when the queue is full; otherwise appends the element and writes no other slot. |
| CirqBuffer.CirqBuffer.Pop | AUTOSAR/core/common/cirq_buffer.c:138-153 | Fails and changes nothing exactly when the queue is empty; otherwise takes the oldest element, whose place is not the slot the producer holds. |
| CirqBuffer.CirqBuffer.PushLock | AUTOSAR/core/common/cirq_buffer.c:155-166 | Reserves the slot behind the elements without changing the queue; fails exactly when it is full. |
| CirqBuffer.CirqBuffer.Fill | AUTOSAR/core/common/cirq_buffer.c:155-166 | The element written to the reserved slot is not yet in the queue. |
| CirqBuffer.CirqBuffer.PushRelease | AUTOSAR/core/include/cirq_buffer.h:53-55 | Appends what the reserved slot holds. |
| CirqBuffer.CirqBuffer.PopLock | AUTOSAR/core/common/cirq_buffer.c:169-181 | Is already the full state change of a pop, and returns where the oldest element lies: not in the slot the producer holds, and in the slot the next pushes reach last. |
| CirqBuffer.CirqBuffer.Empty | AUTOSAR/core/include/cirq_buffer.h:50-52 | The count is zero exactly when the queue is empty. |
| WinIdea.PublishAppends | AUTOSAR/core/drivers/serial_dbg_winidea.c:87-90 | Moving the write pointer of a ring that is not full makes the stored byte the newest unread one. |
| WinIdea.PublishWhenFull | AUTOSAR/core/drivers/serial_dbg_winidea.c:45-45 | In a full ring, which holds 255 unread bytes, the same would lose all of them. |
| WinIdea.ReadTakesOldest | AUTOSAR/core/drivers/serial_dbg_winidea.c:42-44 | The debugger takes the oldest unread byte, and the ring is not full then. |
| WinIdea.StepKeeps | AUTOSAR/core/drivers/serial_dbg_winidea.c:79-94 | Every memory access of the program and of the debugger keeps the bytes read, unread and still to come equal to the bytes handed to all writes. |
| WinIdea.DeliveredInOrder | AUTOSAR/core/drivers/serial_dbg_winidea.c:79-94 | In every interleaving the debugger reads the bytes of all writes in order, at most 255 are unread, and none is lost or overwritten. |
| WinIdea.LongWriteNeverReturns | AUTOSAR/core/drivers/serial_dbg_winidea.c:84-85 | A write of 256 bytes or more never returns. |
| WinIdea.Terminal.AwaitRoom | AUTOSAR/core/drivers/serial_dbg_winidea.c:86-86 | The busy wait ends with room in the ring. |
| WinIdea.Terminal.PutByte | AUTOSAR/core/drivers/serial_dbg_winidea.c:87-90 | Stores one byte and moves the pointer, with the debugger reading in between. |
| WinIdea.Terminal.Write | AUTOSAR/core/drivers/serial_dbg_winidea.c:79-94 | Hands over all bytes of the buffer in order, or nothing without a connection; returns the length. |
| Ramlog.PutShifts | AUTOSAR/core/common/ramlog.c:92-97 | A character logged shifts the memory, read from the oldest to the newest, by one. |
| Ramlog.TextShiftsIn | AUTOSAR/core/common/ramlog.c:92-97 | Text logged is at the end of what was there before, as far as it fits. |
| Ramlog.HoldsLast | AUTOSAR/core/common/ramlog.c:92-97 | After Init the log holds everything logged, and from the first wrap on exactly the last characters, as many as fit. |
| Ramlog.RamLog.Holds | AUTOSAR/core/common/ramlog.c:92-97 | The same of the log in memory at any time. |
| Ramlog.RamLog.PutChar | AUTOSAR/core/common/ramlog.c:92-97 | Overwrites the oldest character. |
| Ramlog.RamLog.FPuts | AUTOSAR/core/common/ramlog.c:100-105 | Logs the characters before the terminator. |
| Ramlog.RamLog.Puts | AUTOSAR/core/common/ramlog.c:111-115 | Logs them and a newline. |
| Ramlog.RamLog.Write | AUTOSAR/core/common/ramlog.c:164-170 | Logs the given number of characters, terminators included. |

## Left out

- FlsDriver.Driver.constructor: the state Init leaves, but not the JEDEC identification, the unlock command and the busy wait that Init performs on the bus; a second Init is not modelled.
- FlsDriver.Driver.MainFunction: Det and Dem reports and the job notifications are not modelled; they are foreign calls.
- FlsInvariant.StepKeeps: accepted ranges that wrap around 32 bits are outside the runs considered (they leave the device, see Sectors.AcceptedInside); so is a caller who changes the buffer of a read or write that is pending.
- FlsDriver.Driver.Serve: callers pass ranges that do not wrap around 32 bits and buffers that lie in memory apart from the driver's static compare buffer; sector lists for erase have the device's one erase size.
- FlsRuns.TransferIsAtomic: the wrap-around of the device inside a programming page is not modelled; a write programs consecutive bytes. Write enable and disable are part of the write and erase sequences.
- Cancel (marked as not supported; it leaves the compare variables stale), GetStatus, GetJobResult and GetVersionInfo.
- The SPI driver itself; a sequence is one step of the environment when it ends.
- Printf.Print: widths of more than three digits overflow the interpreter's local buffer, and missing or mistyped arguments are undefined; both are excluded by `Proper`.
- StandardFormat.StandardExceptDeviations: conversions the interpreter does not accept (flags '+' and '#', several flags in another order, precisions, other types) stop it at an assert (see AcceptedFormat.OthersHalt) and are not compared; nor is the text of pointers, which the standard leaves to the implementation (see StandardCases.PointerField).
- Printf.Vfprintf: all characters go to standard output, as in the code; the file argument is ignored there, and the stream functions fputc, fputs, fgetc and fgets are left out.
- Printf.ParseWidth: strtoul is a library function and appears as the value of the digits read.
- Xtoa.Xtoa: unsigned long is taken to have 32 bits, and bases are those its digit table allows.
- Strtok.StrtokWithMode: the pointer to the position is a value passed in and out, so a position stored inside the string itself is not modelled.
- Shell.ShellWorld.RunCmd: what comparing a NULL pointer or a failed assert does then is not modelled. Commands are functions of their arguments; a command that runs the shell again is not modelled. The message for an unknown command is not modelled.
- Shell.ShellWorld.AddCmd: the linked list of commands is a sequence; adding the same record twice, which breaks the list, is not modelled.
- The shell's main loop, its help texts and trim.
- Sleep.SleepModule.CountTick: the alarm that starts a turn is a step of the environment; ticks lost because a turn takes longer than a tick are not modelled. The hook for an invalid task appears as a result.
- CirqBuffer.CirqBuffer.Push: interrupt locking appears as the atomicity of the methods; at most one slot is locked, by one producer; a NULL buffer is not modelled (the code tests for it after the first access).
- PopRelease after PopLock (PopLock has already decremented the count), the dynamic creation and destruction of buffers, and CirqBuffStatCreate, which does what CirqBuff_Init does.
- WinIdea.Terminal.AwaitRoom: the debugger is taken to read at least one byte in each turn of the busy wait; without that the wait does not end.
- The receive side of the debugger terminal, which is a stub.
- The log's session mode, which is unfinished, and its formatted print.
- The thin mailbox wrapper, performance measurement, console and C library ports, and the AUTOSAR headers without code.
