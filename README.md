# Server statistics agent, modelled in Dafny

The agent polls an HTTP statistics endpoint every five seconds. A successful
reply is a single line of seven comma-separated integers. In order they are:
the load average, available and used memory, available and used disk space,
and available and used network bandwidth. The agent checks them against
fixed thresholds and prints a warning for each one crossed:

- a load average of 30 or more;
- memory at least 81 percent used (the percentage, truncated to an integer, is above 80);
- disk at least 91 percent used (the truncated percentage is above 90), with the free space in Mb;
- network at least 91 percent used (the truncated percentage is above 90), with the free bandwidth in Mbit/s.

A poll fails when the request fails, the status is not 200, the body cannot
be read, or the line is malformed. After three failed polls in a row the
agent prints `Unable to fetch server statistic` and starts counting again.
Any success resets the count.

The project has seven modules, one file each:

- `Wrappers` (`wrappers.dfy`): `Option`.
- `GoInt` (`go_int.dfy`): the range of Go's `int` on a 64-bit platform, and Go's `/`, which truncates toward zero.
- `GoStrings` (`go_strings.dfy`): `strings.TrimSpace`, with Go's Unicode white-space set, and `strings.Split` on a one-character separator.
- `GoStrconv` (`go_strconv.dfy`): `strconv.Atoi`, with its syntax and its 64-bit range check, plus a decimal writer `Itoa` used to state the round trip.
- `Stats` (`stats.dfy`): `poll`. It covers the line parser (`ParseLine`, `ParseParts`, and the loop `ReadFields`), the threshold checks (`Evaluate`), and the whole poll (`Outcome`, and the method `Poll`).
- `Scheduler` (`scheduler.dfy`): the consecutive-failure counter. `Step` and `Replay` specify it as functions. The class `FailureCounter` with the method `Tick` is the counter itself. The method `Run` is the ticker loop.
- `Scenarios` (`scenarios.dfy`): example polls and failure runs.

Warnings are values of the datatype `Stats.Warning`. A poll yields them in
print order.

## Model

| member | source | states |
|---|---|---|
| GoInt.Quo | main.go:95 | Go's integer division by a positive divisor: the remainder is smaller than the divisor and takes the dividend's sign. |
| GoInt.QuoUnique | main.go:95 | Those remainder bounds determine the quotient, so `Quo` is the only function with that contract. |
| GoInt.QuoQuo | main.go:95 | Dividing by 1024 and then by 1024 again equals one truncating division by 1024*1024. The same holds for 1000 twice, and for any two positive divisors. |
| GoStrings.TrimLeftSuffix | main.go:61 | The left trim keeps a suffix. What it drops is all white space, and the result does not start with white space. |
| GoStrings.TrimRightPrefix | main.go:61 | The right trim keeps a prefix. What it drops is all white space, and the result does not end with white space. |
| GoStrings.TrimSpace | main.go:61-69 | `strings.TrimSpace`: every leading and trailing white-space character is removed, and nothing else. Its contract is the two lemmas `TrimSpaceTight` (the result is empty or tight) and `TrimSpaceInfix` (the result is an infix with only white space outside it). |
| GoStrings.TrimSpaceTight | main.go:61 | `TrimSpace` returns an empty string, or one that neither starts nor ends with white space. |
| GoStrings.TrimSpaceInfix | main.go:61 | `TrimSpace(s)` is a contiguous infix of `s`, and everything outside it is white space. |
| GoStrings.TrimSpaceWrapped | main.go:69 | Trimming white space around an empty or tight text gives back exactly that text. |
| GoStrings.Split | main.go:62 | `strings.Split` returns one more piece than the number of separators. No piece contains the separator, and joining the pieces gives back the input. |
| GoStrings.JoinHasSep | main.go:62 | A join of separator-free pieces contains the separator if and only if there are two or more pieces. |
| GoStrings.JoinInjective | main.go:62 | Two non-empty lists of separator-free pieces with the same join are equal. (`[]` and `[""]` both join to the empty string, which is why the lists must be non-empty.) |
| GoStrings.SplitJoin | main.go:62 | Splitting the join of a non-empty list of separator-free pieces gives back the pieces. |
| GoStrings.TrimSplitJoin | main.go:61-69 | Take one or more tight, separator-free pieces, pad each with white space, and join them with a separator that is not white space. Trimming that line and splitting it again gives as many pieces as before, and each one trims to its original. |
| GoStrconv.Atoi | main.go:69 | Every value `Atoi` accepts is within the 64-bit `int` range. |
| GoStrconv.AtoiSyntax | main.go:69 | `Atoi` accepts only an optional sign followed by digits. A negative result needs a minus sign, and no accepted text contains white space or a comma. |
| GoStrconv.AtoiItoa | main.go:69 | For every 64-bit value, `Atoi` reads back its decimal form. |
| GoStrconv.ItoaTight | main.go:69 | A decimal form contains no white space at either end and no comma. |
| GoStrconv.AtoiExamples | main.go:69 | `+007` and `-0` are accepted. The empty text, a lone sign, a leading space, an underscore and hexadecimal are rejected. |
| GoStrconv.AtoiRange | main.go:69 | Both ends of the 64-bit range are accepted. One past either end is rejected. |
| Stats.FromFields | main.go:76-79 | The seven parsed values are bound to the metrics in wire order. |
| Stats.PercentAbove | main.go:86-87 | A percentage truncated toward zero exceeds `limit` if and only if `used*100 >= (limit+1)*available`. |
| Stats.Percent | main.go:86-101 | The usage percentage, truncated toward zero. Its meaning is stated by `PercentAbove` and, for memory, by the bounds in `MemoryWarning`. |
| Stats.Evaluate | main.go:81-106 | At most four warnings, in print order (load, memory, disk, network), each kind at most once. |
| Stats.LoadWarning | main.go:81-83 | The load warning appears if and only if the load average is at least 30, and it carries that value. |
| Stats.MemoryWarning | main.go:85-90 | The memory warning appears if and only if available memory is positive and at least 81 percent of it is used (the truncated percentage is above 80, so 80.5 percent warns nothing). It carries the truncated percentage, which is above 80. |
| Stats.DiskWarning | main.go:92-98 | The disk warning appears if and only if the disk size is positive and at least 91 percent of it is used (the truncated percentage is above 90). It carries the free space divided by 1024*1024, truncated toward zero. For 64-bit inputs the subtraction cannot overflow. |
| Stats.NetworkWarning | main.go:100-106 | The network warning appears if and only if the bandwidth is positive and at least 91 percent of it is used (the truncated percentage is above 90). It carries the free bandwidth divided by 1000*1000, truncated toward zero. For 64-bit inputs the subtraction cannot overflow. |
| Stats.LoadCheck | main.go:81-83 | At most one warning, a load warning. It is present if and only if the load average is at least 30. |
| Stats.MemoryCheck | main.go:85-90 | When available memory is not positive the check is skipped. Otherwise it warns exactly at 81 percent or more. |
| Stats.DiskCheck | main.go:92-98 | When the disk size is not positive the check is skipped. Otherwise it warns exactly at 91 percent or more. |
| Stats.NetworkCheck | main.go:100-106 | When the bandwidth is not positive the check is skipped. Otherwise it warns exactly at 91 percent or more. |
| Stats.ParseFields | main.go:67-74 | On success it holds one value per part, each being what `Atoi` reads from that part once trimmed. On failure one part is not an integer. |
| Stats.ParseFieldsAll | main.go:67-74 | When every part reads as an integer, parsing succeeds with exactly those values. |
| Stats.ReadFields | main.go:67-74 | The loop over the parts computes `ParseFields`: it stops at the first malformed part, and otherwise collects every value in order. |
| Stats.ParseParts | main.go:63-79 | A line parses if and only if it has exactly seven parts and each one is an integer once trimmed. The values go into the metrics in wire order and each fits in 64 bits. |
| Stats.ParseLine | main.go:61-65 | A body that parses has exactly six commas once trimmed. |
| Stats.Outcome | main.go:45-108 | One poll as a function: `None` for a failed poll, otherwise the warnings it prints. Its contract is `PollSucceeds` (it succeeds if and only if seven integer fields arrived, and then yields their evaluation) together with the four warning lemmas via `Evaluate`. |
| Stats.PollSucceeds | main.go:61-108 | A poll succeeds if and only if a body arrived with seven integer fields, whichever warnings those values raise. It then yields the warnings for the values read in wire order. |
| Stats.Poll | main.go:45-108 | The method succeeds exactly when `Outcome` does and returns the same warnings. A failed poll prints nothing. |
| Stats.RoundTrip | main.go:61-74 | Write seven values that each fit in 64 bits in decimal, pad each with any white space, and join them with commas. That line parses back to the same seven values. |
| Scheduler.Step | main.go:31-40 | A success resets the count to 0 with no alert. A failure adds one, and the third failure alerts and resets the count. The count stays between 0 and 2. |
| Scheduler.Replay | main.go:26-42 | Replaying a run of polls gives one alert flag per poll and keeps the count between 0 and 2. |
| Scheduler.FailureRun | main.go:32-37 | From a count `c` in 0..2, a run of `n` failures ends at count `(c+n) % 3`. It alerts on exactly those failures that bring the total to a multiple of three. |
| Scheduler.AlertsOfRun | main.go:32-37 | From a count `c` in 0..2, a run of `n` failures prints `(c+n) / 3` alerts. |
| Scheduler.StreakAlerts | main.go:21-37 | From a fresh start, `n` consecutive failures print `n / 3` alerts, on failures 3, 6, 9 and so on. |
| Scheduler.SuccessResets | main.go:38-40 | A success after any history leaves the count at 0 and prints no alert. |
| Scheduler.NoImmediateRealert | main.go:34-37 | The failure right after an alert does not alert again: the count restarts at 1. |
| Scheduler.FailureCounter.Tick | main.go:31-40 | A tick updates the counter field and returns the alert exactly as `Step` does, and keeps the count between 0 and 2. |
| Scheduler.Run | main.go:21-42 | For each tick, the loop reports the warnings that poll prints and whether the alert follows it. The alert flags match `Replay` started from 0. |
| Scenarios.BodyOutcome | main.go:61-106 | A body written as `v0, v1, ..., v6` is read back and evaluated on exactly those values. |
| Scenarios.QuietPoll | main.go:81-108 | For `10, 100, 50, 100, 50, 100, 50` the poll succeeds without warnings. |
| Scenarios.HighLoad | main.go:81-83 | For `35, 100, 50, 100, 50, 100, 50` only the load warning appears, carrying 35. |
| Scenarios.MemoryAndDisk | main.go:85-98 | For `10, 100, 90, 1000000, 950000, 100, 50` the agent warns about memory at 90 percent, then about the disk with 0 Mb free. |
| Scenarios.WrongFieldCount | main.go:62-65 | A body that does not have exactly six commas once trimmed fails the poll. |
| Scenarios.NoResponse | main.go:46-60 | Without a readable 200 reply the poll fails. This holds by definition, because HTTP failures reach the model only as `None`. |
| Scenarios.ThresholdEdges | main.go:86-94 | The limits apply to the truncated percentage: 805 of 1000 used (80.5 percent) gives no memory warning and 810 of 1000 gives one carrying 81. For the disk, 905 of 1000 gives no warning and 910 of 1000 gives one. |
| Scenarios.ThreeFailures | main.go:32-37 | Three failures in a row alert once, after the third. A fourth failure does not alert again. |

## Left out

- HTTP: the request, the 3-second timeout, the status check, draining and closing the body, and the read itself are not modelled. `Poll` instead receives the body of a 200 reply, or `None` when any of those steps fails.
- The five-second ticker and the signal handling are not modelled. `Run` instead receives the replies of the ticks that happen before the termination signal, as a finite sequence in order.
- Printing with `fmt`: each tick returns its warnings and its alert flag as values (`Stats.Warning`, `Scheduler.TickReport`), and the text of the messages is not modelled.
- Stats.Percent: the `float32` division, the multiplication by 100 and the conversion to `int` are idealised as exact rational arithmetic truncated toward zero. The model therefore leaves out `float32` rounding for large or close values, and the conversion of an out-of-range float, which Go leaves implementation-defined.
- Stats.Poll: in Go the body is a byte string. `string(response)` copies the bytes unchanged, and only `TrimSpace` decodes them as UTF-8. The model takes the body as a sequence of code points, so invalid UTF-8 has no counterpart. In Go an invalid byte decodes to U+FFFD, which `TrimSpace` never removes and `Atoi` rejects, so a body holding an invalid byte always fails. In the model, a body holding any other character that is not white space, a digit or a comma fails in the same way.
- GoInt.Quo: only positive divisors are modelled. Every division in the agent is by a positive divisor: 1024, 1000, or an available amount already checked to be positive.
- GoStrings.Split: only one-character separators are modelled, because the agent splits on `,` only.
- GoStrings.TrimSpace: built as a left trim followed by a right trim over a white-space set. The set is Unicode's `White_Space` as Go's `unicode.IsSpace` uses it (tab to carriage return, space, U+0085, U+00A0, U+1680, U+2000 to U+200A, U+2028, U+2029, U+202F, U+205F, U+3000), not only ASCII.
- GoStrconv.Atoi: a 64-bit platform is assumed, so values are accepted up to the 64-bit bounds. On a 32-bit platform Go's `int` has 32 bits, so `Atoi` rejects any field outside -2147483648 to 2147483647 (a disk size over 2 GiB, for example) and the poll fails. The model does not capture that.
- GoStrconv.Atoi: only whether it succeeds and the value it returns are modelled. The error value's kind (syntax or range) is not.
- The code of Go's standard library (`strings`, `strconv`, `net/http`) is not part of this model. The functions the agent uses from `strings` and `strconv` (`TrimSpace`, `Split`, `Atoi`) are modelled from their documented behaviour, in `GoStrings` and `GoStrconv`.
- Scenarios: the examples are stated on bodies built by `Stats.RenderLine` with `, ` between the values, not on string literals.
