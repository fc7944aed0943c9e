# vExec remote-process wait and exit status, modelled in Dafny

vExec (`vexec.py`) runs one command inside a vSphere virtual machine's guest
through VMware Tools. It looks the VM up by exact name, starts the program in
the guest, polls the guest's process list until the process ends or a deadline
passes, and turns the result into its own process exit status. This project
models the logic of that flow. The hypervisor calls are oracles:

- `ListProcessesInGuest` is a function from the ordinal of a query to its reply.
  A reply is a fault or a list of process entries, of which only `exitCode` is read.
- `StartProgramInGuest` is a function from the program specification to a pid or a fault.
- The inventory is a sequence of VMs, and the connection is a flag saying whether it succeeds.
- The clock is an integer. Each sleep advances it by the poll interval, and queries take no time.

Modules, one per part of `vexec.py`:

- `Inventory`: `find_vm_by_name` as a first-match function (`FirstMatch`) and the loop that computes it (`FindVmByName`).
- `Launcher`: the `ProgramSpec` built before `StartProgramInGuest`, and the reply of that call.
- `Poller`: `wait_for_process`. This is the loop method `WaitForProcess`, proved equal to the recursive specification `Poll`, with lemmas on `Poll`: the shape of every run, bounds on queries and elapsed time, the first decisive reply wins, and time-out followed by the grace query.
- `ExitStatus`: the `& 0xFF` byte mask (a bitwise AND on unbounded integers, proved equal to `% 256`) and the exit status of `main`. `sys.exit` raises `SystemExit`, which the `except Exception` handler does not catch.
- `Arith` and `Wrappers`: helpers (division facts, `Option`).

Notes on the code's behaviour:

- The program path is never checked for being empty. `BuildProgramSpec` accepts any path.
- A launch that returns no pid is only logged; the wait then polls with `pids=[None]`.
- The first query is made at entry and queries take no time, so a code first seen at the fifth query is seen 4 intervals after entry.
- The status for a reported code `c` is `c & 0xFF`, which equals `c mod 256` also for negative `c`.

## Model

| member | source | states |
|---|---|---|
| `Inventory.FirstMatch` | vexec.py:69-76 | `None` exactly when no VM name equals the requested name; otherwise the index of a VM with that exact name, with no match before it |
| `Inventory.FindVmByName` | vexec.py:61-76 | the loop with early return yields the first exact-name match; `None` iff no VM in the view has the name; a returned VM is in the view and has that name |
| `Launcher.BuildProgramSpec` | vexec.py:89-91 | path and arguments are passed through; `workingDirectory` is set iff `working_dir` is truthy (present and non-empty), and then equals it; the spec never carries an empty working directory |
| `Poller.LoopVerdict` | vexec.py:115-133 | a reply that is not "still running" ends the loop: it raises iff the query raised, gives `None` iff the list is empty, otherwise gives the first entry's exit code |
| `Poller.GraceValue` | vexec.py:138-146 | the grace query's result: a fault is swallowed into `None`, an empty list gives `None`, a non-empty list gives the first entry's `exitCode`, which may be `None` |
| `Poller.Poll` | vexec.py:113-146 | every wait issues at least one query and never returns before the clock reading it started at |
| `Poller.Wait` | vexec.py:108-114 | `wait_for_process` issues at least one query, starting at the entry clock reading |
| `Poller.WaitForProcess` | vexec.py:108-146 | the while loop, with its early returns, the sleep and the grace query, produces the result, the number of queries and the clock reading of the specification `Wait` |
| `Poller.TicksStep` | vexec.py:113-136 | each sleep uses up exactly one of the in-time queries left before the fixed deadline |
| `Poller.PollShape` | vexec.py:113-146 | every query before the last found the process still running; the last query is either in time and decides the result (a fault propagates), or it is the single grace query after the deadline, made at entry or right after an in-time query |
| `Poller.PollClock` | vexec.py:113-136 | the clock at return is the entry reading plus one poll interval per query before the last: only sleeps move the clock |
| `Poller.PollBounds` | vexec.py:113-146 | at most one query per in-time tick plus the grace query; the wait returns no later than one interval after the deadline; with the deadline already passed, only the grace query is made, at once |
| `Poller.PollFirstDecisive` | vexec.py:114-133 | the first in-time reply that is not "still running" decides the result, and no query follows it |
| `Poller.PollNeverFinishes` | vexec.py:114-146 | if the process is running at every in-time query, exactly `LoopTicks` loop queries are made, then one grace query, whose value is the result; it never raises |
| `Poller.WaitBounds` | vexec.py:113-146 | with `timeout >= 0`, at most `timeout / poll_interval + 2` queries (loop plus grace), and at most `timeout / poll_interval + 1` when the wait ends inside the loop, and an elapsed time of at most `timeout + poll_interval`; with a negative timeout, one grace query at entry |
| `Poller.WaitVanished` | vexec.py:124-127 | an empty list from the first query gives `None` after that single query, whatever the timeout |
| `Poller.WaitFaultPropagates` | vexec.py:115-122 | a fault from an in-time query is raised at once, with no retry and no grace query |
| `Poller.WaitFaultOnlyInLoop` | vexec.py:115-146 | the wait raises only when an in-time query raised; the grace query's fault never escapes |
| `Poller.WaitCodeFromFirstEntry` | vexec.py:129-143 | a returned exit code is the first entry's `exitCode` of the last reply; no other entry is consulted |
| `ExitStatus.BitAndOnesStep` | vexec.py:198 | masking with `2p - 1` keeps the low bit and masks the rest with `p - 1` |
| `ExitStatus.BitAndLowBits` | vexec.py:198 | `BitAnd` models Python's `&` on integers with a non-negative mask; `a & (2^n - 1)` equals the non-negative remainder `a mod 2^n`, negative `a` included |
| `ExitStatus.ByteMask` | vexec.py:198 | Python's `a & 0xFF` equals `a mod 256` for every integer `a` |
| `ExitStatus.MaskExitCode` | vexec.py:196-198 | `exit_code & 0xFF` lies in [0, 255], equals the code modulo 256, and leaves codes already in [0, 255] unchanged |
| `ExitStatus.WaitTermination` | vexec.py:189-200 | after the wait: a fault becomes an exception, `None` requests status 3, a code `c` requests `c mod 256` |
| `ExitStatus.MainExitStatus` | vexec.py:158-204 | `MainBody` models the `try` body (vexec.py:159-200) and ends in `sys.exit(status)` or an exception; the exit status is always a byte; a requested `sys.exit` status passes through the `except Exception` handler unchanged, and only an exception becomes 1 |
| `ExitStatus.MainLaunchFailures` | vexec.py:159-181 | a failed connection, or a launch fault after the VM was found (bad guest login or any other fault), exits with 1 |
| `ExitStatus.MainExitTwo` | vexec.py:161-164 | status 2 iff connected and no VM has the name, or the guest's code is 2 modulo 256 |
| `ExitStatus.MainExitOne` | vexec.py:202-204 | status 1 iff an exception was raised (connection, launch or in-time query fault) or the guest's code is 1 modulo 256 |
| `ExitStatus.MainAfterWait` | vexec.py:189-200 | once the wait is reached: a raised wait gives 1, an unknown code gives 3, a code `c` gives `c mod 256` |
| `ExitStatus.MainCompleted` | vexec.py:129-133 | a code `c` reported by an in-time query after only running replies makes `main` exit with `c mod 256` |
| `ExitStatus.MainVanished` | vexec.py:124-127 | a process that the first query no longer finds gives status 3, whatever time budget is left |
| `ExitStatus.MainTimedOut` | vexec.py:138-146 | a process running at every in-time query gives the grace query's code modulo 256, or 3 when the grace query has none or raises |
| `ExitStatus.ScenarioExitAtFifthPoll` | vexec.py:113-136 | timeout 30, interval 1, code 0 at the fifth query: five queries, seen at entry + 4, status 0 |
| `ExitStatus.ScenarioNeverFinishes` | vexec.py:113-146 | timeout 5, interval 2, never finishing: queries at entry + 0, 2 and 4, the grace query at entry + 6, result `None`, status 3 |

## Left out

- `connect_vsphere`, `SmartConnect`, SSL context creation and `Disconnect` (vexec.py:41-58, 205-211) are session I/O in a library that is not part of this model. A connection is a flag, and a failure of `Disconnect` is swallowed without changing the status.
- `parse_args`, the `getpass` prompts and the logging setup (vexec.py:20-38, 150-156) are console glue. The parsed options are a value, `ExitStatus.Options`.
- Failures of `RetrieveContent`, `CreateContainerView` or `obj_view.Destroy()` inside `find_vm_by_name` (vexec.py:66-74) are not modelled; a fault from any of them, including `Destroy()` after a VM was found, would give status 1. The container view is given as a sequence.
- The VMware Tools status check (vexec.py:166-171) only logs a warning and changes no control flow.
- `StartProgramInGuest` and `ListProcessesInGuest` are oracles. Their fault classes (`InvalidGuestLogin`, `MethodFault`, any other exception) are all re-raised unchanged, so each is one fault value.
- The pid is not part of the query oracle. Every query uses the same filter `pids=[pid]`, and for a missing pid the code only logs and polls with `[None]`; no matching strategy is modelled.
- Time is whole ticks, not floating-point seconds. Queries take no time, and a sleep lasts exactly one poll interval.
- `Poller.WaitForProcess`: requires `poll_interval > 0`. With a negative interval, Python's `time.sleep` raises (status 1). With a zero interval, the wait only ends because the real clock moves during queries, which the zero-time clock cannot express.
- The fallback `sys.exit(0)` when `int(exit_code)` fails (vexec.py:199-200) is unreachable. The exit code is an integer in the model.
