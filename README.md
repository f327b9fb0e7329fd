# Build monitor bot: log retention, notifier retries and the build read loop

This project models the small sequential rules inside the Telegram build bot
of `kernel_builder` (`bot.py`), with the chat, the subprocess, the file system
and HTTP replaced by abstract inputs and state:

- **Log retention.** The log directory `LOG_DIR` is a class `LogDirectory`
  holding the set of file names. `os.listdir` is `ListNames`, which gives every
  name once in no particular order. `os.remove` and `open(..., 'w')` remove and
  add a name. `cleanup_old_logs` (run after every build) and the `/clean`
  command both sort the names with Python's string order and delete all but
  the last `MAX_LOG_FILES` = 10. Both are proved to leave exactly
  `Greatest(files, 10)`: the names with fewer than ten names above them.
  Both methods also state that min(10, M) of M names remain. Lemmas show that
  every kept name sorts after every removed one and that trimming twice
  changes nothing. No new name can appear: `Greatest(files, n)` is defined as
  a subset of `files`.
- **Log listing.** `/logs` sorts the names in reverse and shows the first five,
  or says that there are none. It is proved to show the five greatest names,
  greatest first.
- **Display notifier.** `send_to_esp8266` makes up to three HTTP attempts and
  stops at the first status 200. Each attempt's result is scripted as
  `Status200`, `OtherStatus` or `Raised`. The model gives the return value,
  the number of requests and the log records written.
- **Build read loop.** `build_kernel` reads the script's output line by line
  until it gets an empty read after `poll()` reports exit. It writes every
  non-empty line to the log. `if "Applying patch" ... elif "Building kernel"`
  turns a line into a display notification. Each pass of the loop is scripted
  as a `Line(text, exited)` pair or as `Raises`, a pass whose `readline` or
  log write raises. The return code then picks the success or the failure
  reply, display text and document caption. An exception (the log cannot be
  opened, the script cannot be started, or a pass raises) gives the
  "critical error" reply instead. Trimming runs in `finally` on every path
  that leaves the handler.

Python's `str` comparison is modelled as `StringOrder.LessEq` (code point by
code point, a proper prefix first). `sorted` is an insertion sort, `Sort`,
proved to give a strictly ascending sequence of the same names.

`bot.py` has no kernel-name or image-path markers, no guard against two
builds at once, no stop command, no 30-minute ceiling on the build, no archive
packaging and no switch that turns the notifier off, so the model has none of
them either. Its only build timeout is an `except subprocess.TimeoutExpired`
that nothing can reach, because `Popen` and `readline` are given no timeout
(see "Left out"). The other timeouts in `bot.py` are those of the HTTP
requests to the display (bot.py:57 and bot.py:206).

Files: `string_order.dfy` (module `StringOrder`), `retention.dfy`
(`Retention`), `log_store.dfy` (`LogStore`), `notifier.dfy` (`Notifier`),
`build.dfy` (`Build`).

## Model

| member | source | states |
|---|---|---|
| `StringOrder.LessTrichotomy` | bot.py:45 | Two different names are ordered one way and only one way, so the order `sorted` uses is total and strict. |
| `StringOrder.LessTransitive` | bot.py:45 | The string order `sorted` uses is transitive. |
| `StringOrder.Sort` | bot.py:45 | `sorted` on a listing without repeats gives a strictly ascending sequence of the same length holding exactly the listed names. |
| `StringOrder.DistinctCard` | bot.py:187 | A listing without repeats has as many entries as the directory has names, so `len(logs)` is the number of files. |
| `StringOrder.ReverseAscending` | bot.py:169 | `sorted(..., reverse=True)` gives a strictly descending sequence of the same names. |
| `Retention.GreatestIsSortedSuffix` | bot.py:45-47 | Keeping the last n entries of the sorted names keeps exactly the n greatest names of the directory. |
| `Retention.GreatestSize` | bot.py:46 | Of M names, min(n, M) are kept. |
| `Retention.GreatestSeparates` | bot.py:45-47 | Trimming removes only the front of the sorted order: every kept name sorts after every removed one. |
| `Retention.GreatestOfSmall` | bot.py:46 | A directory with at most n names keeps all of them. |
| `Retention.GreatestIdempotent` | bot.py:46 | Trimming an already trimmed directory changes nothing. |
| `LogStore.LogDirectory.ListNames` | bot.py:45 | `os.listdir` lists every name of the directory exactly once. |
| `LogStore.LogDirectory.Create` | bot.py:107 | Opening the run's log for writing adds its name to the directory. |
| `LogStore.LogDirectory.Remove` | bot.py:47 | `os.remove` takes exactly that name out of the directory. |
| `LogStore.LogDirectory.PopOldest` | bot.py:46-47 | Popping and deleting the front of the sorted names while more than 10 remain leaves the last 10 of them in the list and in the directory. |
| `LogStore.LogDirectory.CleanupOldLogs` | bot.py:42-49 | Sorting and popping leaves exactly the 10 greatest names (all of them when there are at most 10), so min(10, M) of M names remain. |
| `LogStore.LogDirectory.CleanLogs` | bot.py:183-198 | With at most 10 logs nothing is deleted and the reply is "no cleanup needed" with the count. With M > 10 logs exactly M−10 are deleted, the 10 greatest remain, 10 names in all, and the reply reports M−10. |
| `LogStore.ReversedTailShowsLatest` | bot.py:169-175 | The reversed last five of the sorted names are the five greatest names, greatest first, min(5, M) of them. |
| `LogStore.SelectLatest` | bot.py:169-177 | An empty listing gives the "no logs found" reply, and only then. Otherwise the reply shows min(5, M) names, the greatest ones, in descending order. |
| `LogStore.LogDirectory.ListLogs` | bot.py:166-177 | `/logs` answers "no logs found" exactly when the directory is empty. Otherwise it shows the five greatest names, greatest first. |
| `Notifier.GaveUpOnlyOnLastRaise` | bot.py:61-64 | The "failed after 3 attempts" error is logged only when three attempts were made and the third one raised. A final non-200 reply logs nothing. |
| `Notifier.SendToDisplay` | bot.py:51-65 | One to three requests. Returns true iff one of the first three replies is 200, and then stops at the first 200. Without a 200 it makes exactly three requests. The log holds one warning per raised attempt, the info on success, and the error only when the third attempt raised. |
| `Build.ContainsIffOccurs` | bot.py:126-128 | The substring test `p in s` holds exactly when `p` occurs in `s` at some position. |
| `Build.Classify` | bot.py:126-129 | A line with the patch marker anywhere gives Patching, even if it also has the build marker. A line with only the build marker gives Building. Any other line announces nothing. |
| `Build.StopAt` | bot.py:118-121 | The loop is left at the first pass that either reads nothing while `poll()` reports exit or raises, and at no earlier pass. |
| `Build.WrittenAppend` | bot.py:122-123 | Lines reach the log in arrival order: the lines of two runs of reads are those of the first run followed by those of the second. |
| `Build.WrittenNonEmpty` | bot.py:122-123 | Every logged line is non-empty, and there is one logged line per non-empty read. |
| `Build.LogContentIsOutput` | bot.py:119-123 | The log file's content is the concatenation of every read before the end, in order (skipping empty reads drops nothing). |
| `Build.PumpOutput` | bot.py:118-129 | The pump logs exactly the non-empty reads before the pass that leaves the loop and announces the phases of those lines in order. It reports whether that pass was the ending read or one that raised, and stops right after it, or reports that the output never ended. |
| `Build.VerdictOf` | bot.py:131-152 | Return code 0 selects the success reply, the "Build Success" display text and the success caption. Any other code selects the failure reply, "Build Failed" and the failure caption. |
| `Build.BuildKernel` | bot.py:95-164 | A `/build` run announces "Build Started", creates its log unless `open` fails, and pumps the output. It reports a critical error, sends no document and shows "Critical Error" after the phases already announced exactly when the log cannot be opened, the script cannot be started or a pass raises; the lines logged before that stay in the log. When the loop ends normally it reports success or failure by return code and sends the log with the matching caption. On every path that leaves the handler, the directory is trimmed to its 10 greatest names, the new log included when it was created. |

## Left out

- Telegram replies, Markdown texts, `send_document`, command and menu registration, `/start`, `/help` and `main` (bot.py:67-93, 233-265): user-interface library calls. Replies and captions are enumerated values, not their Russian texts.
- `subprocess.Popen`, the real `readline` and `poll`, `os.listdir`, `os.remove`, `getsize` and `requests.get`: I/O, replaced by the scripted `Read` values, the `Start` value (whether `open` and `Popen` succeed), the return code and the `LogDirectory` state.
- `system_status` (psutil, `uptime`, CPU and memory percentages) and `restart_bot`'s `os.execv` (bot.py:200-231): I/O and replacement of the process image.
- The timestamped log name (bot.py:103): `datetime.now()` is a clock, so the name is an input of `BuildKernel`.
- The `except subprocess.TimeoutExpired` branch (bot.py:154-157): nothing passes a timeout, so it cannot be reached.
- File contents and sizes: `LogDirectory` holds names only. The written lines are an output of the pump, and `LogContentIsOutput` states what the file holds. The KB size in `/logs` is a float and is not modelled (bot.py:176).
- The console mirror `logger.info(output.strip())` (bot.py:124) and the other logger calls outside `send_to_esp8266`: logging only.
- Deletion and listing failures caught by the `except` clauses of `cleanup_old_logs`, `clean_logs` and `list_logs`: the directory changes only through this model, so a listed name is always there to delete. `LogDirectory.Remove` requires the name to be present.
- BuildKernel: exceptions raised by the Telegram calls inside the `/build` handler (the replies and `send_document`, bot.py:133-152) are not modelled; the model raises only when the log cannot be opened, the script cannot be started, or a pass of the read loop raises. The text of the exception in the "critical error" reply is not modelled either.
- The retries of each `send_to_esp8266` made by `/build`: `build_kernel` ignores their result, so `BuildKernel` records only the texts it asks to show.
- SendToDisplay: needs a scripted reply for each of the three possible attempts; the remaining entries are never read.
- Sort: defined for listings without repeated names, which is all `os.listdir` returns.
