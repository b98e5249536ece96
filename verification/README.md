# CHIM launcher core in Dafny

A model of the decision logic inside `chim_launcher.py`, the Tk launcher that
starts, watches and stops the DwemerDistro backend. Nearly all of the launcher
is widgets and process plumbing. The parts modelled here are the sequential
logic underneath:

- **Versions** (`versions.dfy`, with `text.dfy`). `compare_versions` strips a
  dotted version string, splits it on `.`, reads every part as a decimal
  number, pads the shorter list with zeros and compares the lists from the
  left. The comparison is given an independent meaning (`Equivalent`,
  `Older`: the first differing padded component decides). The model proves
  that the loop computes exactly that meaning, and that it is antisymmetric,
  transitive and blind to trailing zeros.
- **UpdateCheck** (`update_check.dfy`). The verdict at the end of
  `check_for_updates`: update available, up to date, or could not retrieve.
- **ServerLifecycle** (`server_lifecycle.dfy`). The two flags
  `server_running` and `server_starting`, and the handlers that write them.
  These are start, a line of backend output, end of output, graceful stop and
  force stop. Each handler is an atomic transition on an immutable pair of
  flags. The model proves that the two flags are never set together.
- **Ansi** (`ansi.dfy`). `remove_ansi_escape_sequences` as a left-to-right
  scanner. The scanner is shown to match exactly the language of the regular
  expression, written as a grammar. Stripping only deletes characters, and it
  is not idempotent.
- **LogFilter** (`log_filter.dfy`). The eleven anchored patterns of
  `is_unwanted_line`, with `re.match`'s anchoring and `$` semantics. The
  model proves they reduce to six plain conditions. `append_output` tests the
  stripped text, not the raw one.
- **Launcher** (`launcher.dfy`). `run_wsl_silently`. It relays output lines
  through `append_output`, adds the ready notice after a marker line, and
  sets and clears the flags. The backend is abstract: it either cannot be
  spawned, or prints a sequence of lines and then ends or fails.

`wrappers.dfy` holds `Option` and `Result`. Where Python's `int()` would raise
`ValueError` on a version part, the model returns `None` or a `Failure`. It
does not forbid such input.

A graceful stop clears only `server_running` (chim_launcher.py:406), so
during startup `server_starting` stays set until the output ends.
`ServerLifecycle.GracefulStopDuringStartup` shows the consequence: a start
right after such a stop is refused, and a start after the output has ended
is accepted.

## Model

| member | source | states |
|---|---|---|
| Versions.Compare | chim_launcher.py:998-1007 | The result is -1, 0 or 1. It is 0 exactly when the zero-padded component lists agree everywhere. It is -1 exactly when the first padded component that differs is smaller on the left, and 1 exactly when it is smaller on the right. |
| Versions.CompareFrom | chim_launcher.py:1002-1007 | The loop from index `i` on. It returns 0 iff the padded lists agree from `i`. It returns -1 or 1 iff the first difference at or after `i` is smaller on the left or on the right, respectively. |
| Versions.CompareAntisymmetric | chim_launcher.py:988-1007 | Swapping the two versions negates the result. |
| Versions.CompareDependsOnComponents | chim_launcher.py:998-1001 | Two pairs of lists with the same padded components compare the same. |
| Versions.CompareIgnoresTrailingZeros | chim_launcher.py:998-1001 | Appending any number of zero components to either side never changes the result. |
| Versions.CompareTransitive | chim_launcher.py:1002-1007 | If a ≤ b and b ≤ c then a ≤ c, and the result is strict when either step is strict. |
| Versions.Numeral | chim_launcher.py:996 | The canonical decimal numeral of `n` is a digit string whose value is `n`. |
| Versions.ParseVersion | chim_launcher.py:996 | Parsing succeeds exactly when every part of `v.strip().split('.')` is a numeral. It then yields one component per part, there is at least one part, and each component is the decimal value of its part, as `int(part)` gives. |
| Versions.LeadingZeroIgnored | chim_launcher.py:996 | A leading zero does not change a part's value, as `int("02") == 2`. |
| Versions.ParseFormat | chim_launcher.py:996 | Printing a non-empty component list and parsing it back gives the same list. |
| Versions.CompareVersions | chim_launcher.py:988-1007 | There is a result exactly when both strings parse. It is then the comparison of the parsed lists. |
| Versions.TrailingZeroComponentEqual | chim_launcher.py:998-1001 | A printed version and the same version with `.0` appended compare equal. |
| Versions.OneTwoEqualsOneTwoZero | chim_launcher.py:988-1007 | `"1.2"` and `"1.2.0"` compare as 0. |
| Text.Split | chim_launcher.py:996 | `str.split` gives at least one part, and no part contains the separator. |
| Text.JoinSplit | chim_launcher.py:996 | Joining the parts of a split gives back the string. |
| Text.SplitJoin | chim_launcher.py:996 | Splitting a join of separator-free parts gives back the parts. |
| Text.StripCutsOnlySpace | chim_launcher.py:996 | `str.strip()` gives a contiguous slice of the input. Only whitespace is cut on either side, and no whitespace is left at either end. |
| Text.ContainsIffOccurs | chim_launcher.py:336 | `sub in s` holds exactly when `sub` occurs at some index of `s`. |
| UpdateCheck.CheckForUpdates | chim_launcher.py:1080-1099 | "Could not retrieve" exactly when either version is missing or empty. An error exactly when both are present and one does not parse. "Update available" exactly when both parse and the installed version is older. "Up to date" exactly when both parse and it is not older. |
| UpdateCheck.NewerLocalIsUpToDate | chim_launcher.py:1080-1093 | An installed version newer than the published one is reported up to date. |
| UpdateCheck.EmptyVersionCouldNotRetrieve | chim_launcher.py:1094-1099 | An empty version string on either side reads as "could not retrieve". |
| ServerLifecycle.Start | chim_launcher.py:295-301 | Start is accepted iff neither flag is set. A refused start shows the notice and changes nothing. An accepted start sets `server_starting` and leaves `server_running` as it was. |
| ServerLifecycle.OnOutputLine | chim_launcher.py:333-341 | A line containing the readiness marker sets running and clears starting. Any other line changes nothing. |
| ServerLifecycle.OnProcessEnd | chim_launcher.py:356-362 | End of output, or an exception while reading, clears both flags. |
| ServerLifecycle.StopGraceful | chim_launcher.py:364-406 | A graceful stop is refused with the "not currently running" notice iff neither flag is set, and a refusal changes nothing. Otherwise it clears `server_running` and leaves `server_starting` untouched. |
| ServerLifecycle.ForceStop | chim_launcher.py:408-440 | Force stop clears both flags from any state. |
| ServerLifecycle.RunKeepsConsistent | chim_launcher.py:295-440 | Under any sequence of handler events from a consistent state, running and starting are never both set. The launcher is always idle, starting or running. |
| ServerLifecycle.ForceStopEndsIdle | chim_launcher.py:408-440 | Any run of events that ends in a force stop leaves the launcher idle, including a force stop from idle. |
| ServerLifecycle.StartAcceptedOnlyWhenIdle | chim_launcher.py:295-301 | From a consistent state, start is accepted iff the launcher is idle. A start while running is refused with the state untouched. |
| ServerLifecycle.GracefulStopDuringStartup | chim_launcher.py:295-406 | A graceful stop during startup is accepted but keeps `server_starting`. A start right after it is refused with the "already running or starting" notice. Once the output has ended, a start is accepted. A graceful stop while running ends idle. |
| ServerLifecycle.NormalSession | chim_launcher.py:295-359 | Start, then non-marker output, stays starting. The marker line makes the launcher running, later lines keep it running, and end of output makes it idle. |
| Ansi.SequenceLengthIffGrammar | chim_launcher.py:521-531 | At an ESC, the scanner reports length `n` iff the first `n` characters are ESC plus one Fe byte, or ESC `[` then parameter bytes, intermediate bytes and one final byte. |
| Ansi.LoneEscKept | chim_launcher.py:521-532 | An ESC that starts no sequence of the grammar is kept, and stripping continues with the character after it. |
| Ansi.StripAnsi | chim_launcher.py:519-532 | The result is never longer than the input, and text without ESC is returned unchanged. |
| Ansi.StripIsSubsequence | chim_launcher.py:519-532 | The stripped text is obtained from the input by deleting characters only. |
| Ansi.LeadingSequenceRemoved | chim_launcher.py:521-532 | A complete escape sequence at the front is deleted and the rest is stripped as if it were alone. |
| Ansi.EscFreePrefixKept | chim_launcher.py:532 | Text without ESC passes through unchanged in front of whatever follows. |
| Ansi.ColouredWordStripped | chim_launcher.py:519-532 | An ESC-free word wrapped in the bold-red and reset codes strips to the word. |
| Ansi.StripNotIdempotent | chim_launcher.py:532 | Stripping `ESC ESC [ m [ m` leaves `ESC [ m`, which a second strip removes, so stripping twice differs from stripping once. |
| LogFilter.RedundantPatternsAreRuleLines | chim_launcher.py:537-545 | Every line matched by the underscore, macron, doubled-pair or group patterns is also matched by the rule-character pattern. |
| LogFilter.AnchoredLineContaining | chim_launcher.py:546-547 | `^.*X.*$` matches exactly the texts that hold `X` and have no newline except possibly a final one. |
| LogFilter.UnwantedLineCharacterization | chim_launcher.py:534-552 | `is_unwanted_line` holds iff the text is one of: all whitespace (or empty); only whitespace, `_` and `¯`; a run of `-` or of `=` (before an optional final newline); or a single line holding `¯Â` or the shutdown prompt. |
| LogFilter.TrailingNewlineIrrelevant | chim_launcher.py:549-552 | A newline-free line and the same line with its newline are judged alike. |
| LogFilter.AppendOutput | chim_launcher.py:502-508 | The display is unchanged when the escape-stripped text is unwanted. Otherwise it gains exactly the stripped text. |
| LogFilter.FilterSeesStrippedText | chim_launcher.py:502-508 | A colour reset on an empty line is not an unwanted line as raw text, but it strips to a newline, which is unwanted, so `append_output` drops it. |
| Launcher.Visible | chim_launcher.py:502-508 | What a run of texts adds to the display is no longer than the run, and holds no unwanted line. |
| Launcher.ReadOutputFlags | chim_launcher.py:333-341 | After reading the output, the launcher is running if some line carried the marker, and otherwise the flags are as they were. It reads as running exactly when it did before or a marker line came, and as starting exactly when it was starting and no marker line came. |
| Launcher.ReadOutputDisplay | chim_launcher.py:333-341 | Reading appends, in order, the visible part of every line and, after each marker line, of the ready notice. |
| Launcher.MarkerLineMarksRunning | chim_launcher.py:333-343 | Once a marker line has been read, the launcher reads as running to the end of the output. |
| Launcher.SessionOutcome | chim_launcher.py:313-351 | Every session ends with both flags cleared. A failed spawn shows only the error. A spawned backend shows the starting notice, the visible relayed output and, if reading failed, the error, in that order. |

## Left out

- The Tk user interface: windows, buttons, hover effects, animations, menus and message boxes. Refusals appear only as a `Notice` value.
- Process I/O: spawning `wsl`, writing to its stdin, `process.wait(timeout=5)`, `kill`, `wsl -t`, `explorer` and `cmd`. The backend is an abstract `Backend` value, and stop and exit are abstract events.
- The messages that `stop_wsl_thread` and `force_stop_wsl_thread` print ("has stopped", "forcefully stopped", their error texts). They come from process I/O that is not modelled, and they do not touch the flags.
- Threads and `self.after(0, …)` scheduling. Each handler is one atomic sequential transition, and the model makes no claim about interleavings. In particular, the deferred flag clearing of `update_buttons_after_process` is treated as immediate.
- Reading the installed version over `\\wsl$`, fetching the published version with `requests.get`, and the git branch query and switch. These are file, network and shell I/O. Their results enter `CheckForUpdates` as optional strings. The branch suffix of the status text is not modelled.
- Versions.ParseVersion: accepts only non-empty runs of ASCII digits as a part. Python's `int()` also takes signs, surrounding whitespace, underscores between digits and non-ASCII decimal digits. Such inputs yield `None` here rather than a number.
- UpdateCheck.CheckForUpdates: when `int()` raises, the checking thread dies and no status is set. The model reports this as `Failure(MalformedVersion)`.
- Launcher.RunWslSilently: an exception is modelled only at spawning or while reading the output. An exception raised by `append_output` itself is not modelled.
- `update_wsl`, `on_close`, component configuration and the other GUI actions. They are process and UI plumbing, outside this core.
