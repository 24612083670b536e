# Portfolio terminal: command dispatch and history recall

This project models the controller logic of a simulated command-line terminal
on a portfolio web page. A visitor types a line and presses Enter. The line is
trimmed, recorded in a bounded command history and echoed into the transcript.
It is then looked up, ignoring case, in a fixed registry of ten commands:
`help`, `about`, `whoami`, `projects`, `skills`, `contact`, `socials`,
`resume`, `clear` and `exit`. The command's reply, or a "Command not found" message,
is appended after the echo. `clear` empties the transcript instead. ArrowUp and ArrowDown recall earlier
commands, and Tab completes a prefix when exactly one command name matches it.

Modules, one per part of the source:

- `Text`: JavaScript's `trim` (ECMAScript whitespace and line terminators) and
  `toLowerCase`, which the terminal applies to typed text.
- `TerminalHistory`: the `useTerminalHistory` hook. It holds a class `History`
  with the fields `history` and `currentIndex`, one method per operation of the
  hook, and the pure functions those methods are specified by: `Added` (at most
  50 entries, consecutive repeats coalesced), `Navigated` (the clamped cursor)
  and `CommandAt` (cursor 0 is the newest entry).
- `Commands`: the registry `Registry` in declaration order, `ExecuteCommand`,
  and Tab completion (`Matching`, `Complete`).
- `TerminalController`: the `Terminal` component. It holds a class `Terminal`
  with `input`, `lines`, its own cursor `historyIndex` and a `History` object.
  Its methods are `HandleSubmit`, `HandleKeyDown` and `HandleChange`.
  `Transcript` is the pure function the transcript update is specified by.

The reply texts of the nine text commands are fixed templates over static
portfolio data. The model takes them as a parameter, `Replies`. `clear` has no
reply text: its effect on the transcript is modelled as the `clearsTranscript`
flag of an `Outcome`. The flag is applied in the order the state updates are
queued in the source. The echo is appended first, then `clear` empties the
transcript, then a non-empty reply is appended. So `clear` leaves no line, not
even its own echo.

The line type `error` exists in the transcript's type, but the code never
produces it. A line that names no command gets its "Command not found" text as
an `output` line, and the model does the same. The component keeps its own cursor
`historyIndex` and never reads the hook's `currentIndex`. Both cursors are
modelled, separately. `HandleSubmit` resets both, as the source does.

## Model

| member | source | states |
|---|---|---|
| Text.Trim | src/components/Terminal.tsx:96 | the result has no whitespace at either end, is empty exactly when the input is all whitespace, and is a contiguous piece of the input with only whitespace cut from each side |
| Text.TrimPadded | src/components/Terminal.tsx:96 | trimming whitespace-padded text that has no whitespace at its ends gives back exactly that text |
| Text.TrimTrimmed | src/components/Terminal.tsx:111 | trimming already-trimmed text changes nothing |
| Text.LowerChar | src/components/Terminal.tsx:96 | `A`-`Z` become the matching letter `a`-`z`, the Kelvin sign becomes `k`, every other character is kept; so no upper-case ASCII letter comes out, and whitespace stays whitespace |
| Text.Lower | src/components/Terminal.tsx:96 | lower-casing keeps the length and maps each character on its own |
| Text.LowerIdempotent | src/components/Terminal.tsx:96 | lower-casing twice is the same as lower-casing once |
| TerminalHistory.LastN | src/hooks/useTerminalHistory.ts:15 | `slice(-50)` keeps the last 50 elements, or all of them when there are fewer |
| TerminalHistory.Added | src/hooks/useTerminalHistory.ts:7-17 | a command equal to the last entry leaves the log unchanged (exact string equality; an empty log never matches); otherwise the new log is a suffix of the old log plus the command, ends with the command, and has length `min(old + 1, 50)` |
| TerminalHistory.AddedBounded | src/hooks/useTerminalHistory.ts:14-15 | from a log within the cap, the new log never exceeds 50 entries, never gets shorter, and ends with the command just added |
| TerminalHistory.AddedTwice | src/hooks/useTerminalHistory.ts:9-12 | adding the same command twice in a row has the effect of adding it once |
| TerminalHistory.FullLogDropsOldest | src/hooks/useTerminalHistory.ts:14-15 | on a full log, a new command drops exactly the oldest entry |
| TerminalHistory.AddAllKeepsNewest | src/hooks/useTerminalHistory.ts:7-17 | adding commands with no consecutive repeats keeps them all in order, and the log is the last 50 of the old log followed by the commands (so 51 distinct commands leave 50, the first dropped) |
| TerminalHistory.CoalescesRepeats | src/hooks/useTerminalHistory.ts:9-12 | submitting a, b, b, c to an empty log leaves a, b, c |
| TerminalHistory.Navigated | src/hooks/useTerminalHistory.ts:19-26 | a cursor in `[-1, len-1]` stays there; up moves one entry older or stops at the oldest; down moves one entry newer or stops at -1 |
| TerminalHistory.Ups | src/hooks/useTerminalHistory.ts:22 | n presses of up from a cursor in range give `min(i + n, len - 1)`, which is -1 when the log is empty |
| TerminalHistory.Downs | src/hooks/useTerminalHistory.ts:24 | n presses of down give `max(i - n, -1)` |
| TerminalHistory.UpsThenDowns | src/hooks/useTerminalHistory.ts:19-26 | from -1, any n presses of up followed by n presses of down return the cursor to -1 |
| TerminalHistory.CommandAt | src/hooks/useTerminalHistory.ts:33-36 | cursor -1 recalls the empty string, any other cursor recalls an entry of the log, and cursor 0 recalls the newest entry |
| TerminalHistory.NewestAtZero | src/hooks/useTerminalHistory.ts:33-36 | right after a command is added, cursor 0 recalls that command |
| TerminalHistory.CommandAtOlder | src/hooks/useTerminalHistory.ts:33-36 | after one more entry is appended, the same entry sits one cursor position further back |
| TerminalHistory.History.constructor | src/hooks/useTerminalHistory.ts:4-5 | the log starts empty and the cursor at -1 |
| TerminalHistory.History.AddToHistory | src/hooks/useTerminalHistory.ts:7-17 | the log becomes `Added(old log, command)`, the cursor does not change, and the log stays within 50 entries with the cursor in range |
| TerminalHistory.History.NavigateHistory | src/hooks/useTerminalHistory.ts:19-27 | the cursor becomes `Navigated(old cursor, length, direction)` and the log does not change |
| TerminalHistory.History.ResetNavigation | src/hooks/useTerminalHistory.ts:29-31 | the cursor becomes -1 and the log does not change |
| TerminalHistory.History.GetCurrentCommand | src/hooks/useTerminalHistory.ts:33-36 | the empty string at cursor -1, otherwise the entry at `length - 1 - cursor` |
| Commands.KeyOf | src/components/Terminal.tsx:19-93 | the key of each of the ten commands (a definition; its properties are stated by `KeyShape`, and the declaration order by the constant `Registry`, whose membership and uniqueness `RegistryComplete` and `RegistryDistinct` state) |
| Commands.RegistryComplete | src/components/Terminal.tsx:147 | every one of the ten commands is in the registry |
| Commands.RegistryDistinct | src/components/Terminal.tsx:19-93 | no command appears twice in the registry |
| Commands.KeyShape | src/components/Terminal.tsx:19-93 | every key is a word of at least two lower-case ASCII letters, and its first two letters identify the command |
| Commands.KeysPrefixFree | src/components/Terminal.tsx:19-93 | no key is a prefix of a different key |
| Commands.Lookup | src/components/Terminal.tsx:100-101 | a hit is the command whose key equals the lookup key; a miss means no command has that key |
| Commands.LookupKeyOf | src/components/Terminal.tsx:100-101 | looking up a command's own key finds that command |
| Commands.LookupKey | src/components/Terminal.tsx:96 | the lookup key has no whitespace at its ends and no upper-case ASCII letter, is no longer than the line, and is empty exactly when the line is all whitespace |
| Commands.NotFound | src/components/Terminal.tsx:103 | the reply is `Command not found: `, then the key verbatim, then `. Type 'help' for available commands.` |
| Commands.ExecuteCommand | src/components/Terminal.tsx:95-105 | an empty lookup key yields no text and no clearing; a command's key yields its reply text, except `clear`, which yields no text and clears; any other key yields exactly `Command not found: <key>. Type 'help' for available commands.` |
| Commands.OnlyClearClears | src/components/Terminal.tsx:86-89 | a line clears the transcript exactly when its lookup key is `clear`, and then it yields no text |
| Commands.LookupKeyIdempotent | src/components/Terminal.tsx:96 | trimming and lower-casing a lookup key again changes nothing |
| Commands.ExecuteNormalizes | src/components/Terminal.tsx:96-101 | running a line gives the same outcome as running its trimmed, lower-cased form, for every line |
| Commands.PaddedName | src/components/Terminal.tsx:96-101 | a command name in any letter case, padded with whitespace, runs that command and yields its reply |
| Commands.BlankLine | src/components/Terminal.tsx:98 | an empty or whitespace-only line yields no text and does not clear |
| Commands.Matching | src/components/Terminal.tsx:147-148 | the filter holds exactly the commands whose key starts with the prefix, and is a subsequence of the registry, so registry order is kept |
| Commands.MatchingDistinct | src/components/Terminal.tsx:148 | filtering a list without repeats gives a list without repeats |
| Commands.SingleMatch | src/components/Terminal.tsx:148-149 | the filter yields exactly one command exactly when one key starts with the prefix |
| Commands.Complete | src/components/Terminal.tsx:145-151 | when exactly one key starts with the lower-cased input, that key replaces the input; otherwise the input is returned unchanged (not trimmed) |
| Commands.CompleteKey | src/components/Terminal.tsx:145-151 | Tab leaves a complete key as it is |
| Commands.CompleteIdempotent | src/components/Terminal.tsx:145-151 | pressing Tab twice has the effect of pressing it once |
| Commands.AmbiguousPrefixes | src/components/Terminal.tsx:147-151 | Tab leaves the empty input, `c` (clear, contact) and `s` (skills, socials) unchanged |
| Commands.CompletionExamples | src/components/Terminal.tsx:147-151 | `PR` completes to `projects` and `cl` to `clear`; ` pr` is not trimmed and stays as it is |
| TerminalController.Echo | src/components/Terminal.tsx:117 | the echo is an `input` line carrying the submitted text and the prompt `visitor@cybersec-portfolio:~$` |
| TerminalController.Transcript | src/components/Terminal.tsx:116-123 | without `clear`, the old transcript plus the echo is a prefix of the new one; the length is 0 or old + 1, plus 1 for a non-empty reply; a non-empty reply is the last line, typed `output`; no `error` line is ever added |
| TerminalController.SubmitClear | src/components/Terminal.tsx:86-89 | submitting `clear` leaves the transcript empty, without even its echo |
| TerminalController.SubmitUnknown | src/components/Terminal.tsx:103 | a trimmed line naming no command adds its echo and then the not-found text for its lower-cased form, as an `output` line |
| TerminalController.UnknownOutcome | src/components/Terminal.tsx:103 | a trimmed line whose lower-cased form is no command key yields the not-found text for that form and does not clear the transcript |
| TerminalController.SubmitText | src/components/Terminal.tsx:117-123 | a text command adds its echo, then its reply as an `output` line when the reply is not empty |
| TerminalController.Terminal.constructor | src/components/Terminal.tsx:11-17 | empty input, empty transcript, both cursors at -1, empty history |
| TerminalController.Terminal.HandleChange | src/components/Terminal.tsx:242 | the input becomes the typed value; transcript and cursor are unchanged |
| TerminalController.Terminal.HandleSubmit | src/components/Terminal.tsx:107-126 | a whitespace-only input changes nothing at all; otherwise the trimmed input, with its original case, is added to the history, both cursors become -1, the transcript becomes `Transcript(old, trimmed, ExecuteCommand(trimmed))` and the input is cleared |
| TerminalController.Terminal.HandleKeyDown | src/components/Terminal.tsx:128-153 | ArrowUp on an empty history does nothing, otherwise it moves `historyIndex` to `min(i + 1, len - 1)` and recalls that entry; ArrowDown moves it to `max(i - 1, -1)` and recalls that entry, or empties the input at -1, even over unsent text; Tab sets the input to `Complete(input)`; the transcript and the history never change |
| TerminalController.RecallRoundTrip | src/components/Terminal.tsx:129-144 | from -1, n ArrowUp presses then n ArrowDown presses bring the cursor back to -1, where the recalled entry is empty; for n >= 1 the last ArrowDown copies that empty entry into the input (`HandleKeyDown`) |

## Left out

- Reply texts of `help`, `about`, `whoami`, `projects`, `skills`, `contact`, `socials`, `resume` and `exit` (src/components/Terminal.tsx:20-92 and src/data/portfolioData.ts): these are fixed templates over static data, so they enter as the `Replies` parameter. The `forEach` loops that build three of them are not modelled.
- The 3D scene (src/components/Scene3D.tsx) and the line renderer (src/components/TerminalLine.tsx): these are presentation only.
- The welcome message, the `isTyping` flag and its 1000 ms timer, input focus and scroll-to-bottom (src/components/Terminal.tsx:156-196): these are timer and DOM plumbing. The model's handlers are available from construction on, whereas the page shows the input form only after the timer fires.
- Inherited properties: `commands[key]` indexes a plain object, so a lower-cased key that names an `Object.prototype` member reaches it. Only `constructor` and `__proto__` are all lower case. For `constructor` the source calls `Object()`, and the empty object it returns becomes the content of an output line. For `__proto__` the call throws a TypeError, after the history update and the echo were already queued. The model looks up only the ten own keys and treats both as unknown commands.
- React's update queueing, batching and stale closures (for example `navigateHistory` capturing `history.length`): each handler is one atomic, sequential state change, with its updates applied in the order the source queues them.
- `preventDefault` and the browser's default handling of keys other than ArrowUp, ArrowDown and Tab. Other keys are one `OtherKey` that the handler ignores.
- Text.LowerChar: maps only A-Z and the Kelvin sign U+212A (to `k`); JavaScript's other Unicode case mappings are not modelled. Each of them yields a non-ASCII character (U+0130 yields `i` followed by a combining dot), so whether a line matches a key or a Tab prefix is the same under both. Only the key quoted in the not-found text can differ.
- Strings are sequences of Unicode scalar values, not UTF-16 code units; lone surrogates are not modelled.
