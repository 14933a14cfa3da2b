# A verified model of the L2J control panel and game-server extensions

This project models the sequential core of a Lineage II server setup in
Dafny and proves properties of that model. The setup has two halves:

- **The control panel (`Start.py`).** It compares dotted versions, follows
  server log files in console windows, starts and stops the login and game
  servers, watches whether they are still running, and frees the server
  ports by reading `netstat` output. Modules `VersionCompare`, `PyText`,
  `LogTailer`, `Supervisor` and `PortReaper` model it. Threads, timers and
  sub-processes become inputs: a process's liveness, what a launch returned
  and how a process reacts to a signal.
- **The HTML packets (`NpcHtmlMessage`, `TutorialShowHtml`).** They
  translate and reformat NPC and tutorial pages. This covers translation
  keys and file names, the page cache, `%key%` substitution, the `<br1>`
  wrap, link-to-button conversion, 45-character button labels, and the
  bypass whitelist built from a page. Modules `TranslationKey`, `PageCache`,
  `NpcHtml`, `TutorialHtml`, `HtmlTags`, `HtmlRegex`, `TextWrap`,
  `ButtonValues`, `LinkButtons` and `JavaReplacement` model them. Both
  classes carry identical copies of `generateTranslationKey` and
  `processHtmltags`, so one model serves both; each row below cites the copy
  in `NpcHtmlMessage.java`.
- **The game-server extensions.** These are:
  - the buffer-scheme table (`Buffers`);
  - the drop-list voiced command (`ShiffMod`);
  - the merchant's sell and shop rules (`Merchants`);
  - the translation table and the language command (`I18n`,
    `LanguageCommands`);
  - the voiced-command registry (`VoicedCommands`);
  - class balance (`ClassBalance`);
  - the icon table (`Icons`);
  - both variants of the cancel-restore mod (`CancelRestore`,
    `CancelRestoreIsolated`);
  - the drop record (`Drops`).

  `Players` holds the parts of a player that these read or change. `Text`
  holds the Java string operations the code relies on.

The code's form is kept:
- Objects whose fields change become classes with `modifies` frames.
- Loops become methods with `while` loops, proved against a specification
  function.
- Pure string code becomes functions.
- The properties the code promises are lemmas about those functions.

Database rows, configuration files, the HTML cache's files and the Jsoup
parser's results are parameters.

## Model

| member | source | states |
|---|---|---|
| VersionCompare.ParseAll | Start.py:257-263 | `list(map(int, s.split('.')))` succeeds exactly when every component parses, and then gives each component's integer in order |
| VersionCompare.Compare | Start.py:255-270 | the result is -1, 0 or 1, and -1 whenever either string has a component that is not an integer |
| VersionCompare.CompareVersions | Start.py:247-270 | the index loop over max(len) components, with missing components read as 0, returns exactly the value of `Compare` |
| VersionCompare.CmpFromZeroIff | Start.py:265-270 | from index i on, the comparison is 0 iff every component (missing ones as 0) is equal |
| VersionCompare.CmpFromOneIff | Start.py:265-270 | from index i on, the comparison is 1 iff at the first differing component the first version is larger |
| VersionCompare.CmpFromAntisymmetric | Start.py:265-270 | swapping the two component lists negates the comparison |
| VersionCompare.CompareAntisymmetric | Start.py:247-270 | for versions that parse, `Compare(b, a) == -Compare(a, b)` |
| VersionCompare.CompareZeroIff | Start.py:247-270 | two parsable versions compare equal iff they agree on every component, missing components as 0 |
| VersionCompare.CompareOneIff | Start.py:247-270 | a parsable version is greater iff it is larger at the first component where the two differ |
| VersionCompare.ParseVersionAppendZero | Start.py:258-259 | appending ".0" to a parsable version appends a 0 component |
| VersionCompare.TrailingZero | Start.py:265-270 | "s.0" and "s" compare equal both ways, so "10.5" equals "10.5.0" |
| PyText.Strip | Start.py:945 | `str.strip()` is no longer than its input and starts and ends with a non-space |
| PyText.Words | Start.py:945 | `str.split()` yields non-empty tokens without whitespace |
| PyText.SplitOn | Start.py:258 | `str.split(sep)` yields at least one part and no part contains the separator |
| PyText.ParseInt | Start.py:948 | Python `int()` succeeds only on text that holds a digit (ASCII digits; see Left out) |
| PyText.ParseDigits | Start.py:948 | `int()` of a plain digit string is its decimal value |
| PyText.DigitsAreGroups | Start.py:948 | a plain digit string is a valid underscore-grouped literal with the same value |
| LogTailer.Utf8Len | Start.py:69 | the byte size of a UTF-8 text is at least its number of characters |
| LogTailer.Utf8LenAppend | Start.py:69 | the byte size of a concatenation is the sum of the sizes |
| LogTailer.ReadAfterPrefix | Start.py:84-86 | seeking to the byte size of what was read and reading on gives exactly what was appended |
| LogTailer.NewlinesAppend | Start.py:51-52 | newline translation of text not ending in "\r" distributes over an append |
| LogTailer.Subscribe | Start.py:48-58 | an existing file is shown whole, as text mode reads it, with the cursor at its size in bytes; a missing file gives one "waiting" notice and cursor 0; a read error gives one error line and cursor 0 |
| LogTailer.Poll | Start.py:63-97 | the byte size is compared with the byte cursor: absent file or same size: nothing changes; growth: exactly one append of the text read on from the cursor, and the cursor moves to the size; shrink: exactly one reset notice, then a clear, then one append of the whole file, so the view becomes the whole file, and the cursor moves to its size; a failed read reports its error line as `ReportError` does, after the notice and clear on a shrink; earlier console operations are never undone |
| LogTailer.PollRead | Start.py:70-87 | one successful poll: same byte size, nothing changes; growth, exactly one append of the text read on from the cursor, with the cursor at the size; shrink, the operations gain exactly the reset notice, the clear and one append of the whole file, with the cursor at its size |
| LogTailer.PollFailed | Start.py:70-95 | a poll whose read fails, after the byte size was taken: same size, nothing changes; growth, the cursor stays and only `ReportError`'s error line is added; shrink, the reset notice and the clear are emitted, the cursor goes to 0, and then `ReportError`'s error line is added |
| LogTailer.ReportError | Start.py:89-95 | the error line is appended iff its stripped text is not already in the last two lines of the view |
| LogTailer.ResetView | Start.py:73-79 | notice, clear, then reloaded content leaves exactly the file content in the view |
| LogTailer.PollKeepsMirror | Start.py:66-87 | if the view shows the file and the cursor is its byte size, and the file is unchanged, appended to after a complete line end, or replaced by one with fewer bytes, the same holds after a poll |
| LogTailer.RunMirrors | Start.py:63-97 | over any run of such polls the view ends equal to the last file as text mode reads it and the cursor at its byte size |
| LogTailer.SubscribeThenRun | Start.py:46-97 | subscribing to a file and then polling any well-behaved sequence of contents shows exactly the final content, with the cursor at its byte size |
| LogTailer.LogViewerWindow.constructor | Start.py:22-29 | a new window has cursor 0, is running and has queued nothing |
| LogTailer.LogViewerWindow.AppendToConsole | Start.py:99-100 | queues exactly one append of the text |
| LogTailer.LogViewerWindow.StartLogMonitoring | Start.py:48-58 | the window's state becomes `Subscribe` of the file (byte cursor) |
| LogTailer.LogViewerWindow.MonitorStep | Start.py:64-97 | one loop turn: while running, the state becomes `Poll` of the old state; after closing, nothing changes and the loop ends |
| LogTailer.LogViewerWindow.PollReadable | Start.py:70-87 | a successful poll compares the file's byte size with the cursor and updates the state as `Poll` says |
| LogTailer.LogViewerWindow.PollUnreadable | Start.py:70-95 | a failing poll compares the byte size it got with the byte cursor and updates the state as `Poll` says |
| LogTailer.LogViewerWindow.OnClosing | Start.py:118-119 | closing stops the loop |
| Supervisor.ButtonsOnStop | Start.py:998-1000 | start enabled, stop disabled, nothing else changed |
| Supervisor.StartAll | Start.py:801-820 | refused with a warning while either process is alive; otherwise the login slot holds the launch result, the game start is scheduled only if login started, and a failed login re-enables start |
| Supervisor.StartGameAndLogs | Start.py:822-846 | the game slot holds its launch result; the login log opens iff login is alive at the first poll; the game log is scheduled iff the game started; the monitor starts iff some slot is set; a failed game launch re-enables start iff login is dead at the second poll, and both failing re-enables start |
| Supervisor.LoginLogStage | Start.py:824-830 | the login log opens exactly when the login server is alive, the game slot takes the launch result, and the game-log flag and monitor count are untouched |
| Supervisor.AfterGameLaunch | Start.py:831-846 | the game log is scheduled exactly when the game started, the monitor starts exactly when a slot is set, start is re-enabled when nothing runs, and slots and log windows are untouched |
| Supervisor.OpenGameLog | Start.py:1002-1021 | the delayed call opens the game log viewer and changes no slot |
| Supervisor.ExitReports | Start.py:854-863 | exactly one exit report per set slot whose process has exited, login first |
| Supervisor.MonitorTick | Start.py:849-870 | exited slots are cleared with their exit code reported; the loop ends iff both slots are empty, and then "all stopped" is reported and the buttons reset |
| Supervisor.StopEvents | Start.py:887-902 | corrected stop of one server: terminate first, kill iff terminate did not end it, then the final status |
| Supervisor.StopSequence | Start.py:873-927 | the stop events always end with the port check being scheduled, for the corrected stop of each server (`StopEvents`, see Left out) |
| Supervisor.StopSlot | Start.py:887-921 | a live slot gets the stop events and is cleared whatever the outcome; a dead or empty slot is left alone, for the corrected stop of each server (`StopEvents`, see Left out) |
| Supervisor.StopAll | Start.py:873-929 | viewers closed, each live slot cleared, the game stopped before the login, port check scheduled, buttons reset, for the corrected stop of each server (`StopEvents`, see Left out) |
| Supervisor.StopGameFirst | Start.py:886-921 | in the stop events no game-server signal follows a login-server signal |
| Supervisor.StopSignalsRunning | Start.py:887-906 | a live game server is terminated first; a live login server is terminated; with neither alive only the port check happens |
| Supervisor.RunMonitorNeverRefills | Start.py:849-870 | monitoring never fills an empty slot and never changes a process in a slot |
| Supervisor.RunMonitorEndsWhenAllExit | Start.py:849-868 | once every watched process has exited, both slots are empty and the buttons are reset |
| Supervisor.GameServerManager.constructor | Start.py:212-238 | both slots empty, start enabled, no viewers |
| Supervisor.GameServerManager.UpdateButtonsOnStop | Start.py:998-1000 | the state becomes `ButtonsOnStop` of the old state |
| Supervisor.GameServerManager.StartAllServers | Start.py:796-820 | the state becomes `StartAll` of the old state |
| Supervisor.GameServerManager.StartGameServerAndLogs | Start.py:822-846 | the state becomes `StartGameAndLogs` of the old state |
| Supervisor.GameServerManager.OpenLoginLog | Start.py:824-830 | the state becomes `LoginLogStage` of the old state |
| Supervisor.GameServerManager.FinishGameLaunch | Start.py:831-846 | the state becomes `AfterGameLaunch` of the old state |
| Supervisor.GameServerManager.MonitorServerStatus | Start.py:849-870 | the state and the end-of-loop flag are those of `MonitorTick` |
| Supervisor.GameServerManager.StopAllServers | Start.py:873-929 | the state becomes `StopAll` of the old state, for the corrected stop of each server (`StopEvents`, see Left out) |
| Supervisor.StopEventsAsWritten | Start.py:889-901 | the stop of one server as written starts with terminate |
| Supervisor.AsWrittenNeverKills | Start.py:891-897 | as written, kill is never sent, and a server that only a kill would end is reported still running |
| PortReaper.LinePid | Start.py:945-955 | a line gives a PID iff it has at least 5 tokens and its last token parses as an integer, and then that integer |
| PortReaper.LinePids | Start.py:944-958 | one result per line, in order |
| PortReaper.CollectIff | Start.py:941-955 | a PID is in the set iff some line produced it, so duplicate PIDs collapse |
| PortReaper.PidsOfIff | Start.py:941-958 | a PID is found iff some line of the output yields it |
| PortReaper.ListeningIsNoInt | Start.py:950-953 | a token that parses as an integer is never "LISTENING", so the two fallback branches never change the PID |
| PortReaper.PidOfLine | Start.py:945-958 | the loop body returns the line's PID, and whether the line is reported as unparsable |
| PortReaper.SkippedIff | Start.py:956-958 | a line is reported iff it has at least 5 tokens and its last token does not parse |
| PortReaper.PidsOnPort | Start.py:941-958 | the nested loop collects exactly `PidsOf` of the lines and reports exactly the unparsable ones |
| PortReaper.ReportFor | Start.py:960-986 | a port is reported free iff no PID was found, otherwise in use by exactly those PIDs |
| PortReaper.CheckAndKillProcessesOnPorts | Start.py:932-995 | off Windows nothing is done; on Windows one report per port in order, and "killed any" holds iff some found PID was killed |
| NpcHtml.Locate | aCisDsec_project/aCis_gameserver/java/net/sf/l2j/gameserver/network/serverpackets/NpcHtmlMessage.java:74-77 | a found site starts at or after i, has a closing quote, its command starts after the 8-char marker, and no quote lies between the marker and the closing quote |
| NpcHtml.ScanStep | aCisDsec_project/aCis_gameserver/java/net/sf/l2j/gameserver/network/serverpackets/NpcHtmlMessage.java:72-90 | one loop turn that registers a bypass always moves the index forward |
| NpcHtml.ScanClean | aCisDsec_project/aCis_gameserver/java/net/sf/l2j/gameserver/network/serverpackets/NpcHtmlMessage.java:72-90 | every registered command has no double quote, is trimmed, and an `addBypass2` prefix has no `$` |
| NpcHtml.NoBypassText | aCisDsec_project/aCis_gameserver/java/net/sf/l2j/gameserver/network/serverpackets/NpcHtmlMessage.java:72-77 | a page without `"bypass ` registers nothing and does not throw |
| NpcHtml.OneQuoted | aCisDsec_project/aCis_gameserver/java/net/sf/l2j/gameserver/network/serverpackets/NpcHtmlMessage.java:74-89 | a page holding one quoted bypass registers exactly the command between the marker (or the `-h ` prefix) and the closing quote |
| NpcHtml.CommandNoDollar | aCisDsec_project/aCis_gameserver/java/net/sf/l2j/gameserver/network/serverpackets/NpcHtmlMessage.java:85-89 | without a `$` before the closing quote the trimmed command is registered with `addBypass` |
| NpcHtml.CommandDollar | aCisDsec_project/aCis_gameserver/java/net/sf/l2j/gameserver/network/serverpackets/NpcHtmlMessage.java:85-87 | with a `$` inside the command only the trimmed prefix before it is registered, with `addBypass2` |
| NpcHtml.OneBypass | aCisDsec_project/aCis_gameserver/java/net/sf/l2j/gameserver/network/serverpackets/NpcHtmlMessage.java:72-90 | `"bypass CMD"` registers exactly `Trim(CMD)` as an exact bypass |
| NpcHtml.OneHiddenBypass | aCisDsec_project/aCis_gameserver/java/net/sf/l2j/gameserver/network/serverpackets/NpcHtmlMessage.java:79-80 | `"bypass -h CMD"` skips the `-h ` and registers exactly `Trim(CMD)` |
| NpcHtml.DollarBypass | aCisDsec_project/aCis_gameserver/java/net/sf/l2j/gameserver/network/serverpackets/NpcHtmlMessage.java:85-87 | `"bypass PRE$POST"` registers the prefix `Trim(PRE)` only |
| NpcHtml.TrailingBypassThrows | aCisDsec_project/aCis_gameserver/java/net/sf/l2j/gameserver/network/serverpackets/NpcHtmlMessage.java:79 | a page ending in `"bypass "` makes `substring(start + 8, start + 10)` throw |
| NpcHtml.EmptyHiddenBypassThrows | aCisDsec_project/aCis_gameserver/java/net/sf/l2j/gameserver/network/serverpackets/NpcHtmlMessage.java:79-89 | `"bypass -h"` right before the closing quote makes the substring after `start += 11` throw |
| NpcHtml.LocateBypass | aCisDsec_project/aCis_gameserver/java/net/sf/l2j/gameserver/network/serverpackets/NpcHtmlMessage.java:74-77 | the two `indexOf` calls find exactly the site `Locate` describes |
| NpcHtml.ReadCommand | aCisDsec_project/aCis_gameserver/java/net/sf/l2j/gameserver/network/serverpackets/NpcHtmlMessage.java:79-89 | the command read at a site is the one `CommandAt` describes |
| NpcHtml.NextBypass | aCisDsec_project/aCis_gameserver/java/net/sf/l2j/gameserver/network/serverpackets/NpcHtmlMessage.java:72-90 | one loop turn gives exactly `ScanStep` |
| NpcHtml.RegisterBypasses | aCisDsec_project/aCis_gameserver/java/net/sf/l2j/gameserver/network/serverpackets/NpcHtmlMessage.java:72-90 | the whole loop appends exactly the scan's commands, in page order, and throws exactly when the scan does |
| NpcHtml.FoundStep | aCisDsec_project/aCis_gameserver/java/net/sf/l2j/gameserver/network/serverpackets/NpcHtmlMessage.java:72-90 | the commands from index i are this turn's command followed by those from the next index |
| NpcHtml.LoadIgnoredFiles | aCisDsec_project/aCis_gameserver/java/net/sf/l2j/gameserver/network/serverpackets/NpcHtmlMessage.java:229-244 | the ignore set is the trimmed parts of the comma-split `npc_ignore` value |
| NpcHtml.IgnoredFiles | aCisDsec_project/aCis_gameserver/java/net/sf/l2j/gameserver/network/serverpackets/NpcHtmlMessage.java:236-248 | a path is ignored iff it is the trimmed form of some comma-separated entry |
| NpcHtml.ChoosePage | aCisDsec_project/aCis_gameserver/java/net/sf/l2j/gameserver/network/serverpackets/NpcHtmlMessage.java:155-225 | an ignored file or a player with translation off gets the page verbatim; otherwise an existing translated file is sent verbatim; only otherwise is the page processed; a missing page is reported exactly when the chosen file has no text |
| NpcHtml.TranslatedFileFirst | aCisDsec_project/aCis_gameserver/java/net/sf/l2j/gameserver/network/serverpackets/NpcHtmlMessage.java:185-211 | when the translated file exists and has text it is sent verbatim, without processing |
| NpcHtml.SetHtmlSpec | aCisDsec_project/aCis_gameserver/java/net/sf/l2j/gameserver/network/serverpackets/NpcHtmlMessage.java:113-136 | over 8192 characters the page is the fixed "Html was too long." page; with translation off the text is kept verbatim; a save request only ever carries the final page and needs a file name, built from the corrected halves of the three page findings (see Left out) |
| NpcHtml.SetHtmlReplay | aCisDsec_project/aCis_gameserver/java/net/sf/l2j/gameserver/network/serverpackets/NpcHtmlMessage.java:423-491 | processing the same text again with the cache the first call left gives the same page, cache and save request when no translation entry was produced |
| NpcHtml.NpcHtmlMessage.constructor | aCisDsec_project/aCis_gameserver/java/net/sf/l2j/gameserver/network/serverpackets/NpcHtmlMessage.java:42-56 | the object id is stored; no page (Java's null), no file, item id 0, validation on |
| NpcHtml.NpcHtmlMessage.DisableValidation | aCisDsec_project/aCis_gameserver/java/net/sf/l2j/gameserver/network/serverpackets/NpcHtmlMessage.java:103-106 | turns validation off |
| NpcHtml.NpcHtmlMessage.SetItemId | aCisDsec_project/aCis_gameserver/java/net/sf/l2j/gameserver/network/serverpackets/NpcHtmlMessage.java:108-111 | stores the item id |
| NpcHtml.NpcHtmlMessage.SetFileName | aCisDsec_project/aCis_gameserver/java/net/sf/l2j/gameserver/network/serverpackets/NpcHtmlMessage.java:149-152 | stores the file name |
| NpcHtml.NpcHtmlMessage.RunImpl | aCisDsec_project/aCis_gameserver/java/net/sf/l2j/gameserver/network/serverpackets/NpcHtmlMessage.java:58-91 | nothing happens with validation off or without a player; otherwise the GM sees the file name when SHOW_FILE holds, the bypass list is cleared, and it becomes exactly the scan's commands; a packet with no page set crashes right after the clear, as `_html.length()` on null does |
| NpcHtml.NpcHtmlMessage.SetHtml | aCisDsec_project/aCis_gameserver/java/net/sf/l2j/gameserver/network/serverpackets/NpcHtmlMessage.java:113-136 | the page, the cache and the save request are those of `SetHtmlSpec` with the player's translation flag, built from the corrected halves of the three page findings (see Left out) |
| NpcHtml.NpcHtmlMessage.SetFile | aCisDsec_project/aCis_gameserver/java/net/sf/l2j/gameserver/network/serverpackets/NpcHtmlMessage.java:155-225 | a missing page gives "My HTML is missing." and keeps the file; a verbatim page is stored with its path; a processed page goes through `SetHtml` with the file name set, built from the corrected halves of the three page findings (see Left out) |
| TranslationKey.DropDigitCommas | aCisDsec_project/aCis_gameserver/java/net/sf/l2j/gameserver/network/serverpackets/NpcHtmlMessage.java:902 | `replaceAll("(\\d),(\\d)", "$1$2")` never lengthens the text and leaves comma-free text alone |
| TranslationKey.Without | aCisDsec_project/aCis_gameserver/java/net/sf/l2j/gameserver/network/serverpackets/NpcHtmlMessage.java:903-904 | removing a character leaves every other character's presence as it was |
| TranslationKey.KeyChars | aCisDsec_project/aCis_gameserver/java/net/sf/l2j/gameserver/network/serverpackets/NpcHtmlMessage.java:908 | after lower-casing and `[^a-z0-9.]` → `_` every character is a key character or a dot, and letters, digits and dots are kept |
| TranslationKey.Collapse | aCisDsec_project/aCis_gameserver/java/net/sf/l2j/gameserver/network/serverpackets/NpcHtmlMessage.java:911 | `_+` → `_` leaves no two underscores in a row, adds no character and keeps the first one |
| TranslationKey.StripUnderscores | aCisDsec_project/aCis_gameserver/java/net/sf/l2j/gameserver/network/serverpackets/NpcHtmlMessage.java:914-919 | dropping a leading and a trailing underscore adds no character |
| TranslationKey.DropDotBeforeUnderscore | aCisDsec_project/aCis_gameserver/java/net/sf/l2j/gameserver/network/serverpackets/NpcHtmlMessage.java:922 | `._` → `_` adds no character and leaves dot-free text alone |
| TranslationKey.GenerateKey | aCisDsec_project/aCis_gameserver/java/net/sf/l2j/gameserver/network/serverpackets/NpcHtmlMessage.java:900-928 | the key holds only a-z, 0-9 and `_` |
| TranslationKey.KeyOfPlainText | aCisDsec_project/aCis_gameserver/java/net/sf/l2j/gameserver/network/serverpackets/NpcHtmlMessage.java:900-928 | a text of lower-case letters and digits is its own key |
| TranslationKey.DropOneDigitComma | aCisDsec_project/aCis_gameserver/java/net/sf/l2j/gameserver/network/serverpackets/NpcHtmlMessage.java:902 | a single digit-comma-digit in comma-free surroundings loses exactly its comma |
| TranslationKey.DigitCommaSameKey | aCisDsec_project/aCis_gameserver/java/net/sf/l2j/gameserver/network/serverpackets/NpcHtmlMessage.java:902-928 | "d,d" and "dd" in the same surroundings give the same key |
| TranslationKey.ThousandsSeparatorDropped | aCisDsec_project/aCis_gameserver/java/net/sf/l2j/gameserver/network/serverpackets/NpcHtmlMessage.java:902-928 | "50,000" and "50000" both give the key "50000" |
| TranslationKey.LangSuffix | aCisDsec_project/aCis_gameserver/java/net/sf/l2j/gameserver/network/serverpackets/NpcHtmlMessage.java:187 | `"_" + lang.toLowerCase().replace("-", "_")` starts with `_`, has one more character than the locale, and has no dash or upper-case letter |
| TranslationKey.ExtIndex | aCisDsec_project/aCis_gameserver/java/net/sf/l2j/gameserver/network/serverpackets/NpcHtmlMessage.java:190 | `lastIndexOf(".")` is -1 or the index of the last dot |
| TranslationKey.TranslatedNameWithExtension | aCisDsec_project/aCis_gameserver/java/net/sf/l2j/gameserver/network/serverpackets/NpcHtmlMessage.java:192-193 | with a dot past index 0 the suffix is inserted right before the last dot and the rest of the name is kept on both sides |
| TranslationKey.TranslatedNameWithoutExtension | aCisDsec_project/aCis_gameserver/java/net/sf/l2j/gameserver/network/serverpackets/NpcHtmlMessage.java:194-195 | with no dot, or only a dot at index 0, the name gets the suffix and ".htm" appended |
| TranslationKey.TranslatedNameDiffers | aCisDsec_project/aCis_gameserver/java/net/sf/l2j/gameserver/network/serverpackets/NpcHtmlMessage.java:186-196 | the translated name is always longer than, so different from, the original |
| PageCache.HtmlCache.constructor | aCisDsec_project/aCis_gameserver/java/net/sf/l2j/gameserver/network/serverpackets/NpcHtmlMessage.java:51 | the static cache starts empty |
| PageCache.HtmlCache.Clear | aCisDsec_project/aCis_gameserver/java/net/sf/l2j/gameserver/network/serverpackets/NpcHtmlMessage.java:662-664 | `clearHtmlCache` empties the cache |
| PageCache.HtmlCache.Put | aCisDsec_project/aCis_gameserver/java/net/sf/l2j/gameserver/network/serverpackets/NpcHtmlMessage.java:484 | `put` maps the key to the page and keeps every other entry |
| PageCache.CacheKeyInjective | aCisDsec_project/aCis_gameserver/java/net/sf/l2j/gameserver/network/serverpackets/NpcHtmlMessage.java:429 | page + "#" + objectId + "#" + locale determines page, object id and locale when the locale has no `#` |
| PageCache.PrepareSpec | aCisDsec_project/aCis_gameserver/java/net/sf/l2j/gameserver/network/serverpackets/NpcHtmlMessage.java:423-491 | a cached key is answered from the cache with no translation and no change; otherwise the page is built from the passes, and it is cached only when no translation entry was produced |
| PageCache.PrepareReplay | aCisDsec_project/aCis_gameserver/java/net/sf/l2j/gameserver/network/serverpackets/NpcHtmlMessage.java:429-485 | when no translation entry was produced, a second call with the new cache gives the same page and the same cache |
| PageCache.PrepareKeepsOtherEntries | aCisDsec_project/aCis_gameserver/java/net/sf/l2j/gameserver/network/serverpackets/NpcHtmlMessage.java:430-485 | other cache entries are never changed |
| PageCache.TranslatedPagesNotCached | aCisDsec_project/aCis_gameserver/java/net/sf/l2j/gameserver/network/serverpackets/NpcHtmlMessage.java:475-484 | a page that produced translation entries leaves the cache as it was, so it is rebuilt on every call |
| PageCache.Prepare | aCisDsec_project/aCis_gameserver/java/net/sf/l2j/gameserver/network/serverpackets/NpcHtmlMessage.java:423-491 | the returned page and the new cache are exactly `PrepareSpec` of the old cache |
| HtmlTags.KeyAt | aCisDsec_project/aCis_gameserver/java/net/sf/l2j/gameserver/network/serverpackets/NpcHtmlMessage.java:1040-1051 | a `%(.*?)%` match at i ends at the next `%`, with no `%` and no line terminator inside |
| HtmlTags.KeysFrom | aCisDsec_project/aCis_gameserver/java/net/sf/l2j/gameserver/network/serverpackets/NpcHtmlMessage.java:1050-1051 | no key found by the matcher contains `%` |
| HtmlTags.Tag | aCisDsec_project/aCis_gameserver/java/net/sf/l2j/gameserver/network/serverpackets/NpcHtmlMessage.java:1091 | the text `%key%` replaced is never empty |
| HtmlTags.ExcludedIgnoresCase | aCisDsec_project/aCis_gameserver/java/net/sf/l2j/gameserver/network/serverpackets/NpcHtmlMessage.java:1054-1061 | a key is skipped iff it equals "quest" or "objectId" ignoring case |
| HtmlTags.UnquotePlain | aCisDsec_project/aCis_gameserver/java/net/sf/l2j/gameserver/network/serverpackets/NpcHtmlMessage.java:1072-1085 | a value that starts with neither `"` nor `[` is used as it is |
| HtmlTags.PlaceholderUnquoted | aCisDsec_project/aCis_gameserver/java/net/sf/l2j/gameserver/network/serverpackets/NpcHtmlMessage.java:1072-1087 | the `!key!` placeholder survives the quote stripping, so a missing key is recognised |
| HtmlTags.UnquoteQuoted | aCisDsec_project/aCis_gameserver/java/net/sf/l2j/gameserver/network/serverpackets/NpcHtmlMessage.java:1073-1075 | one pair of surrounding double quotes is removed |
| HtmlTags.UnquoteBracketed | aCisDsec_project/aCis_gameserver/java/net/sf/l2j/gameserver/network/serverpackets/NpcHtmlMessage.java:1078-1079 | one pair of surrounding brackets is removed |
| HtmlTags.UnquoteBracketedQuote | aCisDsec_project/aCis_gameserver/java/net/sf/l2j/gameserver/network/serverpackets/NpcHtmlMessage.java:1077-1084 | corrected: a value written `["text"]` loses its brackets and its quotes |
| HtmlTags.UnquoteAsWrittenKeepsQuotes | aCisDsec_project/aCis_gameserver/java/net/sf/l2j/gameserver/network/serverpackets/NpcHtmlMessage.java:1073-1079 | as written: a value `["text"]` matches the first test, loses `[` and `]` only, and keeps its quotes |
| HtmlTags.FirstPassBookkeeping | aCisDsec_project/aCis_gameserver/java/net/sf/l2j/gameserver/network/serverpackets/NpcHtmlMessage.java:1050-1094 | the first pass keeps its invariant: every processed key is a found, non-excluded key with a real translation, and every key put aside is a found, non-excluded key whose value is its placeholder, with translations cleaned by the corrected `Unquote` (see the first-pass line under Left out) |
| HtmlTags.SubstitutionBookkeeping | aCisDsec_project/aCis_gameserver/java/net/sf/l2j/gameserver/network/serverpackets/NpcHtmlMessage.java:1044-1094 | the first pass over the page's keys ends with that invariant, with translations cleaned by the corrected `Unquote` (see the first-pass line under Left out) |
| HtmlTags.FirstPassUntouched | aCisDsec_project/aCis_gameserver/java/net/sf/l2j/gameserver/network/serverpackets/NpcHtmlMessage.java:1050-1094 | keys without a translation leave the page unchanged in the first pass |
| HtmlTags.SecondPassUntouched | aCisDsec_project/aCis_gameserver/java/net/sf/l2j/gameserver/network/serverpackets/NpcHtmlMessage.java:1097-1108 | keys without a translation leave the page unchanged in the second pass |
| HtmlTags.NoTranslationUnchanged | aCisDsec_project/aCis_gameserver/java/net/sf/l2j/gameserver/network/serverpackets/NpcHtmlMessage.java:1040-1108 | a page none of whose keys is translated comes out of substitution unchanged, so unresolved keys stay as `%key%` |
| HtmlTags.KeysOfTag | aCisDsec_project/aCis_gameserver/java/net/sf/l2j/gameserver/network/serverpackets/NpcHtmlMessage.java:1040-1051 | the matcher finds exactly one key in `%key%` |
| HtmlTags.OneKeyTranslated | aCisDsec_project/aCis_gameserver/java/net/sf/l2j/gameserver/network/serverpackets/NpcHtmlMessage.java:1068-1093 | a page `%key%` with a real translation becomes the cleaned translation, with translations cleaned by the corrected `Unquote` (see the first-pass line under Left out) |
| HtmlTags.OneKeyExcluded | aCisDsec_project/aCis_gameserver/java/net/sf/l2j/gameserver/network/serverpackets/NpcHtmlMessage.java:1053-1061 | `%quest%` and `%objectId%` are never replaced |
| HtmlTags.QuotedPlaceholderUsedRaw | aCisDsec_project/aCis_gameserver/java/net/sf/l2j/gameserver/network/serverpackets/NpcHtmlMessage.java:1087-1103 | a value written `"!key!"` is put aside in the first pass and then replaced with its raw, still-quoted text in the second |
| HtmlTags.SubstituteKeys | aCisDsec_project/aCis_gameserver/java/net/sf/l2j/gameserver/network/serverpackets/NpcHtmlMessage.java:1040-1108 | the two loops give exactly the two-pass substitution, with translations cleaned by the corrected `Unquote` (see the first-pass line under Left out) |
| HtmlTags.ReplaceFoundKeys | aCisDsec_project/aCis_gameserver/java/net/sf/l2j/gameserver/network/serverpackets/NpcHtmlMessage.java:1040-1094 | the matcher loop gives the page and the put-aside keys of the first pass, with translations cleaned by the corrected `Unquote` (see the first-pass line under Left out) |
| HtmlTags.MatchAt | aCisDsec_project/aCis_gameserver/java/net/sf/l2j/gameserver/network/serverpackets/NpcHtmlMessage.java:1050 | one matcher step moves forward and keeps the rest of the first pass the same |
| HtmlTags.MatchKey | aCisDsec_project/aCis_gameserver/java/net/sf/l2j/gameserver/network/serverpackets/NpcHtmlMessage.java:1050-1094 | a match at i moves past its closing `%` and keeps the rest of the first pass the same |
| HtmlTags.ProcessFoundKey | aCisDsec_project/aCis_gameserver/java/net/sf/l2j/gameserver/network/serverpackets/NpcHtmlMessage.java:1051-1093 | the loop body for one key does exactly one first-pass step, with translations cleaned by the corrected `Unquote` (see the first-pass line under Left out) |
| HtmlTags.ReplaceRemainingKeys | aCisDsec_project/aCis_gameserver/java/net/sf/l2j/gameserver/network/serverpackets/NpcHtmlMessage.java:1097-1108 | the second loop replaces each put-aside key whose raw value is no longer its placeholder |
| HtmlTags.SaveRequest | aCisDsec_project/aCis_gameserver/java/net/sf/l2j/gameserver/network/serverpackets/NpcHtmlMessage.java:1169-1217 | no save when translation entries exist or when there is no file name; otherwise the page is written to the translated file name exactly when that path has a parent directory |
| HtmlTags.NoFileNoSave | aCisDsec_project/aCis_gameserver/java/net/sf/l2j/gameserver/network/serverpackets/NpcHtmlMessage.java:1195-1198 | without a file name nothing is saved |
| HtmlTags.ProcessHtmlTags | aCisDsec_project/aCis_gameserver/java/net/sf/l2j/gameserver/network/serverpackets/NpcHtmlMessage.java:1038-1178 | the page is the substitution followed by the font, `<br1>`, wrap and button passes, and the save request is `SaveRequest` of that page, built from the corrected halves of the three page findings (see Left out) |
| HtmlTags.PlainPageUnchanged | aCisDsec_project/aCis_gameserver/java/net/sf/l2j/gameserver/network/serverpackets/NpcHtmlMessage.java:1038-1163 | a page with no `%`, `<` or `>` comes out unchanged |
| HtmlTags.PlainAfterKeys | aCisDsec_project/aCis_gameserver/java/net/sf/l2j/gameserver/network/serverpackets/NpcHtmlMessage.java:1110-1163 | a page with no tag comes out of the passes after substitution unchanged |
| HtmlTags.PlainNoWrap | aCisDsec_project/aCis_gameserver/java/net/sf/l2j/gameserver/network/serverpackets/NpcHtmlMessage.java:1115-1140 | a page with no `>` has no text run to wrap |
| HtmlTags.PlainNoButton | aCisDsec_project/aCis_gameserver/java/net/sf/l2j/gameserver/network/serverpackets/NpcHtmlMessage.java:1143-1160 | a page with no `<` has no button value to cut |
| HtmlTags.NoKeysWithoutPercent | aCisDsec_project/aCis_gameserver/java/net/sf/l2j/gameserver/network/serverpackets/NpcHtmlMessage.java:1040-1050 | a page with no `%` has no key |
| TextWrap.BreakEnd | aCisDsec_project/aCis_gameserver/java/net/sf/l2j/gameserver/network/serverpackets/NpcHtmlMessage.java:1123-1130 | a piece ends at most 49 characters on, at the last space within reach, or at 49 characters when there is no space to break at |
| TextWrap.SkipSpaces | aCisDsec_project/aCis_gameserver/java/net/sf/l2j/gameserver/network/serverpackets/NpcHtmlMessage.java:1135 | spaces after a break are skipped up to the next non-space |
| TextWrap.Pieces | aCisDsec_project/aCis_gameserver/java/net/sf/l2j/gameserver/network/serverpackets/NpcHtmlMessage.java:1121-1136 | every piece lies within the text from the start index on |
| TextWrap.PiecesStart | aCisDsec_project/aCis_gameserver/java/net/sf/l2j/gameserver/network/serverpackets/NpcHtmlMessage.java:1121-1122 | there are no pieces exactly for the empty rest, and the first piece starts at the index |
| TextWrap.PiecesLengths | aCisDsec_project/aCis_gameserver/java/net/sf/l2j/gameserver/network/serverpackets/NpcHtmlMessage.java:1123-1130 | every piece has 1 to 49 characters, and a shorter piece that is not last ends at a space |
| TextWrap.PiecesOrdered | aCisDsec_project/aCis_gameserver/java/net/sf/l2j/gameserver/network/serverpackets/NpcHtmlMessage.java:1133-1135 | pieces follow one another and each starts at a non-space, so the index strictly increases |
| TextWrap.PiecesGaps | aCisDsec_project/aCis_gameserver/java/net/sf/l2j/gameserver/network/serverpackets/NpcHtmlMessage.java:1133-1135 | only spaces lie between two pieces |
| TextWrap.PiecesTail | aCisDsec_project/aCis_gameserver/java/net/sf/l2j/gameserver/network/serverpackets/NpcHtmlMessage.java:1122-1136 | a non-empty text has pieces and only spaces follow the last |
| TextWrap.ShortMessageKept | aCisDsec_project/aCis_gameserver/java/net/sf/l2j/gameserver/network/serverpackets/NpcHtmlMessage.java:1123-1131 | a text of at most 49 characters is kept as it is |
| TextWrap.RenderChars | aCisDsec_project/aCis_gameserver/java/net/sf/l2j/gameserver/network/serverpackets/NpcHtmlMessage.java:1131-1132 | wrapping adds no character other than those of `<br1> ` |
| TextWrap.WrapMessage | aCisDsec_project/aCis_gameserver/java/net/sf/l2j/gameserver/network/serverpackets/NpcHtmlMessage.java:1120-1136 | the loop builds exactly the pieces joined with `<br1> ` |
| TextWrap.WrapPiece | aCisDsec_project/aCis_gameserver/java/net/sf/l2j/gameserver/network/serverpackets/NpcHtmlMessage.java:1123-1135 | one turn of the inner loop gives the next piece, cut at the last space within 49 characters, with `<br1> ` when text follows, and the index past the spaces after it |
| TextWrap.RunAt | aCisDsec_project/aCis_gameserver/java/net/sf/l2j/gameserver/network/serverpackets/NpcHtmlMessage.java:1115 | a `>([^<]{50,})<` match at i holds at least 50 characters and no `<` |
| TextWrap.WrapStep | aCisDsec_project/aCis_gameserver/java/net/sf/l2j/gameserver/network/serverpackets/NpcHtmlMessage.java:1115-1139 | one matcher step moves forward |
| TextWrap.WrapLongTexts | aCisDsec_project/aCis_gameserver/java/net/sf/l2j/gameserver/network/serverpackets/NpcHtmlMessage.java:1115-1140 | corrected: the matcher loop gives exactly `WrapRuns`, each run replaced literally by its wrapped text |
| TextWrap.WrapAt | aCisDsec_project/aCis_gameserver/java/net/sf/l2j/gameserver/network/serverpackets/NpcHtmlMessage.java:1118-1137 | one turn of the matcher loop: a run at i gives `>` + its wrapped text + `<` and the index past the run, any other character is copied |
| TextWrap.WrapNoOpen | aCisDsec_project/aCis_gameserver/java/net/sf/l2j/gameserver/network/serverpackets/NpcHtmlMessage.java:1115-1140 | text after i with no `>` is copied unchanged |
| TextWrap.WrapSingleRun | aCisDsec_project/aCis_gameserver/java/net/sf/l2j/gameserver/network/serverpackets/NpcHtmlMessage.java:1115-1140 | corrected: one long run between `>` and `<` becomes `>` + its wrapped text + `<` |
| TextWrap.ShortRunKept | aCisDsec_project/aCis_gameserver/java/net/sf/l2j/gameserver/network/serverpackets/NpcHtmlMessage.java:1115 | a run shorter than 50 characters is left alone |
| TextWrap.AsWrittenAgrees | aCisDsec_project/aCis_gameserver/java/net/sf/l2j/gameserver/network/serverpackets/NpcHtmlMessage.java:1137 | as written, a page without `\` or `$` is wrapped the same as the corrected version |
| TextWrap.DollarRunThrows | aCisDsec_project/aCis_gameserver/java/net/sf/l2j/gameserver/network/serverpackets/NpcHtmlMessage.java:1137 | as written, a long run starting with `$` and a non-digit makes `appendReplacement` throw, while the corrected version wraps it |
| TextWrap.AsWrittenRunFails | aCisDsec_project/aCis_gameserver/java/net/sf/l2j/gameserver/network/serverpackets/NpcHtmlMessage.java:1137 | as written, once one run's replacement text is refused the whole pass throws |
| ButtonValues.ValueAttrAt | aCisDsec_project/aCis_gameserver/java/net/sf/l2j/gameserver/network/serverpackets/NpcHtmlMessage.java:1143 | a `value="[^"]+"` match at p has a non-empty quote-free value ending at a quote |
| ButtonValues.LastValueIn | aCisDsec_project/aCis_gameserver/java/net/sf/l2j/gameserver/network/serverpackets/NpcHtmlMessage.java:1143 | the greedy `[^>]*` settles on the last `value="…"` in reach, and none lies after it |
| ButtonValues.FirstValueIn | aCisDsec_project/aCis_gameserver/java/net/sf/l2j/gameserver/network/serverpackets/NpcHtmlMessage.java:1153-1154 | `replaceFirst` acts on the first `value="…"` of the match and none lies before it |
| ButtonValues.ButtonAt | aCisDsec_project/aCis_gameserver/java/net/sf/l2j/gameserver/network/serverpackets/NpcHtmlMessage.java:1143 | a `<button[^>]*value="([^"]+)"` match has no `>` between the tag name and its value |
| ButtonValues.Cut | aCisDsec_project/aCis_gameserver/java/net/sf/l2j/gameserver/network/serverpackets/NpcHtmlMessage.java:1148-1150 | a value is cut to a prefix of at most 45 characters, and one of at most 45 is kept |
| ButtonValues.TruncStep | aCisDsec_project/aCis_gameserver/java/net/sf/l2j/gameserver/network/serverpackets/NpcHtmlMessage.java:1146-1158 | one matcher step moves forward |
| ButtonValues.TruncateButtonValues | aCisDsec_project/aCis_gameserver/java/net/sf/l2j/gameserver/network/serverpackets/NpcHtmlMessage.java:1143-1160 | corrected: the loop gives exactly `TruncateValues`, each value literally cut to 45 characters |
| ButtonValues.LimitLabel | aCisDsec_project/aCis_gameserver/java/net/sf/l2j/gameserver/network/serverpackets/NpcHtmlMessage.java:1147-1156 | the replacement for one match is the match with its first value replaced by the cut label |
| ButtonValues.NoButtonUnchanged | aCisDsec_project/aCis_gameserver/java/net/sf/l2j/gameserver/network/serverpackets/NpcHtmlMessage.java:1143-1160 | a page without `<button` is unchanged |
| ButtonValues.OneButtonStage | aCisDsec_project/aCis_gameserver/java/net/sf/l2j/gameserver/network/serverpackets/NpcHtmlMessage.java:1143-1160 | one button comes out with its label replaced by the new label, in both versions |
| ButtonValues.OneButtonCut | aCisDsec_project/aCis_gameserver/java/net/sf/l2j/gameserver/network/serverpackets/NpcHtmlMessage.java:1148-1157 | corrected: a button label over 45 characters is cut to its first 45, and a shorter one is kept |
| ButtonValues.OneButtonDollar | aCisDsec_project/aCis_gameserver/java/net/sf/l2j/gameserver/network/serverpackets/NpcHtmlMessage.java:1152-1157 | as written: a label with `$` is quoted twice and comes out longer, while the corrected version keeps it |
| LinkButtons.ChooseSlotFrom | aCisDsec_project/aCis_gameserver/java/net/sf/l2j/gameserver/network/serverpackets/NpcHtmlMessage.java:873-881 | the chosen slot fits the text length and no earlier slot does, or it is slot 0 |
| LinkButtons.ChooseSlotFirstFit | aCisDsec_project/aCis_gameserver/java/net/sf/l2j/gameserver/network/serverpackets/NpcHtmlMessage.java:873-881 | when some slot fits, the first fitting slot is chosen; when none does, slot 0 |
| LinkButtons.TutorialSlot | aCisDsec_project/aCis_gameserver/java/net/sf/l2j/gameserver/network/serverpackets/TutorialShowHtml.java:224-238 | the fixed thresholds pick one of six buttons |
| LinkButtons.TutorialSlotIsFirstFit | aCisDsec_project/aCis_gameserver/java/net/sf/l2j/gameserver/network/serverpackets/TutorialShowHtml.java:224-238 | the fixed chain ≤8, ≤11, ≤16, ≤20, ≤46, otherwise is the first fit over the limits 8, 11, 16, 20, 46, max int |
| LinkButtons.StripQuotes | aCisDsec_project/aCis_gameserver/java/net/sf/l2j/gameserver/network/serverpackets/NpcHtmlMessage.java:860-863 | one pair of surrounding double quotes is removed from a link text of length above 1, and any other text is kept |
| LinkButtons.FormatStep | aCisDsec_project/aCis_gameserver/java/net/sf/l2j/gameserver/network/serverpackets/NpcHtmlMessage.java:852-893 | one matcher step moves forward |
| LinkButtons.FormatLinks | aCisDsec_project/aCis_gameserver/java/net/sf/l2j/gameserver/network/serverpackets/NpcHtmlMessage.java:840-898 | the loop gives exactly `FormatLinksSpec`, and a page that already has `<button`, `<edit` or `<combobox` is returned unchanged |
| LinkButtons.NoAnchorUnchanged | aCisDsec_project/aCis_gameserver/java/net/sf/l2j/gameserver/network/serverpackets/NpcHtmlMessage.java:848-895 | a page without `<a` is unchanged |
| LinkButtons.SingleAnchor | aCisDsec_project/aCis_gameserver/java/net/sf/l2j/gameserver/network/serverpackets/NpcHtmlMessage.java:848-895 | a page that is one `<a …>text</a>` becomes exactly the button for its attributes and text |
| LinkButtons.FormatAnchorUnfold | aCisDsec_project/aCis_gameserver/java/net/sf/l2j/gameserver/network/serverpackets/NpcHtmlMessage.java:852-893 | a link is replaced by its button and scanning resumes after `</a>` |
| LinkButtons.ButtonTagNoDoubledQuote | aCisDsec_project/aCis_gameserver/java/net/sf/l2j/gameserver/network/serverpackets/NpcHtmlMessage.java:883-886 | a button built from quote-free fields has no `""` in it |
| LinkButtons.ButtonUntouched | aCisDsec_project/aCis_gameserver/java/net/sf/l2j/gameserver/network/serverpackets/NpcHtmlMessage.java:888-890 | the two `value=""…""` clean-ups leave such a button unchanged |
| LinkButtons.LinkTextPlain | aCisDsec_project/aCis_gameserver/java/net/sf/l2j/gameserver/network/serverpackets/NpcHtmlMessage.java:854-863 | a trimmed, tag-free link text that does not start with a quote is used as it is |
| LinkButtons.AttrsAction | aCisDsec_project/aCis_gameserver/java/net/sf/l2j/gameserver/network/serverpackets/NpcHtmlMessage.java:866-870 | the action of `action="X"…` is X |
| LinkButtons.PlainLinkButton | aCisDsec_project/aCis_gameserver/java/net/sf/l2j/gameserver/network/serverpackets/NpcHtmlMessage.java:852-890 | a plain link with an action becomes `<button width=… height=… back=… fore=… action="X" value="text">` with the config the text length selects |
| HtmlRegex.SkipRegexSpaces | aCisDsec_project/aCis_gameserver/java/net/sf/l2j/gameserver/network/serverpackets/NpcHtmlMessage.java:857 | `\s*` consumes exactly the whitespace characters Java's `\s` matches |
| HtmlRegex.FontOpenEnd | aCisDsec_project/aCis_gameserver/java/net/sf/l2j/gameserver/network/serverpackets/NpcHtmlMessage.java:857-858 | a `<font\s+color\s*=\s*"…">` opening tag found at i ends with `">` |
| HtmlRegex.FontAt | aCisDsec_project/aCis_gameserver/java/net/sf/l2j/gameserver/network/serverpackets/NpcHtmlMessage.java:857-858 | a font element found at i has its body before the next `</font>` |
| HtmlRegex.UnwrapFontsFrom | aCisDsec_project/aCis_gameserver/java/net/sf/l2j/gameserver/network/serverpackets/NpcHtmlMessage.java:1111 | unwrapping font elements never makes the text longer |
| HtmlRegex.UnwrapFontsNoTag | aCisDsec_project/aCis_gameserver/java/net/sf/l2j/gameserver/network/serverpackets/NpcHtmlMessage.java:1111 | text without `<` is unchanged |
| HtmlRegex.UnwrapSingleFont | aCisDsec_project/aCis_gameserver/java/net/sf/l2j/gameserver/network/serverpackets/NpcHtmlMessage.java:1163 | `<font color="c">body</font>` becomes `body` |
| HtmlRegex.AnchorAt | aCisDsec_project/aCis_gameserver/java/net/sf/l2j/gameserver/network/serverpackets/NpcHtmlMessage.java:848 | an `<a([^>]*)>(.*?)</a>` match has no `>` in its attributes and ends at the first `</a>` |
| HtmlRegex.ActionAt | aCisDsec_project/aCis_gameserver/java/net/sf/l2j/gameserver/network/serverpackets/NpcHtmlMessage.java:867 | an `action\s*=\s*"([^"]+)"` match at i yields a non-empty quote-free action |
| HtmlRegex.FirstAction | aCisDsec_project/aCis_gameserver/java/net/sf/l2j/gameserver/network/serverpackets/NpcHtmlMessage.java:866-870 | the action is the first match, or "" |
| HtmlRegex.NoActionWord | aCisDsec_project/aCis_gameserver/java/net/sf/l2j/gameserver/network/serverpackets/NpcHtmlMessage.java:866 | with no `action` in the attributes the action is "" |
| HtmlRegex.ActionFirst | aCisDsec_project/aCis_gameserver/java/net/sf/l2j/gameserver/network/serverpackets/NpcHtmlMessage.java:867-869 | the action of `action="v"…` is v |
| HtmlRegex.DoubledValueAt | aCisDsec_project/aCis_gameserver/java/net/sf/l2j/gameserver/network/serverpackets/NpcHtmlMessage.java:889 | a `value=""([^"]+)""` match lies within the text |
| HtmlRegex.UndoubleNoDoubleQuote | aCisDsec_project/aCis_gameserver/java/net/sf/l2j/gameserver/network/serverpackets/NpcHtmlMessage.java:889-890 | text with no `""` is unchanged by the clean-up |
| JavaReplacement.Prepend | aCisDsec_project/aCis_gameserver/java/net/sf/l2j/gameserver/network/serverpackets/NpcHtmlMessage.java:1137 | appending before a refused replacement still fails, and before an accepted one prefixes it |
| JavaReplacement.GroupRef | aCisDsec_project/aCis_gameserver/java/net/sf/l2j/gameserver/network/serverpackets/NpcHtmlMessage.java:1137 | a group reference reads at most one digit here, since the pattern has one group |
| JavaReplacement.QuoteReplacement | aCisDsec_project/aCis_gameserver/java/net/sf/l2j/gameserver/network/serverpackets/NpcHtmlMessage.java:1152 | `Matcher.quoteReplacement` never shortens its input, lengthens text holding `\` or `$`, and leaves other text alone |
| JavaReplacement.ExpandPlain | aCisDsec_project/aCis_gameserver/java/net/sf/l2j/gameserver/network/serverpackets/NpcHtmlMessage.java:1137 | a replacement text without `\` or `$` is appended literally |
| JavaReplacement.ExpandQuoted | aCisDsec_project/aCis_gameserver/java/net/sf/l2j/gameserver/network/serverpackets/NpcHtmlMessage.java:892 | a quoted replacement is appended literally |
| JavaReplacement.ExpandDollarThrows | aCisDsec_project/aCis_gameserver/java/net/sf/l2j/gameserver/network/serverpackets/NpcHtmlMessage.java:1137 | a `$` followed by a non-digit makes `appendReplacement` throw |
| JavaReplacement.GroupReferences | aCisDsec_project/aCis_gameserver/java/net/sf/l2j/gameserver/network/serverpackets/NpcHtmlMessage.java:1111 | `$1` expands to the first group and `$0` to the whole match |
| TutorialHtml.TutorialPageSpec | aCisDsec_project/aCis_gameserver/java/net/sf/l2j/gameserver/network/serverpackets/TutorialShowHtml.java:261-326 | a cached key is answered from the cache and then goes through tag processing; otherwise the page is built with the fixed buttons and the tutorial frame, and it is cached only when no translation entry was produced, built from the corrected halves of the three page findings (see Left out) |
| TutorialHtml.TutorialReplay | aCisDsec_project/aCis_gameserver/java/net/sf/l2j/gameserver/network/serverpackets/TutorialShowHtml.java:266-270 | when no translation entry was produced, a second page from the same text and the new cache is the same page and leaves the cache as it is |
| TutorialHtml.TutorialShowHtml.constructor | aCisDsec_project/aCis_gameserver/java/net/sf/l2j/gameserver/network/serverpackets/TutorialShowHtml.java:33-50 | the packet keeps its text, has object id 0 and no file, and its page and the cache are those of `TutorialPageSpec`, built from the corrected halves of the three page findings (see Left out) |
| Buffers.KeyIgnoresCase | aCis_gameserver/java/net/sf/l2j/gameserver/data/manager/BufferManager.java:79 | two scheme names denote the same `CASE_INSENSITIVE_ORDER` entry iff they are equal ignoring case |
| Buffers.SchemeSkills | aCis_gameserver/java/net/sf/l2j/gameserver/data/manager/BufferManager.java:262-273 | `getScheme` is the empty list when the player or the scheme is missing |
| Buffers.SchemeContainsSkill | aCis_gameserver/java/net/sf/l2j/gameserver/data/manager/BufferManager.java:302-305 | `getSchemeContainsSkill` holds iff the id occurs in the scheme's list, which then exists |
| Buffers.SchemeNameIgnoresCase | aCis_gameserver/java/net/sf/l2j/gameserver/data/manager/BufferManager.java:262-273 | in every table and for every player, two scheme names equal up to case ("Buff" and "buff", say) make `getScheme` return the same list |
| Buffers.StoredFound | aCis_gameserver/java/net/sf/l2j/gameserver/data/manager/BufferManager.java:165-170 | after storing, the named scheme of that player (any case) is the new list and every other lookup is unchanged |
| Buffers.SetSchemeLookups | aCis_gameserver/java/net/sf/l2j/gameserver/data/manager/BufferManager.java:164-170 | with the cap reached nothing any lookup sees changes, even for an existing name; otherwise only the named scheme changes |
| Buffers.SetSchemeKeepsCap | aCis_gameserver/java/net/sf/l2j/gameserver/data/manager/BufferManager.java:165-167 | no player ever holds more than the cap |
| Buffers.SetSchemeWellKeyed | aCis_gameserver/java/net/sf/l2j/gameserver/data/manager/BufferManager.java:165-170 | every entry stays stored under the case-folded form of its name |
| Buffers.DeleteSchemeLookups | aCis_gameserver/java/net/sf/l2j/gameserver/data/manager/BufferManager.java:194-207 | after deleting, the named scheme is empty and every other lookup is unchanged; a missing player or scheme changes nothing |
| Buffers.ParseIds | aCis_gameserver/java/net/sf/l2j/gameserver/data/manager/BufferManager.java:74-76 | parsing the comma-split pieces yields one id per piece or fails |
| Buffers.ParseDecimals | aCis_gameserver/java/net/sf/l2j/gameserver/data/manager/BufferManager.java:75 | the decimal texts of 32-bit ids parse back to the ids |
| Buffers.SkillsRoundTrip | aCis_gameserver/java/net/sf/l2j/gameserver/data/manager/BufferManager.java:72-76 | a skill list joined with "," (empty list → "") and parsed back by the load path is the original list |
| Buffers.SaveSkillsText | aCis_gameserver/java/net/sf/l2j/gameserver/data/manager/BufferManager.java:132-138 | the builder loop with the last comma deleted gives exactly the ids joined by "," |
| Buffers.BuilderText | aCis_gameserver/java/net/sf/l2j/gameserver/data/manager/BufferManager.java:133-134 | after the builder loop the builder holds the ids joined by "," followed by one more ",", or nothing for no ids |
| Buffers.SkillsTextNext | aCis_gameserver/java/net/sf/l2j/gameserver/data/manager/BufferManager.java:133-134 | the joined text grows by "," and the next id |
| Buffers.LoadedFinds | aCis_gameserver/java/net/sf/l2j/gameserver/data/manager/BufferManager.java:66-85 | after loading, the last row's scheme is found with exactly the list its column encodes |
| Buffers.IndexOfId | aCis_gameserver/java/net/sf/l2j/gameserver/data/manager/BufferManager.java:108 | the index of the buff with this id, or -1 iff there is none |
| Buffers.PutBuffSpec | aCis_gameserver/java/net/sf/l2j/gameserver/data/manager/BufferManager.java:108 | `LinkedHashMap.put` keeps ids distinct, stores the skill under its id, keeps every other buff, and grows only for a new id |
| Buffers.SkillTypesSpec | aCis_gameserver/java/net/sf/l2j/gameserver/data/manager/BufferManager.java:325-334 | `getSkillTypes` has no repeats, holds every buff's type, and lists types in order of first appearance |
| Buffers.IdsOfTypeAppend | aCis_gameserver/java/net/sf/l2j/gameserver/data/manager/BufferManager.java:311-320 | the ids of a concatenation are the ids of each part in order |
| Buffers.IdsOfTypeSpec | aCis_gameserver/java/net/sf/l2j/gameserver/data/manager/BufferManager.java:311-320 | every buff whose type matches ignoring case is listed, and every listed id is such a buff |
| Buffers.IdsOfTypeIgnoresCase | aCis_gameserver/java/net/sf/l2j/gameserver/data/manager/BufferManager.java:316 | the type filter does not depend on the case of the requested type |
| Buffers.ProcessCommand | aCis_gameserver/java/net/sf/l2j/gameserver/data/manager/BufferManager.java:356-367 | the command is accepted iff it has a token, that is a character other than a space |
| Buffers.BufferManager.constructor | aCis_gameserver/java/net/sf/l2j/gameserver/data/manager/BufferManager.java:43-50 | the tables start empty |
| Buffers.BufferManager.SetScheme | aCis_gameserver/java/net/sf/l2j/gameserver/data/manager/BufferManager.java:164-170 | the table becomes `WithScheme` of the old table and stays well keyed |
| Buffers.BufferManager.DeleteScheme | aCis_gameserver/java/net/sf/l2j/gameserver/data/manager/BufferManager.java:194-207 | the table becomes `WithoutScheme` of the old table |
| Buffers.BufferManager.LoadSchemes | aCis_gameserver/java/net/sf/l2j/gameserver/data/manager/BufferManager.java:61-92 | the table becomes `Loaded` of the old table and the rows |
| Buffers.BufferManager.AddBuff | aCis_gameserver/java/net/sf/l2j/gameserver/data/manager/BufferManager.java:108 | the buffs become `PutBuff` of the old buffs |
| Buffers.BufferManager.GetSkillTypes | aCis_gameserver/java/net/sf/l2j/gameserver/data/manager/BufferManager.java:325-334 | the loop returns exactly `SkillTypes` of the buffs |
| Buffers.BufferManager.GetSkillsIdsByType | aCis_gameserver/java/net/sf/l2j/gameserver/data/manager/BufferManager.java:311-320 | the loop returns exactly `IdsOfType` of the buffs |
| ShiffMod.VoicedCommandList | aCis_gameserver/java/net/sf/l2j/gameserver/handler/voicedcommandhandlers/Shiff_Mod.java:37-39 | the handler answers exactly the one command `shifffmodddrop` |
| ShiffMod.Rows | aCis_gameserver/java/net/sf/l2j/gameserver/handler/voicedcommandhandlers/Shiff_Mod.java:92-98 | a category contributes one row per drop, in order, each tagged with the category's spoil flag |
| ShiffMod.Skipped | aCis_gameserver/java/net/sf/l2j/gameserver/handler/voicedcommandhandlers/Shiff_Mod.java:99-106 | the drops skipped before the page never exceed the drops seen so far |
| ShiffMod.ScanCategory | aCis_gameserver/java/net/sf/l2j/gameserver/handler/voicedcommandhandlers/Shiff_Mod.java:98-147 | one pass of the inner loop keeps the counters in step with the drops seen, or stops with a full page holding exactly the drops (page-1)*15 up to page*15 of the flattened list |
| ShiffMod.ScanDrop | aCis_gameserver/java/net/sf/l2j/gameserver/handler/voicedcommandhandlers/Shiff_Mod.java:99-146 | one drop is passed over on an earlier page, refused on a full page (which then holds drops (page-1)*15 up to page*15), or shown as the next row |
| ShiffMod.ScanNext | aCis_gameserver/java/net/sf/l2j/gameserver/handler/voicedcommandhandlers/Shiff_Mod.java:92-148 | one category, entered below a full page, leaves the counters and rows in step with the drops of the categories so far, or a full page with more drops after it |
| ShiffMod.PageOf | aCis_gameserver/java/net/sf/l2j/gameserver/handler/voicedcommandhandlers/Shiff_Mod.java:87-148 | the rows shown are the page's window of the flattened drop list and the next-page flag is `HasMore` |
| ShiffMod.PageWindow | aCis_gameserver/java/net/sf/l2j/gameserver/handler/voicedcommandhandlers/Shiff_Mod.java:36 | a page holds at most 15 drops, no drop for a page below 1, and the k-th shown drop is drop (page-1)*15+k of the list |
| ShiffMod.DropOnItsPage | aCis_gameserver/java/net/sf/l2j/gameserver/handler/voicedcommandhandlers/Shiff_Mod.java:99-106 | drop number j appears on page j/15+1 at position j mod 15 |
| ShiffMod.NextLinkRule | aCis_gameserver/java/net/sf/l2j/gameserver/handler/voicedcommandhandlers/Shiff_Mod.java:161-166 | a next-page link comes only with a full page, and without it the following page is empty |
| ShiffMod.NextLinkBeforeEmptyCategory | aCis_gameserver/java/net/sf/l2j/gameserver/handler/voicedcommandhandlers/Shiff_Mod.java:92-96 | a full first page followed by an empty category still offers a next page, and that page is empty |
| ShiffMod.ParseRequest | aCis_gameserver/java/net/sf/l2j/gameserver/handler/voicedcommandhandlers/Shiff_Mod.java:50-55 | commands not starting with the name are ignored; otherwise the npc id is the second token and the page the third, 1 when absent, and a token `Integer.parseInt` rejects is an error |
| ShiffMod.TokensCons | aCis_gameserver/java/net/sf/l2j/gameserver/handler/voicedcommandhandlers/Shiff_Mod.java:51 | space tokenizing splits off a leading word without spaces |
| ShiffMod.RequestOfLink | aCis_gameserver/java/net/sf/l2j/gameserver/handler/voicedcommandhandlers/Shiff_Mod.java:156-165 | the bypass of a previous or next link parses back to the npc and the page it names |
| ShiffMod.RequestWithPage | aCis_gameserver/java/net/sf/l2j/gameserver/handler/voicedcommandhandlers/Shiff_Mod.java:156-165 | the two-argument bypass parses back to its npc and page |
| ShiffMod.RequestWithoutPage | aCis_gameserver/java/net/sf/l2j/gameserver/handler/voicedcommandhandlers/Shiff_Mod.java:156-165 | the one-argument bypass parses back to its npc and page 1 |
| ShiffMod.ShiffNpcDropList | aCis_gameserver/java/net/sf/l2j/gameserver/handler/voicedcommandhandlers/Shiff_Mod.java:66-176 | the player receives exactly one packet: the unknown-template message, the no-drops page, or the page of drops with its links |
| ShiffMod.UseVoicedCommand | aCis_gameserver/java/net/sf/l2j/gameserver/handler/voicedcommandhandlers/Shiff_Mod.java:42-59 | a blocked player gets the refusal message and ActionFailed and false; otherwise a drop request sends its page and returns true, a malformed one throws and sends nothing, any other command returns true with nothing sent |
| Merchants.NoInnerDash | aCisDsec_project/aCis_gameserver/java/net/sf/l2j/gameserver/model/actor/instance/Merchant.java:42 | the decimal text of an int has no dash after its first character, so the dash of `npcId-val` is the first one after the sign |
| Merchants.PathShape | aCisDsec_project/aCis_gameserver/java/net/sf/l2j/gameserver/model/actor/instance/Merchant.java:44 | every merchant page path is the merchant directory, a name and `.htm`, and the name can be cut back out |
| Merchants.FileNameReadsBack | aCisDsec_project/aCis_gameserver/java/net/sf/l2j/gameserver/model/actor/instance/Merchant.java:37-42 | the file name gives back the npc id, and the val when it is not 0 |
| Merchants.HtmlPathReadsBack | aCisDsec_project/aCis_gameserver/java/net/sf/l2j/gameserver/model/actor/instance/Merchant.java:35-45 | the page path starts with the merchant directory, ends in `.htm`, and its name gives back the npc id and val |
| Merchants.HtmlPathInjective | aCisDsec_project/aCis_gameserver/java/net/sf/l2j/gameserver/model/actor/instance/Merchant.java:35-45 | two (npc, val) pairs share a page path only when they are equal |
| Merchants.ParsedIdsNext | aCisDsec_project/aCis_gameserver/java/net/sf/l2j/gameserver/model/actor/instance/Merchant.java:59-62 | reading one more comma-separated piece is one step of the id reader |
| Merchants.ParsedIdsStop | aCisDsec_project/aCis_gameserver/java/net/sf/l2j/gameserver/model/actor/instance/Merchant.java:59-62 | once an id fails to parse no further piece changes the result |
| Merchants.ReadIds | aCisDsec_project/aCis_gameserver/java/net/sf/l2j/gameserver/model/actor/instance/Merchant.java:59-62 | the loop over the split pieces collects the trimmed non-empty ids, stopping at the first malformed one |
| Merchants.LoadBlockedItems | aCisDsec_project/aCis_gameserver/java/net/sf/l2j/gameserver/model/actor/instance/Merchant.java:50-74 | without the ini file both sets are empty; otherwise the price block list is read first, and a malformed id in it leaves the sell block list empty |
| Merchants.IdListRoundTrip | aCisDsec_project/aCis_gameserver/java/net/sf/l2j/gameserver/model/actor/instance/Merchant.java:58-62 | a comma-joined list of decimal ids reads back as the set of those ids with no failure |
| Merchants.ParsedDecimals | aCisDsec_project/aCis_gameserver/java/net/sf/l2j/gameserver/model/actor/instance/Merchant.java:59-62 | the decimal texts of ids read back as the set of those ids |
| Merchants.Sellable | aCisDsec_project/aCis_gameserver/java/net/sf/l2j/gameserver/model/actor/instance/Merchant.java:100-102 | the kept items are items of the inventory list, none on the sell block list, and every item off that list is kept |
| Merchants.SellableOrder | aCisDsec_project/aCis_gameserver/java/net/sf/l2j/gameserver/model/actor/instance/Merchant.java:102 | with an empty block list nothing is removed, and filtering twice is filtering once |
| Merchants.Sell | aCisDsec_project/aCis_gameserver/java/net/sf/l2j/gameserver/model/actor/instance/Merchant.java:93-125 | with nothing kept and an empty-list page cached that page is sent and no price changes; otherwise kept items on the price block list sell for 0 and the sell list of the player's adena and the kept items is sent |
| Merchants.ShadowHtml | aCisDsec_project/aCis_gameserver/java/net/sf/l2j/gameserver/model/actor/instance/Merchant.java:140-155 | the shadow page is an html packet for the merchant's object id |
| Merchants.ShadowPlainPage | aCisDsec_project/aCis_gameserver/java/net/sf/l2j/gameserver/model/actor/instance/Merchant.java:140-155 | a shadow page file without `%` placeholders reaches the player exactly as it is stored |
| Merchants.ShadowPageByLevel | aCisDsec_project/aCis_gameserver/java/net/sf/l2j/gameserver/model/actor/instance/Merchant.java:144-151 | the shadow item page never goes down as the level goes up and changes exactly at levels 40, 46 and 52 |
| Merchants.CommandNames | aCisDsec_project/aCis_gameserver/java/net/sf/l2j/gameserver/model/actor/instance/Merchant.java:86-174 | each command name, in any case, reaches its own branch, and Wear reaches the Folk handler when wearing is not allowed |
| Merchants.NoArgumentNoAction | aCisDsec_project/aCis_gameserver/java/net/sf/l2j/gameserver/model/actor/instance/Merchant.java:88-89 | a command that needs a list id but has none does nothing |
| Merchants.BadListIdThrows | aCisDsec_project/aCis_gameserver/java/net/sf/l2j/gameserver/model/actor/instance/Merchant.java:91 | a Buy or Wear list id that `Integer.parseInt` rejects throws |
| Merchants.ShowShopWindow | aCisDsec_project/aCis_gameserver/java/net/sf/l2j/gameserver/model/actor/instance/Merchant.java:187-205 | an unknown buy list or one this npc may not use sends nothing; otherwise the inventory is disabled and the buy or preview list is sent |
| Merchants.OnBypassFeedback | aCisDsec_project/aCis_gameserver/java/net/sf/l2j/gameserver/model/actor/instance/Merchant.java:77-175 | the action taken is `Decide` of the command and the player's karma and level; Buy and Wear of a list this npc may use disable the inventory and send the buy or preview list, and of any other list send nothing; Sell leaves the inventory as it was and sends the empty-page html or the sell list of the player's adena and the kept items with their prices; Multisell_Shadow sends exactly the shadow page of the player's level (`ShadowHtml`), with the inventory and prices unchanged; no other command sends anything, and only Sell changes prices |
| I18n.Lookup | aCis_gameserver/java/net/sf/l2j/gameserver/util/I18n.java:35-37 | a stored key gives its translation and a missing key gives `!key!` |
| I18n.LookupPlaceholder | aCis_gameserver/java/net/sf/l2j/gameserver/util/I18n.java:35-37 | the placeholder comes back exactly when the key is missing or its stored translation is the placeholder itself |
| I18n.EmptyTableLookup | aCis_gameserver/java/net/sf/l2j/gameserver/util/I18n.java:29-32 | after a failed load, every lookup gives the placeholder |
| I18n.LocaleName | aCis_gameserver/java/net/sf/l2j/gameserver/util/I18n.java:70-73 | the locale name is the language, `_` and the country |
| I18n.DefaultCountry | aCis_gameserver/java/net/sf/l2j/gameserver/util/I18n.java:52-66 | a language in the table has a two-letter default country |
| I18n.DefaultCountryIgnoresCase | aCis_gameserver/java/net/sf/l2j/gameserver/util/I18n.java:53 | the default country does not depend on the case of the language |
| I18n.ShortCountryAgrees | aCis_gameserver/java/net/sf/l2j/gameserver/util/I18n.java:91-95 | `setLocalel` picks the same country as `setLocale` for every language it supports |
| I18n.ChosenCountry | aCis_gameserver/java/net/sf/l2j/gameserver/util/I18n.java:47-67 | an empty language is refused, a given country is kept, and a chosen country is never empty |
| I18n.Translator.constructor | aCis_gameserver/java/net/sf/l2j/gameserver/util/I18n.java:13-33 | the static initialiser sets pt_BR and loads its file, or an empty table when that file cannot be read |
| I18n.Translator.Get | aCis_gameserver/java/net/sf/l2j/gameserver/util/I18n.java:35-37 | `get` is the translation, or `!key!` when the key is missing |
| I18n.Translator.SetLocale | aCis_gameserver/java/net/sf/l2j/gameserver/util/I18n.java:44-86 | a refused language changes nothing; otherwise the locale changes, and the translations are reloaded only when the new locale's file exists |
| I18n.Translator.SetLocaleShort | aCis_gameserver/java/net/sf/l2j/gameserver/util/I18n.java:88-122 | only pt and en are accepted; the locale changes before the file check, and a missing file is reported with the old translations kept |
| Drops.DropData.constructor | aCis_gameserver/java/net/sf/l2j/gameserver/model/item/DropData.java:24-29 | the four arguments are stored unchanged and the list of further drops starts empty |
| Drops.DropData.SetItemId | aCis_gameserver/java/net/sf/l2j/gameserver/model/item/DropData.java:31-37 | the item id becomes the argument, `getItemId()` reads it back, and nothing else changes |
| Drops.DropData.SetMinDrop | aCis_gameserver/java/net/sf/l2j/gameserver/model/item/DropData.java:39-45 | the minimum count becomes the argument, `getMinDrop()` reads it back, and nothing else changes |
| Drops.DropData.SetMaxDrop | aCis_gameserver/java/net/sf/l2j/gameserver/model/item/DropData.java:47-53 | the maximum count becomes the argument, `getMaxDrop()` reads it back, and nothing else changes |
| Drops.DropData.SetChance | aCis_gameserver/java/net/sf/l2j/gameserver/model/item/DropData.java:55-65 | the chance becomes the argument, both `getChance()` and `chance()` read it back, and nothing else changes |
| Drops.DropData.Add | aCis_gameserver/java/net/sf/l2j/gameserver/model/item/DropData.java:98-100 | the drop is appended to the list of further drops |
| Drops.NeverQuestDrop | aCis_gameserver/java/net/sf/l2j/gameserver/model/item/DropData.java:88-91 | no drop is a quest drop, because nothing ever sets the quest id or the state ids |
| ClassBalance.TypeNamed | aCis_gameserver/java/net/sf/l2j/gameserver/data/manager/ClassBalanceManager.java:22-31 | `ClassBalanceType.valueOf` accepts exactly the seven constant names and gives the constant of that name |
| ClassBalance.TypeNameRoundTrip | aCis_gameserver/java/net/sf/l2j/gameserver/data/manager/ClassBalanceManager.java:22-31 | every balance type reads back from its own name |
| ClassBalance.HolderOf | aCis_gameserver/java/net/sf/l2j/gameserver/data/manager/ClassBalanceManager.java:75-81 | a holder exists exactly when the type, if given, is a constant name and the class and target are known class names; the type defaults to NORMAL and the value to 1.0 |
| ClassBalance.Holders | aCis_gameserver/java/net/sf/l2j/gameserver/data/manager/ClassBalanceManager.java:54 | the holders are those of the document's balance nodes in order, each built from its own node, and never more than the nodes |
| ClassBalance.HoldersFrom | aCis_gameserver/java/net/sf/l2j/gameserver/data/manager/ClassBalanceManager.java:54 | a node whose holder fails ends the list; otherwise its holder comes first |
| ClassBalance.HoldersAllNodes | aCis_gameserver/java/net/sf/l2j/gameserver/data/manager/ClassBalanceManager.java:54 | when every node is valid there is one holder per node |
| ClassBalance.ValueFor | aCis_gameserver/java/net/sf/l2j/gameserver/data/manager/ClassBalanceManager.java:57-61 | the value of the first holder matching the type, the attacker's class and the target's class, or 1.0 when none matches |
| ClassBalance.ValueForCreatures | aCis_gameserver/java/net/sf/l2j/gameserver/data/manager/ClassBalanceManager.java:57-61 | for two players it is `ValueFor` of their classes; a creature without an acting player makes the filter throw exactly when some holder has the type (for the attacker) or the type and the attacker's class (for the target), and otherwise the default 1.0 is returned |
| ClassBalance.ClassBalanceManager.GetValueFor | aCis_gameserver/java/net/sf/l2j/gameserver/data/manager/ClassBalanceManager.java:57-61 | for two players the manager answers `ValueFor` of its data |
| ClassBalance.EarlierEntryWins | aCis_gameserver/java/net/sf/l2j/gameserver/data/manager/ClassBalanceManager.java:59 | entries added after a matching one never change the value found |
| ClassBalance.ClassBalanceManager.constructor | aCis_gameserver/java/net/sf/l2j/gameserver/data/manager/ClassBalanceManager.java:33-43 | the new manager holds the holders of the document |
| ClassBalance.ClassBalanceManager.ParseDocument | aCis_gameserver/java/net/sf/l2j/gameserver/data/manager/ClassBalanceManager.java:51-55 | the document's holders are appended to the existing data |
| ClassBalance.ClassBalanceManager.Reload | aCis_gameserver/java/net/sf/l2j/gameserver/data/manager/ClassBalanceManager.java:45-49 | after a reload the data is the document's holders alone |
| CancelRestore.LoadSettings | aCisDsec_project/aCis_gameserver/java/net/sf/l2j/gameserver/util/SpecialModCancelRestore.java:12-23 | an unreadable ini leaves the mod off with a 10000 ms delay; otherwise the switch is `parseBoolean` of CancelRestore and the delay is CustomCancelTaskDelay, or stays 10000 when `parseInt` rejects it while the switch is still read |
| CancelRestore.EmptyConfigDefaults | aCisDsec_project/aCis_gameserver/java/net/sf/l2j/gameserver/util/SpecialModCancelRestore.java:19-20 | an ini without the two keys gives the same defaults as no ini |
| CancelRestore.ScheduleBuffRestore | aCisDsec_project/aCis_gameserver/java/net/sf/l2j/gameserver/util/SpecialModCancelRestore.java:36-44 | a restore is scheduled exactly for a present player with a non-empty list, and it runs after the configured delay |
| CancelRestore.Restored | aCisDsec_project/aCis_gameserver/java/net/sf/l2j/gameserver/util/SpecialModCancelRestore.java:49-67 | restoring never removes an active effect |
| CancelRestore.RestoredCounts | aCisDsec_project/aCis_gameserver/java/net/sf/l2j/gameserver/util/SpecialModCancelRestore.java:53-66 | one sound is played per newly restored buff, and every restored buff is a skill of the list |
| CancelRestore.RestoredClosed | aCisDsec_project/aCis_gameserver/java/net/sf/l2j/gameserver/util/SpecialModCancelRestore.java:49-67 | the effects after the restore that ends at a failure are the old ones plus every applicable skill listed before the first non-active failing one, with one sound per skill not active yet |
| CancelRestore.Sounds | aCisDsec_project/aCis_gameserver/java/net/sf/l2j/gameserver/util/SpecialModCancelRestore.java:64 | n restore sounds are n `ItemSound.quest_middle` packets |
| CancelRestore.SpecialModCancelRestore.constructor | aCisDsec_project/aCis_gameserver/java/net/sf/l2j/gameserver/util/SpecialModCancelRestore.java:15-23 | the settings are those `LoadSettings` gives for the ini |
| CancelRestore.SpecialModCancelRestore.RestoreBuffs | aCisDsec_project/aCis_gameserver/java/net/sf/l2j/gameserver/util/SpecialModCancelRestore.java:49-67 | a missing, dead or offline player is left alone; otherwise the effects and the sounds sent are those `Restored` gives, so a failing skill ends the restore |
| CancelRestoreIsolated.RestoredEach | aCis_gameserver/java/net/sf/l2j/gameserver/util/SpecialModCancelRestore.java:51-72 | restoring with each failure caught never removes an active effect |
| CancelRestore.ApplicableIs | aCis_gameserver/java/net/sf/l2j/gameserver/util/SpecialModCancelRestore.java:55-71 | a skill id can be restored exactly when a non-null entry of the list carries it and its effects do not fail |
| CancelRestoreIsolated.RestoredEachClosed | aCis_gameserver/java/net/sf/l2j/gameserver/util/SpecialModCancelRestore.java:55-71 | the effects after the restore are the old ones plus every applicable skill, and one sound is played per skill that was not active yet |
| CancelRestoreIsolated.VariantsAgree | aCis_gameserver/java/net/sf/l2j/gameserver/util/SpecialModCancelRestore.java:55-71 | when no skill fails, both variants restore the same buffs and play the same sounds |
| CancelRestoreIsolated.IsolationRestoresMore | aCis_gameserver/java/net/sf/l2j/gameserver/util/SpecialModCancelRestore.java:56-70 | catching each failure never restores fewer buffs than stopping at the first one |
| CancelRestoreIsolated.SpecialModCancelRestore.constructor | aCis_gameserver/java/net/sf/l2j/gameserver/util/SpecialModCancelRestore.java:15-33 | the two getters report the settings `LoadSettings` gives for the ini |
| CancelRestoreIsolated.SpecialModCancelRestore.Schedule | aCis_gameserver/java/net/sf/l2j/gameserver/util/SpecialModCancelRestore.java:38-46 | a restore is scheduled exactly for a present player with a non-empty list, after the delay the getter reports |
| CancelRestoreIsolated.SpecialModCancelRestore.RestoreBuffs | aCis_gameserver/java/net/sf/l2j/gameserver/util/SpecialModCancelRestore.java:51-72 | a missing, dead or offline player is left alone; otherwise the effects and sounds are those `RestoredEach` gives, so a failing skill is skipped and the loop goes on |
| LanguageCommands.Decide | aCisDsec_project/aCis_gameserver/java/net/sf/l2j/gameserver/handler/voicedcommandhandlers/LanguageCommand.java:14-50 | a command starting with `setlang` asks for the usage text or a locale change; otherwise `langon` and `langoff`, in any case, switch translation on or off, and anything else is not handled |
| LanguageCommands.SetLangParameters | aCisDsec_project/aCis_gameserver/java/net/sf/l2j/gameserver/handler/voicedcommandhandlers/LanguageCommand.java:16-24 | a target of a language and a country separated by one space changes the locale to those two words |
| LanguageCommands.SplitTwo | aCisDsec_project/aCis_gameserver/java/net/sf/l2j/gameserver/handler/voicedcommandhandlers/LanguageCommand.java:16 | splitting two space-free words joined by a space gives the two words |
| LanguageCommands.SetLangNeedsCountry | aCisDsec_project/aCis_gameserver/java/net/sf/l2j/gameserver/handler/voicedcommandhandlers/LanguageCommand.java:17-20 | a target without a space gets the usage text and the command reports false |
| LanguageCommands.LangOnIgnoresCase | aCisDsec_project/aCis_gameserver/java/net/sf/l2j/gameserver/handler/voicedcommandhandlers/LanguageCommand.java:35-40 | `langon` in any case switches translation on and reports true |
| LanguageCommands.LangOffIgnoresCase | aCisDsec_project/aCis_gameserver/java/net/sf/l2j/gameserver/handler/voicedcommandhandlers/LanguageCommand.java:42-47 | `langoff` in any case switches translation off and reports true |
| LanguageCommands.UseVoicedCommand | aCisDsec_project/aCis_gameserver/java/net/sf/l2j/gameserver/handler/voicedcommandhandlers/LanguageCommand.java:14-50 | the usage text leaves everything as it was; a locale change sets the locale as `setLocale` does, reports the current locale and empties the page cache; langon and langoff set the player's switch, empty the cache and send their message; the result is true exactly for the handled commands |
| VoicedCommands.CommandList | aCisDsec_project/aCis_gameserver/java/net/sf/l2j/gameserver/handler/voicedcommandhandlers/LanguageCommand.java:9-11 | every handler answers at least one name, and no name is empty or holds a space |
| VoicedCommands.RegisteredLookup | aCis_gameserver/java/net/sf/l2j/gameserver/handler/VoicedCommandHandler.java:38-44 | after registering, every listed name maps to the handler and every other name keeps its old entry |
| VoicedCommands.RegisteredKeys | aCis_gameserver/java/net/sf/l2j/gameserver/handler/VoicedCommandHandler.java:38-44 | the registered names are the old names plus the listed ones |
| VoicedCommands.CommandName | aCis_gameserver/java/net/sf/l2j/gameserver/handler/VoicedCommandHandler.java:57-70 | none for an empty command; otherwise the text before the first space, or the whole command when it has no space |
| VoicedCommands.CommandNameOfArguments | aCis_gameserver/java/net/sf/l2j/gameserver/handler/VoicedCommandHandler.java:65-67 | arguments after a space do not change the name a command is looked up by |
| VoicedCommands.VoicedCommandHandler.constructor | aCis_gameserver/java/net/sf/l2j/gameserver/handler/VoicedCommandHandler.java:29-36 | the table holds Shiff_Mod's names and then LanguageCommand's |
| VoicedCommands.VoicedCommandHandler.RegisterHandler | aCis_gameserver/java/net/sf/l2j/gameserver/handler/VoicedCommandHandler.java:38-44 | the table becomes the old table with each of the handler's names put to it |
| VoicedCommands.VoicedCommandHandler.GetHandler | aCis_gameserver/java/net/sf/l2j/gameserver/handler/VoicedCommandHandler.java:57-70 | no handler for an empty command; otherwise the handler registered under the command's name, when there is one |
| VoicedCommands.InitialTableServes | aCis_gameserver/java/net/sf/l2j/gameserver/handler/VoicedCommandHandler.java:29-36 | the initial table maps exactly `shifffmodddrop` to Shiff_Mod and `setlang`, `langon` and `langoff` to LanguageCommand, four entries in all |
| Icons.Loaded | aCis_gameserver/java/net/sf/l2j/gameserver/data/xml/IconTable.java:32-36 | the loaded items are the old ones plus the item of every row read |
| Icons.LastRowWins | aCis_gameserver/java/net/sf/l2j/gameserver/data/xml/IconTable.java:35 | an item's icon is that of the last row naming it |
| Icons.UnlistedIsUnknown | aCis_gameserver/java/net/sf/l2j/gameserver/data/xml/IconTable.java:44-46 | an item that no row names gets `icon.unknown` |
| Icons.IconCellReadsBack | aCis_gameserver/java/net/sf/l2j/gameserver/data/xml/IconTable.java:48-51 | the icon name can be cut back out of its HTML cell, between the opening text and the next double quote |
| Icons.IconTable.constructor | aCis_gameserver/java/net/sf/l2j/gameserver/data/xml/IconTable.java:17-21 | the new table holds the rows read before the first failure |
| Icons.IconTable.Load | aCis_gameserver/java/net/sf/l2j/gameserver/data/xml/IconTable.java:27-42 | the rows read before a failure are put in order, and rows after it are lost |
| Icons.IconTable.GetIcon | aCis_gameserver/java/net/sf/l2j/gameserver/data/xml/IconTable.java:44-46 | a stored icon, null included, or `icon.unknown` for an item with no row |
| Icons.IconTable.AppendIconHtml | aCis_gameserver/java/net/sf/l2j/gameserver/data/xml/IconTable.java:48-51 | the builder gains exactly the icon cell of the item |
| TranslationsFile.SaveTranslationsToFile | aCisDsec_project/aCis_gameserver/java/net/sf/l2j/gameserver/network/serverpackets/NpcHtmlMessage.java:979-1036 | the answer is `NeedsTranslation` of the file's lines and the extracted map; `newTranslations` is exactly the extracted keys the file lacks, with their texts; without new keys nothing is written, otherwise the appended lines are the writer's (`WritesEntries`) |
| TranslationsFile.WriteNewTranslations | aCisDsec_project/aCis_gameserver/java/net/sf/l2j/gameserver/network/serverpackets/NpcHtmlMessage.java:1019-1032 | the appended lines are a `# Extracted from:` header iff the page path is non-null and non-empty, then one `key=value` line for every non-empty new key, each key once; the empty key is skipped |
| TranslationsFile.HeaderLines | aCisDsec_project/aCis_gameserver/java/net/sf/l2j/gameserver/network/serverpackets/NpcHtmlMessage.java:1021-1024 | the header is at most one line, and the loading loop reads it as a comment, never as an entry |
| TranslationsFile.EntryLineReadsBack | aCisDsec_project/aCis_gameserver/java/net/sf/l2j/gameserver/network/serverpackets/NpcHtmlMessage.java:988-993 | the loading loop reads a written `key=value` line back under the same key, for a non-empty key without `=`, without a leading `#` and without surrounding blanks |
| TranslationsFile.KnownKeysAppend | aCisDsec_project/aCis_gameserver/java/net/sf/l2j/gameserver/network/serverpackets/NpcHtmlMessage.java:988-993 | the keys loaded from two runs of lines are the union of the keys of each |
| TranslationsFile.WrittenKeyKnown | aCisDsec_project/aCis_gameserver/java/net/sf/l2j/gameserver/network/serverpackets/NpcHtmlMessage.java:1006-1032 | a key new to the file is loaded from the lines the writer appends for it |
| TranslationsFile.SecondSaveNothingNew | aCisDsec_project/aCis_gameserver/java/net/sf/l2j/gameserver/network/serverpackets/NpcHtmlMessage.java:979-1036 | once the appended lines follow the file's, saving the same extracted keys again finds no new key |
| TranslationsFile.LoadLine | aCisDsec_project/aCis_gameserver/java/net/sf/l2j/gameserver/network/serverpackets/NpcHtmlMessage.java:988-998 | one line adds its key to the known keys when it is an entry, and raises the flag when it is an entry for an extracted key whose value is empty or is the extracted text |
| TranslationsFile.AnyUntranslatedIff | aCisDsec_project/aCis_gameserver/java/net/sf/l2j/gameserver/network/serverpackets/NpcHtmlMessage.java:988-999 | the loading loop raises the flag iff some line of the file is such an entry |
| TranslationsFile.NewEntries | aCisDsec_project/aCis_gameserver/java/net/sf/l2j/gameserver/network/serverpackets/NpcHtmlMessage.java:1006-1012 | the new entries are exactly the extracted keys missing from the file, each with its extracted text |
| TranslationsFile.NewKeyNeedsTranslation | aCisDsec_project/aCis_gameserver/java/net/sf/l2j/gameserver/network/serverpackets/NpcHtmlMessage.java:1007-1011 | a key new to the file always makes the answer true |
| TranslationsFile.NoFileNewKeys | aCisDsec_project/aCis_gameserver/java/net/sf/l2j/gameserver/network/serverpackets/NpcHtmlMessage.java:985-1016 | without a readable file the answer is true iff anything was extracted |
| TranslationsFile.AllTranslated | aCisDsec_project/aCis_gameserver/java/net/sf/l2j/gameserver/network/serverpackets/NpcHtmlMessage.java:979-1036 | the answer is false iff every extracted key is in the file and none of the file's entries for them is empty or holds the extracted text |

## Left out

- The Tk GUI of the control panel (windows, widgets, `after` timers, console helpers) is not modelled. Console text is reduced to the events the logic decides.
- Threads, `time.sleep`, `join` and the terminate/kill timeouts are timing, not logic. A process's liveness and its reaction to a signal are inputs.
- The `subprocess` calls (server launches, git, ant, sc, java, netstat, tasklist, taskkill) and `webbrowser` are I/O. Only the parsing of their output and the decisions on it are modelled.
- The dependency checks for MariaDB and Java are OS probing and UI.
- The Jsoup passes (standardising the page, link and body texts becoming `%key%` tags, and building the map of extracted keys) are a foreign HTML parser. Their results are the inputs of `PageCache.JsoupPasses`.
- `saveTranslationsToFile` is the project's own code and is modelled by `TranslationsFile.SaveTranslationsToFile`. Reading the properties file and appending to it are file I/O: the file's lines are an input, and the append is returned as the lines it would add: the header comment, then one `key=value` line per non-empty new key, in the order of `HashMap` iteration, which is an output here. A failed read is modelled as a file without lines, and a failed write is not modelled, as the source ignores both. `PageCache.JsoupPasses.hasTranslation` stands for its answer on the map the Jsoup passes built, and is taken as an input.
- The legacy `processHtml`/`processFontLevelTags` regex pipeline is not called by the modelled path. The regular expressions that are called are written out as explicit scans.
- File and cache I/O are inputs: `HtmCache`, file existence, reading `Properties` files and the `config/...ini` files, and writing translated pages and translation keys. A configuration file is a map from keys to values, or its absence.
- Database access is left out: `BufferManager.loadSchemes`/`saveSchemes` and the SQL of `setScheme`/`deleteScheme`. The rows a query yields are inputs and writes are not modelled.
- Floating point is left out. The drop chance and its `DecimalFormat` text, and the rate multiplications of `Shiff_Mod`'s quantity column, are not modelled. Class-balance values and `DropData.chance` are only stored and returned, so they are kept as reals.
- `Double.parseDouble` of a balance value and the XML parsing of the balance and buff documents are left out. Their nodes arrive as attribute records.
- `ThreadPool.schedule` in the cancel-restore mod is not modelled. Scheduling reports the delay the restore would run after.
- The static-block console output of the cancel-restore mod is left out.
- Packet serialisation (`writeImpl`) is left out. A packet is a value of `Players.Packet`.
- `String.hashCode` keys of `VoicedCommandHandler` are modelled as the names themselves. Hash collisions are not modelled.
- `ConcurrentHashMap` and `CopyOnWriteArrayList` are modelled as values updated in one step. Concurrent access is left out.
- `Boolean.parseBoolean` is modelled as a case-insensitive comparison with `true`.
- Case mapping is ASCII only. Java `Locale` normalisation beyond lower-casing the language and upper-casing the country is left out.
- `DropData.getRandomDrop` uses randomness. `loadDropData`, `parseInteger` and `parseDouble` are stubs that return null. None of these is modelled.
- `FuriousMobMod.java` and `Locale.java` are not part of this model: one only loads constants and the other only declares them.
- The singleton accessors (`getInstance`, `SingletonHolder`) are left out. Each class is modelled by its constructor.
- `Player.java`, `NpcTemplate`, `ItemData` and the buy-list and multisell managers are not part of this model. They appear only through the fields and inputs the modelled code reads.
- ShiffMod.ShiffNpcDropList: the page is sent as a `DropListPage` value. It holds the drops shown in order, their category types and the two link flags, not the HTML text. The HTML text with icons, names, quantities and chance columns is not modelled.
- Merchants.ShadowHtml: the page `setFile` opens for Multisell_Shadow is taken from the stored pages, with setFile's missing-page text when there is none, and `%objectId%` is replaced. `setFile`'s ignore-list and translation stages are not repeated here, because the NPC page pipeline is modelled separately by `NpcHtml`.
- Merchants.Sell: the empty-list page is sent with `%objectId%` replaced. The translation stages `setHtml` would run on it are not repeated here, because the NPC page pipeline is modelled separately by `NpcHtml`.
- Merchants.OnBypassFeedback: Multisell, Exc_Multisell, Newbie_Exc_Multisell, the PK page and the Folk handler are reported as chosen actions. Their effects are not modelled.
- CancelRestore.SpecialModCancelRestore.RestoreBuffs: the exception `getEffects` throws is modelled as the skill's id being in `failing`. A failing skill is taken to add no effect.
- CancelRestoreIsolated.SpecialModCancelRestore.RestoreBuffs: the same model of a failing skill. The error message printed for it is left out.
- Icons.IconTable.Load: a database failure is modelled as the number of rows read before it (`readable`). The logged error is left out.
- I18n.Translator.SetLocale: a properties file that exists but cannot be read loads an empty table in the source. The model treats every existing file as readable.
- LogTailer.Poll: the log is taken to be valid UTF-8 text, read in one snapshot together with its size. Bytes that are not valid UTF-8, which `errors='ignore'` drops while `getsize` still counts them, and a file that changes between `getsize` and the read are not modelled. `f.tell()` is taken to be the byte offset, which it is for UTF-8 at the end of the file.
- HtmlTags.ProcessHtmlTags: the page is built from the corrected halves of the three Findings on lines 1073-1084, 1137 and 1152-1157, not from the code as written. Where they differ: the translation `["Hello"]` gives `Hello` (the source gives `"Hello"`); a text run of 50 or more characters holding `$a` is wrapped (the source throws `IllegalArgumentException`); the label `Pay $5` stays `Pay $5` (the source gives `Pay \$5`). The as-written halves are modelled and proved separately, as the Findings table lists.
- HtmlTags.ProcessFoundKey: translations are cleaned by the corrected `Unquote`. `["Hello"]` gives `Hello` where the source gives `"Hello"`, and a translation `["!key!"]` is put aside as a placeholder where the source replaces the key with `"!key!"` at once.
- HtmlTags.FirstPassBookkeeping: keys are classified by the corrected `Unquote`, with the two differences of the line above.
- HtmlTags.SubstitutionBookkeeping: the same corrected classification of keys.
- HtmlTags.OneKeyTranslated: the result is the corrected `Unquote` of the translation, so `["Hello"]` gives `Hello` where the source gives `"Hello"`.
- HtmlTags.SubstituteKeys: the loops substitute values cleaned by the corrected `Unquote`.
- HtmlTags.ReplaceFoundKeys: the first-pass loop cleans values with the corrected `Unquote`.
- NpcHtml.SetHtmlSpec: a processed page goes through `HtmlTags.ProcessHtmlTags`, so it has the three differences listed for it.
- NpcHtml.NpcHtmlMessage.SetHtml: the stored page is that of `SetHtmlSpec`, with the same three differences.
- NpcHtml.NpcHtmlMessage.SetFile: a processed page goes through `SetHtml`, with the same three differences.
- TutorialHtml.TutorialPageSpec: the page goes through `HtmlTags.ProcessHtmlTags`, with the same three differences.
- TutorialHtml.TutorialShowHtml.constructor: its page is that of `TutorialPageSpec`, with the same three differences.
- Supervisor.StopSequence: each live server is stopped by the corrected `StopEvents` of the Finding on Start.py:889-897, not by the code as written. A server that exits only when killed is logged as killed and "Terminado" here, where the source logs the timeout after the kill attempt and "Ainda rodando (problema)". The as-written stop is `StopEventsAsWritten`.
- Supervisor.StopSlot: a live slot gets the corrected stop events of `StopSequence`.
- Supervisor.StopAll: the corrected stop events stand for the source's, as for `StopSequence`.
- Supervisor.GameServerManager.StopAllServers: the new state is `StopAll`, so it has the corrected stop events.
- PyText.ParseInt: only the ASCII digits 0-9 are accepted. Python `int()` also accepts the other Unicode decimal digits (so "١٢" is 12 there); the model rejects them.
- Text.ParseJavaInt: only the ASCII digits 0-9 are accepted, where `Integer.parseInt` also accepts the other Unicode decimal digits.
- Java string lengths count UTF-16 code units, while a Dafny `string` counts characters. The 8192 limit of `NpcHtml.SetHtmlSpec`, the 45-character labels of `ButtonValues.Cut`, the 49/50-character wrap of `TextWrap` and the lengths `LinkButtons` chooses a button width by therefore differ from the source for text with characters outside the Basic Multilingual Plane (an emoji counts twice in Java).
- ClassBalance.ValueFor: the class ids are given. The calls to `getActingPlayer()` are modelled by `ClassBalance.ValueForCreatures`. What the creatures are beyond their acting player's class id is not modelled.

## Findings

| source | as written | input that shows it | evidently intended | confidence | as-written member | corrected member |
|---|---|---|---|---|---|---|
| Start.py:889-897 | `wait(timeout=15)` raises `TimeoutExpired` while the server is still running, so the `kill()` branch after it is never reached | a game server that ignores terminate | a server still running after terminate is killed | not executed | Supervisor.AsWrittenNeverKills | Supervisor.StopEvents |
| aCisDsec_project/aCis_gameserver/java/net/sf/l2j/gameserver/network/serverpackets/NpcHtmlMessage.java:1073-1084 | a value `["text"]` matches the first test and loses only its brackets, so its quotes stay | the translation `["Hello"]` | `["text"]` becomes `text`, as the comment on line 1077 says | not executed | HtmlTags.UnquoteAsWrittenKeepsQuotes | HtmlTags.UnquoteBracketedQuote |
| aCisDsec_project/aCis_gameserver/java/net/sf/l2j/gameserver/network/serverpackets/NpcHtmlMessage.java:1137 | the wrapped text goes to `appendReplacement` unquoted, so a `$` in it is read as a group reference | a text run of 50 characters starting with `$a` | the run is wrapped and placed literally | not executed | TextWrap.DollarRunThrows | TextWrap.WrapSingleRun |
| aCisDsec_project/aCis_gameserver/java/net/sf/l2j/gameserver/network/serverpackets/NpcHtmlMessage.java:1152-1157 | the label is passed through `quoteReplacement` twice, and the result a third time, so each `$` or `\` keeps an extra backslash | the button label `Pay $5` | the label is cut to 45 characters and otherwise kept | not executed | ButtonValues.OneButtonDollar | ButtonValues.OneButtonCut |
