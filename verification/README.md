# Bluetooth battery tray monitor — verified model

A Dafny model of the decision logic inside `Program.cs` of the Universal
Bluetooth Battery Monitor, a Windows tray utility that polls the battery
level of a connected Bluetooth audio device and shows it as a tray icon.

The model covers three pieces of that program, with the platform around
them abstracted away:

- **Reading the query output** (`GetUniversalBatteryLevel`, after the child
  process has run): trim the captured standard output, split it on space,
  carriage return and line feed, and parse the first token with
  `int.TryParse`; empty output, a first token that is not a 32-bit integer,
  or an exception all give the sentinel `-1`. Modules `Strings`
  (`Trim`, `Split`), `Int32Parsing` (`int.TryParse`, `int.ToString`) and
  `BatteryQuery`.
- **Reading to presentation** (`UpdateBatteryAsync`, `UpdateDynamicIcon`):
  the tooltip is chosen by the sign of the reading; a negative reading is
  drawn as the gray "no device" glyph; otherwise the colour band comes from
  two overriding thresholds (50 and 20) and the fill is `level*20/100`
  pixels wide, at least 1. A glyph is the list of drawing operations issued
  on the canvas (outline, line, filled rectangle, with colours and
  coordinates), not pixels. Module `IconRenderer`.
- **The icon-handle lifecycle** (`SetIcon`, `Exit`): a small state machine
  over the current handle field and an abstract allocator (the set of
  handles allocated and not yet released, plus a count of release calls on
  handles that were not live). Module `IconHandles`; module `TrayApp`
  composes one poll (query, tooltip, render, install) and the exit.

Inputs the model does not compute are parameters: the child process's
output (or the fact that something threw) is a `Capture`, and the outcome
of converting a bitmap into a native icon is an `Alloc`.

Three behaviours of the code worth stating up front:

- A reading is any 32-bit integer, not just `-1` or `0..100`. Output such
  as `-5` gives the reading `-5`, which is shown as "no device" because the
  caller routes every negative reading to the `-1` glyph; a reading above
  100 draws a wider fill, which leaves the battery outline above 109
  (`IconRenderer.FillInsideOutline`).
- Tokens are separated only by space, carriage return and line feed. A tab
  between two numbers does not separate them, so `"45\t12"` gives `-1`,
  while `"45\t 12"` gives 45 because the number parser accepts the tab as
  trailing white space.
  Trimming, by contrast, removes all white space the platform knows.
- The colour bands are green above 50, orange for 21..50, and red at 20
  and below.

## Model

| member | source | states |
|---|---|---|
| `Strings.Trim` | Program.cs:160 | the result is the slice of the output between its leading and trailing white space; it is empty exactly when the output is all white space, and otherwise starts and ends with a non-white character |
| `Strings.Split` | Program.cs:166 | tokens are non-empty and separator-free, together they are the input with its separators removed, and when the input starts with a token character the first token is the longest such prefix (so a non-empty trimmed output always has a first token); the program reads only the first token, and the later ones are pinned down only up to their concatenation |
| `Int32Parsing.Decimal` | Program.cs:73 | the decimal rendering of a non-negative reading is a non-empty digit string without leading zero whose value is the reading |
| `Int32Parsing.DecimalUnique` | Program.cs:73 | the rendering is the only digit string without a leading zero that has its value, so it is exactly the plain decimal form |
| `Int32Parsing.TryParseInt32` | Program.cs:167-170 | a successful parse yields a 32-bit value and the text is a well-formed literal (white space, optional sign, digits, white space, NULs) of that value |
| `Int32Parsing.TryParseInt32Literal` | Program.cs:167-170 | conversely, every well-formed literal parses, to its value when that fits in 32 bits and to failure otherwise |
| `Int32Parsing.DigitsThenWhiteParse` | Program.cs:167-170 | digits followed by number white space parse exactly like the digits alone |
| `Int32Parsing.ScanWellFormed` | Program.cs:167 | the parser splits a well-formed literal back into exactly its own parts |
| `Int32Parsing.DigitsParse` | Program.cs:167-170 | a bare digit string parses to its value exactly when the value is at most 2147483647 |
| `Int32Parsing.DecimalRoundTrip` | Program.cs:167-170 | the decimal rendering of any 32-bit value (with `-` for negatives) parses back to that value |
| `BatteryQuery.ParseOutput` | Program.cs:160-176 | all-white-space output gives `-1`, and the reading is always a 32-bit integer |
| `BatteryQuery.Query` | Program.cs:141-176 | an exception anywhere in the query, or all-white-space output, gives `-1` |
| `BatteryQuery.FirstTokenDecides` | Program.cs:160-176 | for white space, a token, then anything after a separator, the reading is the token's value if it parses and `-1` otherwise, whatever follows |
| `BatteryQuery.FirstTokenBeforeMore` | Program.cs:160-171 | a first token that ends in non-separator white space (a tab) is still read by its own value when the output goes on to a non-white character |
| `BatteryQuery.DecimalThenWhiteParses` | Program.cs:160-176 | a decimal number followed by non-separator number white space (a tab) is read back whatever follows the next separator, trailing white space up to the end of the output included; it gives `-1` when it overflows |
| `BatteryQuery.ReadFirstToken` | Program.cs:160-171 | output that is not all white space always has a first token after trimming and splitting (so taking `[0]` never fails), and the reading is that token's parse, or `-1` |
| `BatteryQuery.TrimFromToken` | Program.cs:160 | trimming output that starts with white space and then a token keeps the slice from the token on, reaching at least to any given non-white character of the token |
| `BatteryQuery.FirstTokenOfSlice` | Program.cs:166 | the first token of such a slice is the digits followed by some of the white space after them |
| `BatteryQuery.TrimKeepsToken` | Program.cs:160 | trimming white space around a token keeps the token whole, followed by a prefix of what came after it |
| `BatteryQuery.SplitFirstToken` | Program.cs:166 | the first token of a token followed by a separator-led tail is that token |
| `BatteryQuery.DecimalReadingParses` | Program.cs:160-176 | a number written in decimal between white space and a separator is read back exactly when it fits in 32 bits, and gives `-1` when it overflows |
| `BatteryQuery.NonNumericToken` | Program.cs:167-171 | a first token starting with a letter or other non-numeric character is not a number, so the reading is `-1` |
| `BatteryQuery.ExampleReading` | Program.cs:160-169 | output `"87\r\n"` gives the reading 87 |
| `BatteryQuery.ExampleLaterTokens` | Program.cs:166-169 | output `" 45 12"` gives 45: later tokens are ignored |
| `BatteryQuery.ExampleTabInToken` | Program.cs:160-169 | output `"45\t 12"` gives 45: the tab stays in the token and the parser takes it as trailing white space |
| `BatteryQuery.TabTokenParses` | Program.cs:167-169 | the token `"45\t"` parses to 45 |
| `BatteryQuery.ExampleTabThenLineBreak` | Program.cs:160-169 | output `"45\t 12\r\n"` gives 45 |
| `BatteryQuery.ExampleTrailingTab` | Program.cs:160-169 | output `"45\t"` gives 45: trimming removes the tab and the digits parse |
| `BatteryQuery.ExampleNotFound` | Program.cs:163-176 | empty output, white-space-only output, `"N/A 45"` and a thrown exception all give `-1` |
| `IconRenderer.BandColour` | Program.cs:106-108 | the sequential overrides amount to three disjoint bands: green exactly above 50, orange exactly for 21..50, red exactly at 20 and below |
| `IconRenderer.TruncatingDiv` | Program.cs:119 | the conversion to `int` truncates toward zero: the quotient times the divisor is within one divisor of the dividend, on the side of zero |
| `IconRenderer.FillWidth` | Program.cs:118-120 | the width is at least 1, is 1 below 10, counts whole 5-point steps from 5 up, and is at most 20 for every level 0..100 |
| `IconRenderer.Render` | Program.cs:93-123 | the glyph has a fill exactly when the level is not `-1`; the `-1` glyph is all gray; any other glyph uses no gray and has exactly one level fill, in the band colour and of the fill width |
| `IconRenderer.FillInsideOutline` | Program.cs:115-123 | for a non-negative level the fill lies strictly inside the battery outline exactly when the level is at most 109 |
| `IconRenderer.BatteryTooltip` | Program.cs:73 | the tooltip of a non-negative reading is the label `Battery: `, the reading's decimal rendering, and `%` |
| `IconRenderer.Present` | Program.cs:70-81 | the tooltip is "No Bluetooth Audio Connected" exactly for negative readings and `Battery: ` + the decimal rendering + `%` for the others, and the glyph has no fill exactly for negative readings, every one of which is drawn as `-1` |
| `IconRenderer.TooltipReadsBack` | Program.cs:73 | the tooltip is `Battery: `, then plain digits without a leading zero whose value is the reading, then `%`, and those digits parse back to the reading |
| `IconRenderer.ExamplePresent87` | Program.cs:73-123 | a reading of 87 shows "Battery: 87%" and a green fill 17 pixels wide |
| `IconRenderer.ExamplePresent45` | Program.cs:73-123 | a reading of 45 shows "Battery: 45%" and an orange fill 9 pixels wide |
| `IconHandles.Release` | Program.cs:132 | releasing a live handle removes it from the live set; releasing one that is not live is counted as stale |
| `IconHandles.ReleaseCurrent` | Program.cs:132 | under the ownership invariant, releasing the non-null current handle leaves nothing live and no stale release |
| `IconHandles.SetIconAsWritten` | Program.cs:129-137 | with a successful allocation the new handle becomes current and the only live one; with a failed allocation the field is left naming a released handle |
| `IconHandles.SetIcon` | Program.cs:129-137 | the corrected step keeps the ownership invariant whatever the allocator answers, installs the new handle on success, releases the old non-null one, and changes nothing on failure |
| `IconHandles.Exit` | Program.cs:179-184 | under the ownership invariant the exit leaves no handle live; releasing a field that names a released handle is a stale release |
| `IconHandles.SetIconAgreesOnSuccess` | Program.cs:129-137 | when the allocation succeeds, the corrected step and the program's step reach the same state |
| `IconHandles.RunAsWrittenOwnsOne` | Program.cs:129-137 | over any sequence of successful renders exactly one handle is live and it is the last one allocated, nothing is released twice, and the exit then leaves none live |
| `IconHandles.RunAgreesOnSuccess` | Program.cs:129-137 | over any run in which every allocation succeeds, the program's step and the corrected step reach the same state |
| `IconHandles.FailedAllocationReleasesTwice` | Program.cs:132-135 | render, failed render, render: the program releases the first icon twice |
| `IconHandles.FailedAllocationThenExit` | Program.cs:179-184 | render, failed render, exit: the program releases the first icon twice |
| `IconHandles.RunOwnsOne` | Program.cs:129-137 | with the corrected step, every run, failures included, keeps the ownership invariant and makes no stale release, and the exit leaves none live |
| `TrayApp.Refresh` | Program.cs:65-81 | one poll: the tooltip and, when the icon conversion succeeds, the installed glyph are exactly what the presentation rules give for the query's reading; the tooltip says "no device" exactly when the reading is negative (always when the query threw), the installed glyph has a fill exactly when the reading is non-negative, and a failed allocation leaves the icon as it was |
| `TrayApp.Quit` | Program.cs:179-184 | exit hides the icon and, under the ownership invariant, leaves no handle live |
| `TrayApp.SessionIcons` | Program.cs:84-137 | the native handle state after any session is the handle run of the allocation outcomes alone, whatever the queries returned and whatever was drawn |
| `TrayApp.SessionReleasesEverything` | Program.cs:65-81 | with the corrected replacement step, over any session of polls at most one icon is live and it is the current one, nothing is released twice, and exiting leaves none live |
| `TrayApp.SessionAsWritten` | Program.cs:65-137 | when every icon conversion of a session succeeds, its handles are exactly what the program's own replacement step produces, so the guarantees of the session hold for the program as written |
| `TrayApp.LastPollDecidesTooltip` | Program.cs:70-81 | after a session the tooltip is the one the last poll's reading calls for |
| `TrayApp.ExampleConnected` | Program.cs:70-74 | a first poll reading `"87\r\n"` shows "Battery: 87%" with a green 17-pixel fill |
| `TrayApp.ExampleDisconnected` | Program.cs:76-80 | a first poll with empty output shows "No Bluetooth Audio Connected" and the gray glyph |

## Findings

| source | as written | input that shows it | evidently intended | confidence | as-written member | corrected member |
|---|---|---|---|---|---|---|
| Program.cs:132-135 | `SetIcon` releases the old handle before calling `GetHicon`; if that call throws, `currentIconHandle` still names the released icon, and the next `SetIcon` or `Exit` releases it again | a render whose icon conversion throws, between two successful renders or before exit | each handle released exactly once: allocate the new icon first, then release the old one | low (needs the icon conversion to fail); not executed | `IconHandles.FailedAllocationReleasesTwice` | `IconHandles.RunOwnsOne` |

`IconHandles.SetIconAsWritten` is the program's step and
`IconHandles.SetIcon` the corrected one; `TrayApp` uses the corrected step,
which agrees with the program whenever the allocation succeeds
(`IconHandles.SetIconAgreesOnSuccess`).

## Left out

- The query script (device enumeration, the Bluetooth filter, the battery
  property key, the digit match and the first-match loop): it runs in a
  child process; the model takes its standard output as an arbitrary string.
- Starting the child process, reading its output and waiting for it: I/O.
  Any exception there is the `Threw` capture, which gives `-1`.
- The background task per poll and the race between overlapping polls:
  concurrency. Polls are modelled one after the other.
- The timer and its interval, the context menu, `NotifyIcon` itself and the
  single-instance mutex: platform glue. Only the tooltip text, the
  visibility flag and the installed glyph are kept.
- Pixels, anti-aliasing and the platform calls that create and destroy
  native icons: the glyph is a list of drawing operations and the handles
  come from an abstract allocator.
- `IconRenderer.FillWidth`: the program computes `(level / 100.0) * 20` in
  double precision and truncates; the model uses exact integer arithmetic,
  `level * 20 / 100` truncated toward zero, without proving that rounding
  never moves the result.
- `Int32Parsing.TryParseInt32`: the program parses with the current
  culture; the model uses the invariant culture's signs `+` and `-`.
- Strings are sequences of Unicode scalar values, not UTF-16 code units;
  every character the trimming, splitting and parsing decide on lies in the
  Basic Multilingual Plane.
- `TrayApp.Refresh`: it installs icons with the corrected replacement step
  (see Findings), so it differs from the program only when the icon
  conversion fails.
- `TrayApp.SessionReleasesEverything`: its "no handle released twice" holds
  for sessions built from the corrected step; for the program's own step it
  holds only while every icon conversion succeeds (`TrayApp.SessionAsWritten`),
  and `IconHandles.FailedAllocationReleasesTwice` shows it fails otherwise.
