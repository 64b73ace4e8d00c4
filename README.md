# Windows-Portfolio boot screen, progress bars and taskbar clock in Dafny

This project models the small amount of logic in a retro desktop-style
portfolio site. The rest of the site is markup and styling.

- **Typewriter** (module `Typewriter`): the boot-screen typewriter state
  of the home page. A 50 ms interval reveals the current command one character at a
  time into `typedCommands`. Once the command is fully shown, the interval
  schedules a 150 ms settle timeout that moves on to the next command. The
  two callbacks are the methods `Tick` and `Settle` of the class
  `TypewriterEffect`, called by hand. The pure step functions `TickStep`
  and `SettleStep` specify them. The invariant `Consistent` holds of every
  state reachable by any sequence of firings. The page's markup never reads
  `typedCommands`, `currentCommand` or `bootComplete`: they are component
  state that is set but never displayed.
- **Progress bars** (module `Progress`): `renderProgressSegments`, a bar of
  20 segments. The first floor(percentage/100 × 20) segments are filled.
- **Page state** (module `Home`): the `bootComplete` and `skillsLoaded`
  flags, the scroll listener that reveals the skills, the values reported to
  `onLoadingChange`, and `toggleFolder` for the project explorer.
- **Taskbar clock** (module `Clock`): `getCurrentTime`, from a 24-hour
  hour and a minute to `h:mm AM` / `h:mm PM`. A parser of the same text is
  proved to be its exact inverse. So every time of day is shown as a
  well-formed text, and different times are shown differently.

Three facts about the code shape the model:

- The code never reports `onLoadingChange(true)`. It calls
  `onLoadingChange(false)` once on mount (Home.tsx:32).
- `bootComplete` is set only by the 2500 ms timer (Home.tsx:35-37). The
  scroll listener sets `skillsLoaded`, not a ready state (Home.tsx:65-74).
- Nothing guarantees one settle per command. The interval keeps firing while
  a settle timeout is pending, so several settles can be scheduled for one
  command. That can skip commands and leave holes in `typedCommands`
  (lemma `SkippedCommandScenario`).

## Model

| member | source | states |
|---|---|---|
| `Clock.Numeral` | client/src/components/Footer.tsx:12 | `${hours}` for 0..99 is one or two digits with no leading zero, and denotes the number |
| `Clock.NumeralOfValue` | client/src/components/Footer.tsx:12 | every such numeral is the text of its own value, so the hour field is read back unambiguously |
| `Clock.PadStart` | client/src/components/Footer.tsx:8 | `padStart`: the result has length max(width, \|s\|), ends with `s`, and is filled with the pad character before it |
| `Clock.PaddedMinutes` | client/src/components/Footer.tsx:8 | the minutes field is exactly two digits, the tens and units of the minute, denotes the minute, and starts with '0' exactly when the minute is below ten |
| `Clock.PaddedMinutesOfValue` | client/src/components/Footer.tsx:8 | every two-digit field below 60 is the padded text of its own value |
| `Clock.DisplayHour` | client/src/components/Footer.tsx:10-11 | the displayed hour lies in 1..12 and is congruent to the 24-hour hour modulo 12 |
| `Clock.Meridiem` | client/src/components/Footer.tsx:9 | it computes the suffix: "PM" when the hour is at least 12, otherwise "AM" |
| `Clock.Layout` | client/src/components/Footer.tsx:12 | it computes the template literal: hour text, ':', minutes text, a space, then the suffix (the field positions are stated by the lemma `LayoutFields`) |
| `Clock.FormatTime` | client/src/components/Footer.tsx:5-13 | the clock text has 7 or 8 characters and ends in "PM" when the hour is at least 12, otherwise in "AM" |
| `Clock.ParseFormat` | client/src/components/Footer.tsx:5-13 | reading back the text shown for any (hour, minute) gives that hour and minute: the text has the shape `<hour>:<mm> <AM/PM>` |
| `Clock.FormatParse` | client/src/components/Footer.tsx:5-13 | every well-formed clock text is the text shown for the time it reads as |
| `Clock.FormatTimeInjective` | client/src/components/Footer.tsx:5-13 | different times of day give different texts |
| `Clock.MidnightAndNoon` | client/src/components/Footer.tsx:9-11 | hour 0 is shown as `12:mm AM` and hour 12 as `12:mm PM` |
| `Clock.HalfDaysDifferOnlyInSuffix` | client/src/components/Footer.tsx:9-11 | for an hour h below 12, h and h + 12 give texts of the same length that agree except for the suffix, AM and PM |
| `Progress.FilledSegments` | client/src/pages/Home.tsx:88-89 | the filled count is the floor of percentage × 20 / 100 |
| `Progress.FilledWithinBar` | client/src/pages/Home.tsx:89 | for 0..100 the filled count lies in 0..20, with 0 at 0 % and 20 at 100 % |
| `Progress.FilledMonotone` | client/src/pages/Home.tsx:89 | the filled count never decreases as the percentage grows |
| `Progress.CountFilledBelow` | client/src/pages/Home.tsx:91-99 | a bar filled exactly below index k has k filled segments, clamped to the bar |
| `Progress.RenderProgressSegments` | client/src/pages/Home.tsx:86-101 | exactly 20 segments; segment i is filled if and only if i is below the filled count, and the number of filled segments is that count clamped to 0..20 |
| `Typewriter.TickStep` | client/src/pages/Home.tsx:44-53 | the step that `Tick` is specified by; it computes: when a command is current and not fully shown, its slot becomes the command's first charIndex+1 characters and charIndex rises by one, otherwise the state is unchanged |
| `Typewriter.SettleStep` | client/src/pages/Home.tsx:55-59 | the step that `Settle` is specified by; it computes: currentCommand and commandIndex rise by one, charIndex becomes 0, typed text is kept |
| `Typewriter.TypewriterEffect.constructor` | client/src/pages/Home.tsx:40-41 | on mount nothing is typed and both counters are zero, which satisfies the invariant |
| `Typewriter.TypewriterEffect.Tick` | client/src/pages/Home.tsx:43-62 | while the current command is not fully shown, a tick writes the command's first charIndex+1 characters into its slot, increments charIndex by one and changes no other slot; otherwise it changes nothing, and it reports a settle as scheduled exactly when a command is current and complete; past the last command it does nothing |
| `Typewriter.TypewriterEffect.Settle` | client/src/pages/Home.tsx:55-59 | a settle increments currentCommand and commandIndex by one, resets charIndex to 0 and leaves typed text alone, keeping the invariant |
| `Typewriter.TickPreserves` | client/src/pages/Home.tsx:44-53 | a tick keeps every slot a non-empty prefix of its command and only lengthens typed text |
| `Typewriter.SettlePreserves` | client/src/pages/Home.tsx:55-59 | a settle keeps the invariant and does not touch typed text |
| `Typewriter.RunPreserves` | client/src/pages/Home.tsx:43-62 | after any sequence of ticks and settles, in any order and number, the invariant holds and no typed text shrinks or disappears |
| `Typewriter.ReachableTextIsPrefix` | client/src/pages/Home.tsx:46-50 | from mount, every written slot belongs to a command and holds a non-empty prefix of it, never longer than the command |
| `Typewriter.TicksReveal` | client/src/pages/Home.tsx:46-53 | n ticks without a settle reveal n more characters of the current command, up to its end, and then change nothing |
| `Typewriter.TicksKeepOtherSlots` | client/src/pages/Home.tsx:47-51 | ticks never write any slot other than the current command's |
| `Typewriter.TwoCommandsScenario` | client/src/pages/Home.tsx:43-62 | with commands "a" and "bb": one tick types "a", the next schedules a settle, and after it two ticks type "bb" |
| `Typewriter.SkippedCommandScenario` | client/src/pages/Home.tsx:54-59 | two settles scheduled for one command skip the next command and leave its slot unwritten |
| `Home.SectionVisible` | client/src/pages/Home.tsx:67-69 | it computes the scroll test: the section exists, its top is at most the viewport height and its bottom is at least 0 |
| `Home.Toggle` | client/src/pages/Home.tsx:103-105 | the folder becomes open exactly when it was not the open one, and otherwise nothing is open |
| `Home.ToggleTwice` | client/src/pages/Home.tsx:103-105 | toggling the same folder twice closes it unless it was the open folder, in which case it stays open |
| `Home.HomePage.Mount` | client/src/pages/Home.tsx:30-76 | on mount both flags are false, no folder is open, the scroll listener is registered and `onLoadingChange` has been told `false` |
| `Home.HomePage.BootTimerFired` | client/src/pages/Home.tsx:35-37 | the boot timer sets bootComplete and changes nothing else; the flags only rise |
| `Home.HomePage.OnScroll` | client/src/pages/Home.tsx:65-74 | skills become loaded exactly when they were already loaded or the section is present and overlaps the viewport; the listener is removed at the same moment and the flags only rise |
| `Home.HomePage.ToggleFolder` | client/src/pages/Home.tsx:103-105 | the open folder becomes `Toggle` of the old one and nothing else changes |

## Left out

- Timer scheduling is not modelled: `setTimeout`/`setInterval` and their cleanup (Home.tsx:35-62, 78-82; Footer.tsx:17-22). This is event-loop concurrency. `Tick`, `Settle`, `BootTimerFired` and `OnScroll` are called by hand, so there is no claim about timing or about every command being shown.
- React state batching is not modelled. The updater functions of `setTypedCommands` and `setCurrentCommand` take effect at the call. The updater at Home.tsx:47-52 reads the mutable counters `commandIndex` and `charIndex` when it runs. If React defers it to the next render, it runs after `charIndex++` (Home.tsx:53). It then writes `substring(0, charIndex + 2)`, one character ahead and clamped at the command's end. If a settle also fires before that render, the updater runs with `commandIndex` already at the next command and `charIndex` at 0, but with the `currentCommand` text captured at Home.tsx:45. It then writes the first character of the previous command into the next command's slot, and the next tick overwrites that slot with the first character of its own command. So under deferred updaters a slot can hold a prefix of another command and its text can be replaced rather than extended. The following describe updaters that run at the call and do not hold for deferred ones: the exact-text clauses of `Tick`; the exact-text clause of `TicksReveal` (n deferred ticks leave `command[..min(c + n + 1, length)]`, one character more than it states); the third conjunct of `Consistent` (each slot is a prefix of its own command) and its last two conjuncts; `ReachableTextIsPrefix`; and the no-shrink clause (`Grows`) of `TickPreserves` and `RunPreserves`.
- `Typewriter.TypewriterEffect.commands`: lengths and `command[..n]` count characters, while JavaScript's `length` and `substring` count UTF-16 code units. The two agree on the four commands of the page (Home.tsx:15-20), which are ASCII, but not on a command with characters outside the Basic Multilingual Plane.
- The array spread at Home.tsx:48 is not modelled exactly. It turns holes into `undefined` entries, while the model keeps unwritten slots absent from the map. The page never displays `typedCommands`, so the difference is not visible.
- The empty-string check `currentCommand &&` (Home.tsx:46) is not a separate test. For a string it is implied by `charIndex < length`.
- `Clock.Numeral`: models `Number.prototype.toString` only for 0..99, the range of hours and minutes the clock prints.
- `Progress.FilledSegments`: uses exact integer arithmetic on an integer percentage, not floating-point division. All call sites pass integers (Home.tsx:262, 275, 288, 301).
- Reading the system clock (`new Date()`, Footer.tsx:6) is not modelled. Hour and minute are parameters.
- Contact form submission (`handleSubmit`, Home.tsx:113-135) is not modelled. It is a network request to a third-party relay.
- `handleProjectClick` (Home.tsx:107-111) is not modelled. It only calls `window.open`.
- The scroll handler's DOM lookup and layout measurement are parameters of `OnScroll`.
- Markup and styling are not modelled: segment colours and widths, Skills.tsx, Navbar.tsx, App.tsx and tailwind.config.js.
- server.js is not part of this model. It is Express middleware, a database connection, logging, rate limiting, and validation done by express-validator.
