# Clock-action submit pipeline of an employee time tracker

This project models the one piece of real logic in a small React/Supabase
time-tracking application: what happens when an employee presses one of the
six clock buttons (ENTRADA, SALIDA, DESCANSO_INICIO, DESCANSO_FIN,
COMIDA_INICIO, COMIDA_FIN) with a daily validation code typed in.

The pipeline, in the order the code runs it:

1. An empty validation code is refused before anything else
   (`EmployeeView.HandleTimeAction`).
2. The sequence guard judges the action against the type of the first
   element of the day's `recentEntries`, which is treated as the last entry
   (`SequenceGuard.CheckSequence`).
3. `registerTime` looks up the code among `daily_codes` rows with the same
   text, today's date and `used = false`, and succeeds only if exactly one
   row matches (`.single()`, `TimeStore.FindCode`).
4. That row is marked used by id (`TimeStore.MarkUsed`).
5. A `time_entries` row is appended whose validator is the code's creator
   (`TimeStore.RegisterTime`).

The two tables are immutable sequences in a `Store`; every operation is a
pure function returning the outcome and the new store. The backend's three
round trips can each fail; those failures are a `Faults` parameter. "Today",
the user id and the current instant are a `Context` parameter.
`processTimeEntries`, which builds the list the guard reads, is
`TimeStore.ProcessTimeEntries`; it computes no statistics, and neither does
the model.

Modules: `Options` (absent values), `EntryTypes` (the six actions, their
stored codes and labels), `SequenceGuard` (the guard, a comparison with a
four-state clock, histories built by accepted actions), `TimeStore` (the
tables, `registerTime`, `processTimeEntries`), `EmployeeView` (the submit
pipeline and what many submits do to the store).

## Behaviour of the code worth knowing

- Order: the action sequence is checked first and the code afterwards.
  A sequence rejection therefore never spends a code.
- The lookup succeeds only when exactly one unused row has the text and
  today's date (`.single()`); zero or several matches fail.
- The guard is not a four-state clock (out, in, on break, at lunch).
  ENTRADA is refused only right after ENTRADA, so it is accepted during a
  break or lunch and right after one ends. SALIDA and new breaks or lunches
  need the last entry to be ENTRADA, so they are refused right after a break
  or lunch ends. `SequenceGuard.GuardVersusStateTable` states exactly which
  cells differ from such a clock.
- No worked, break or lunch time is computed. `processTimeEntries` leaves all
  four statistics null.
- Marking the code used is a plain update by id, not a conditional
  "update if still unused". Under distinct ids it changes exactly the matched
  row (`TimeStore.MarkUsedOneRow`).
- `EmployeeView.jsx` takes `fetchStats` from `useTime` (line 31), but
  `useTime` does not return it (src/hooks/useTime.js:96-100). The call after
  a successful submit (EmployeeView.jsx:95) therefore throws, is caught at
  lines 97-99, and shows "Código de validación inválido" right after
  "Registro exitoso". The 30-second refresh (lines 104-108) throws on every
  tick. Neither affects stored state.

## Model

| member | source | states |
|---|---|---|
| EntryTypes.Parse | src/components/EmployeeView.jsx:18-25 | a string is recognised exactly when it is one of the six stored type codes, and then as that action |
| EntryTypes.TranslateEntryType | src/components/EmployeeView.jsx:17-27 | each of the six codes gets its fixed Spanish label; any other string is returned unchanged, and a string is unchanged exactly when it is not a code |
| EntryTypes.CodesAndLabelsDistinct | src/components/EmployeeView.jsx:18-25 | distinct actions have distinct codes and labels, and no label is a code |
| SequenceGuard.LastOf | src/components/EmployeeView.jsx:48 | the last entry is absent exactly for an empty list, and otherwise is the list's head |
| SequenceGuard.CheckSequence | src/components/EmployeeView.jsx:51-85 | ENTRADA is refused exactly after ENTRADA; SALIDA, DESCANSO_INICIO and COMIDA_INICIO pass exactly after ENTRADA; DESCANSO_FIN exactly after DESCANSO_INICIO; COMIDA_FIN exactly after COMIDA_INICIO; a refusal carries that action's own message |
| SequenceGuard.GuardExamples | src/components/EmployeeView.jsx:51-85 | ENTRADA is accepted on an empty day and after any break or lunch entry; SALIDA is refused on an empty day and after a break or lunch ends; ENTRADA after ENTRADA is a duplicate; a break or lunch end is accepted right after its start |
| SequenceGuard.GuardVersusStateTable | src/components/EmployeeView.jsx:51-85 | the guard accepts where a four-state clock refuses exactly for ENTRADA after a break or lunch entry, and refuses where it accepts exactly for SALIDA or a break or lunch start right after a break or lunch end |
| SequenceGuard.Replay | src/components/EmployeeView.jsx:48-88 | replaying actions, each accepted one becoming the new head, keeps the starting history as the oldest part and adds at most one entry per action |
| SequenceGuard.ReplayKeepsChained | src/components/EmployeeView.jsx:51-85 | if every entry of a history was acceptable after its predecessor, that stays true after any replay of further actions |
| SequenceGuard.ChainedMeans | src/components/EmployeeView.jsx:51-85 | in such a history no ENTRADA directly follows ENTRADA, every SALIDA and break or lunch start directly follows ENTRADA, and every end directly follows its start |
| SequenceGuard.NoDoubleEntrada | src/components/EmployeeView.jsx:51-55 | a day built by accepted actions from an empty history never has two consecutive ENTRADA entries |
| TimeStore.MatchIndicesFrom | src/hooks/useTime.js:40-45 | lists, ascending and without repeats, exactly the rows with the entered text, today's date and used false |
| TimeStore.FindCode | src/hooks/useTime.js:40-51 | the lookup yields a row exactly when exactly one row has the text, today's date and used false, and then yields that row; zero or several matches fail |
| TimeStore.MarkUsed | src/hooks/useTime.js:54-57 | every row with the matched id gets used set, all its other fields kept; every other row is unchanged |
| TimeStore.MarkUsedOneRow | src/hooks/useTime.js:54-57 | with distinct ids the update changes exactly the matched row, and only its used flag |
| TimeStore.RegisterTime | src/hooks/useTime.js:36-75 | a failed lookup is a refusal with no change; a failed update after a unique match is reported as such with no change, so no entry is appended; a failed insert never registers and appends nothing; without exactly one match the code is refused; a consumption marks the unique match used and appends exactly one entry with the requested type and the code creator as validator, or none when the insert fails (the code stays burned) |
| TimeStore.RegisterTimeNothingElseChanges | src/hooks/useTime.js:54-72 | with distinct ids a consumption changes only the matched row's used flag |
| TimeStore.RegisterTimeAsWritten | src/hooks/useTime.js:54-74 | when reading the user id for the insert throws, no call ever registers and no entry is ever appended |
| TimeStore.AsWrittenBurnsCodeWithoutEntry | src/hooks/useTime.js:40-74 | on a good code and a healthy backend the code as written marks the code used and appends nothing, while the corrected registration appends one entry of the requested type |
| TimeStore.StaleOrUsedCodeRejected | src/hooks/useTime.js:43-51 | a text whose rows are all used or dated another day is refused and nothing changes |
| TimeStore.ConsumedCodeNoLongerMatches | src/hooks/useTime.js:45-57 | after a consumption no row matches the same text and day, so the next lookup fails |
| TimeStore.ProcessTimeEntries | src/hooks/useTime.js:104-117 | keeps the length and order of the entries and each entry's type, formats each timestamp, and leaves all four statistics null |
| EmployeeView.LastEntryType | src/components/EmployeeView.jsx:48 | the last type is absent exactly when the list is empty, and otherwise is the type of its first element |
| EmployeeView.LastOfProcessedEntries | src/hooks/useTime.js:104-109 | the type the guard reads is the type of the first fetched entry |
| EmployeeView.HandleTimeAction | src/components/EmployeeView.jsx:35-88 | an empty code is refused with no change; a sequence rejection carries the action's message and changes nothing; registration is attempted exactly when the code is non-empty and the guard accepts, and then its outcome and new store are the submit's; codes change only when a unique match is consumed; entries change only by one appended entry of the action validated by the matched code's creator |
| EmployeeView.OnlyTheHeadMatters | src/components/EmployeeView.jsx:48-85 | two day lists with the same head type, or both empty, give the same outcome and store for every action and code |
| EmployeeView.HandleTimeActionEvolves | src/hooks/useTime.js:54-72 | a submit never adds, removes or rewrites a code row other than setting used, and never removes or rewrites an entry |
| EmployeeView.RunEvolves | src/hooks/useTime.js:54-72 | the same holds over any sequence of submits |
| EmployeeView.RunKeepsValidated | src/hooks/useTime.js:65-72 | if every entry names the creator of a used code as validator, that stays true over any sequence of submits |
| EmployeeView.RegistrationSpendsCode | src/hooks/useTime.js:45-57 | a submit that registers leaves no unused row for its code text and day |
| EmployeeView.SpentCodeReplaysChangeNothing | src/hooks/useTime.js:40-51 | once no unused row exists for a text and day, any number of submits with that text on that day change nothing |
| EmployeeView.HandleTimeActionBurnsOneCodePerEntry | src/hooks/useTime.js:54-72 | with distinct ids one submit appends no more entries than it newly marks codes used |
| EmployeeView.RunBurnsOneCodePerEntry | src/hooks/useTime.js:54-72 | over any sequence of submits with distinct ids, entries appended never outnumber codes consumed |

## Left out

- All Supabase I/O and query building. Only the selection semantics of the
  filters and of `.single()` are modelled. The backend's error codes become
  the three booleans of `Faults`.
- Toasts, console logging and the validation-input visibility flag: they are
  display only.
- TimeStore.RegisterTime: the source catches its own errors and returns
  normally, so the caller reports success even when the code was refused.
  The model returns the internal outcome instead. This is reporting, not
  state.
- The fetch that fills `recentEntries` (employee and timestamp filters, no
  ordering). The model takes the list as given and treats its head as the
  last entry, as the guard does.
- `fetchStats`, called after a submit and every 30 seconds, and the
  1-second clock timer. `fetchStats` is not returned by `useTime`, so those
  calls throw and only produce a toast (see above); the clock timer only
  formats the time.
- Stored entry types outside the six codes. The source reads
  `lastEntry.type` as a database string; an unknown string would let
  ENTRADA through and refuse the other five. The model stores the
  six-constructor type, since the only writer in the modelled code inserts
  one of the six button codes.
- EntryTypes.TranslateEntryType: JavaScript object lookup also finds
  inherited keys such as `constructor`. The model treats only the six codes
  as keys.
- Date and time formatting. "Today" is an abstract day number, instants are
  opaque integers, and the local-time formatter is a parameter.
- Concurrent consumption of one code by two clients. The update is not
  conditional, and the model is sequential.
- Code generation (random token), realtime subscriptions and admin
  statistics: randomness, timers and fetch plumbing.
- Leave requests, authentication, routing and layout: plain CRUD and UI
  outside the submit pipeline.
- The database-generated id and creation time of a `time_entries` row: the
  modelled code never reads them.

## Findings

| source | as written | input that shows it | evidently intended | confidence | as-written member | corrected member |
|---|---|---|---|---|---|---|
| src/hooks/useTime.js:68 | the insert reads the user id with `supabase.auth.user()`, an accessor of the older client; the rest of the code uses the newer client (`auth.getUser()` in src/hooks/useAuth.js:15 and src/components/AdminView.jsx:134), which has no `auth.user()`, so building the insert throws after the code was marked used | any submit with a non-empty code, an accepted action and exactly one unused matching code: the code ends up used and no entry is appended | read the current user's id from the session and append the entry | not executed; medium, because the installed client version is not part of this model | TimeStore.RegisterTimeAsWritten, TimeStore.AsWrittenBurnsCodeWithoutEntry | TimeStore.RegisterTime |

The same accessor is used by the fetch at src/hooks/useTime.js:22, so under
the newer client `recentEntries` would stay empty and the guard would see an
empty day on every submit. The rest of the model uses the corrected
registration, with the user id passed in through `Context`.
