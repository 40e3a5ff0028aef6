/**
 The `daily_codes` and `time_entries` tables as immutable sequences, and
 the two operations of src/hooks/useTime.js that work on them:
 `registerTime` (look up today's code, mark it used, append an entry) and
 `processTimeEntries` (the day's statistics shown to the employee).
 */
module TimeStore {
  import opened Options
  import opened EntryTypes

  type UserId = string
  /** A calendar day, compared only for equality. */
  type Day = nat
  /** An instant, never inspected by the modelled code. */
  type Timestamp = int

  /** A row of `daily_codes`. */
  datatype DailyCode = DailyCode(id: nat, code: string, date: Day, createdBy: UserId, used: bool)

  /** A row of `time_entries`. */
  datatype TimeEntry = TimeEntry(employeeId: UserId, entryType: EntryType, timestamp: Timestamp, validatedBy: UserId)

  datatype Store = Store(codes: seq<DailyCode>, entries: seq<TimeEntry>)

  /** Which of the three round trips of a registration the backend fails. */
  datatype Faults = Faults(lookupFails: bool, markUsedFails: bool, insertFails: bool)

  datatype RegisterOutcome =
    | Registered       // code consumed and entry appended
    | CodeRejected     // no single unused code for the text and day
    | MarkUsedFailed   // the update of the code failed; nothing changed
    | InsertFailed     // the code is used but no entry was appended

  datatype Registration = Registration(outcome: RegisterOutcome, store: Store)

  // ---------------------------------------------------------------------
  // Code lookup: select ... eq(code) eq(date) eq(used, false) single()
  // ---------------------------------------------------------------------

  predicate Matches(c: DailyCode, text: string, today: Day) {
    c.code == text && c.date == today && !c.used
  }

  /** Row `i` is the one and only row the lookup filters select. */
  predicate UniqueMatchAt(codes: seq<DailyCode>, text: string, today: Day, i: int) {
    && 0 <= i < |codes|
    && Matches(codes[i], text, today)
    && forall j :: 0 <= j < |codes| && Matches(codes[j], text, today) ==> j == i
  }

  ghost predicate ExactlyOneMatch(codes: seq<DailyCode>, text: string, today: Day) {
    exists i :: UniqueMatchAt(codes, text, today, i)
  }

  predicate NoMatch(codes: seq<DailyCode>, text: string, today: Day) {
    forall j :: 0 <= j < |codes| ==> !Matches(codes[j], text, today)
  }

  /** The positions at or after `from` whose rows pass the filters, ascending. */
  function MatchIndicesFrom(codes: seq<DailyCode>, text: string, today: Day, from: nat): (r: seq<nat>)
    requires from <= |codes|
    ensures forall k :: 0 <= k < |r| ==> from <= r[k] < |codes| && Matches(codes[r[k]], text, today)
    ensures forall k, l :: 0 <= k < l < |r| ==> r[k] < r[l]
    ensures forall j :: from <= j < |codes| && Matches(codes[j], text, today) ==> j in r
    decreases |codes| - from
  {
    if from == |codes| then []
    else
      var rest := MatchIndicesFrom(codes, text, today, from + 1);
      if Matches(codes[from], text, today) then [from] + rest else rest
  }

  /**
   The `.single()` lookup: a row only when exactly one row has the entered
   text, today's date and `used` false; zero or several matches fail.
   */
  function FindCode(codes: seq<DailyCode>, text: string, today: Day): (r: Option<DailyCode>)
    ensures r.Some? <==> ExactlyOneMatch(codes, text, today)
    ensures r.Some? ==> exists i :: UniqueMatchAt(codes, text, today, i) && codes[i] == r.value
  {
    var m := MatchIndicesFrom(codes, text, today, 0);
    if |m| == 1 then
      assert UniqueMatchAt(codes, text, today, m[0]);
      Some(codes[m[0]])
    else
      assert |m| == 0 ==> NoMatch(codes, text, today);
      assert |m| > 1 ==> m[0] != m[1];
      None
  }

  // ---------------------------------------------------------------------
  // Mark used: update({used: true}).eq('id', id)
  // ---------------------------------------------------------------------

  /** Sets `used` on every row carrying the id and touches nothing else. */
  function MarkUsed(codes: seq<DailyCode>, id: nat): (r: seq<DailyCode>)
    ensures |r| == |codes|
    ensures forall i :: 0 <= i < |codes| && codes[i].id != id ==> r[i] == codes[i]
    ensures forall i :: 0 <= i < |codes| && codes[i].id == id ==> r[i] == codes[i].(used := true)
  {
    if |codes| == 0 then []
    else
      var head := if codes[0].id == id then codes[0].(used := true) else codes[0];
      [head] + MarkUsed(codes[1..], id)
  }

  /** Row ids are distinct, as a primary key makes them. */
  predicate IdsUnique(codes: seq<DailyCode>) {
    forall i, j :: 0 <= i < |codes| && 0 <= j < |codes| && codes[i].id == codes[j].id ==> i == j
  }

  /** With distinct ids the update changes exactly one row, and only its flag. */
  lemma MarkUsedOneRow(codes: seq<DailyCode>, i: nat)
    requires IdsUnique(codes)
    requires i < |codes|
    ensures MarkUsed(codes, codes[i].id) == codes[i := codes[i].(used := true)]
  {
    var r := MarkUsed(codes, codes[i].id);
    assert forall j :: 0 <= j < |codes| && j != i ==> codes[j].id != codes[i].id;
    assert r == codes[i := codes[i].(used := true)];
  }

  // ---------------------------------------------------------------------
  // registerTime
  // ---------------------------------------------------------------------

  /**
   Looks the entered text up among today's unused codes, marks the row
   used, then appends an entry validated by the code's creator. A failed
   lookup or update leaves the store as it was; a failed insert leaves the
   code burned.
   */
  function RegisterTime(store: Store, entryType: EntryType, text: string, today: Day,
                        user: UserId, now: Timestamp, faults: Faults): (r: Registration)
    ensures r.outcome in {CodeRejected, MarkUsedFailed} ==> r.store == store
    ensures !ExactlyOneMatch(store.codes, text, today) ==> r.outcome == CodeRejected
    ensures r.outcome in {Registered, InsertFailed} ==>
              exists i :: UniqueMatchAt(store.codes, text, today, i)
                && r.store.codes == MarkUsed(store.codes, store.codes[i].id)
                && r.store.entries == store.entries
                     + (if r.outcome == Registered
                        then [TimeEntry(user, entryType, now, store.codes[i].createdBy)]
                        else [])
    ensures ExactlyOneMatch(store.codes, text, today) && !faults.lookupFails && !faults.markUsedFails ==>
              r.outcome == (if faults.insertFails then InsertFailed else Registered)
    ensures faults.lookupFails ==> r == Registration(CodeRejected, store)
    ensures !faults.lookupFails && ExactlyOneMatch(store.codes, text, today) && faults.markUsedFails ==>
              r == Registration(MarkUsedFailed, store)
    ensures faults.insertFails ==> r.outcome != Registered && r.store.entries == store.entries
  {
    var found := FindCode(store.codes, text, today);
    if faults.lookupFails || found.None? then
      Registration(CodeRejected, store)
    else if faults.markUsedFails then
      Registration(MarkUsedFailed, store)
    else
      var code := found.value;
      var codes := MarkUsed(store.codes, code.id);
      if faults.insertFails then
        Registration(InsertFailed, Store(codes, store.entries))
      else
        var entry := TimeEntry(user, entryType, now, code.createdBy);
        Registration(Registered, Store(codes, store.entries + [entry]))
  }

  /**
   With distinct ids a consumption changes exactly the matched row, and
   only its `used` flag; a registration appends exactly one entry.
   */
  lemma RegisterTimeNothingElseChanges(store: Store, entryType: EntryType, text: string, today: Day,
                                       user: UserId, now: Timestamp, faults: Faults)
    requires IdsUnique(store.codes)
    ensures var r := RegisterTime(store, entryType, text, today, user, now, faults);
            r.outcome in {Registered, InsertFailed} ==>
              exists i :: UniqueMatchAt(store.codes, text, today, i)
                && r.store.codes == store.codes[i := store.codes[i].(used := true)]
  {
    var r := RegisterTime(store, entryType, text, today, user, now, faults);
    if r.outcome in {Registered, InsertFailed} {
      var i :| UniqueMatchAt(store.codes, text, today, i)
               && r.store.codes == MarkUsed(store.codes, store.codes[i].id);
      MarkUsedOneRow(store.codes, i);
    }
  }

  /** A code that is already used, or dated another day, is never accepted. */
  lemma StaleOrUsedCodeRejected(store: Store, entryType: EntryType, text: string, today: Day,
                                user: UserId, now: Timestamp, faults: Faults)
    requires forall j :: 0 <= j < |store.codes| && store.codes[j].code == text ==>
               store.codes[j].used || store.codes[j].date != today
    ensures RegisterTime(store, entryType, text, today, user, now, faults) == Registration(CodeRejected, store)
  {
    assert NoMatch(store.codes, text, today);
  }

  /**
   Single use: once a registration has consumed a code, the same text on
   the same day matches nothing, so the very next lookup fails.
   */
  lemma ConsumedCodeNoLongerMatches(store: Store, entryType: EntryType, text: string, today: Day,
                                    user: UserId, now: Timestamp, faults: Faults)
    ensures var r := RegisterTime(store, entryType, text, today, user, now, faults);
            r.outcome in {Registered, InsertFailed} ==>
              NoMatch(r.store.codes, text, today) && FindCode(r.store.codes, text, today).None?
  {
    var r := RegisterTime(store, entryType, text, today, user, now, faults);
    if r.outcome in {Registered, InsertFailed} {
      var i :| UniqueMatchAt(store.codes, text, today, i)
               && r.store.codes == MarkUsed(store.codes, store.codes[i].id);
      forall j | 0 <= j < |r.store.codes|
        ensures !Matches(r.store.codes[j], text, today)
      {
        assert j != i ==> !Matches(store.codes[j], text, today);
      }
    }
  }

  // ---------------------------------------------------------------------
  // registerTime as written against a client without `auth.user()`
  // ---------------------------------------------------------------------

  /**
   `registerTime` when reading the user id for the insert throws, as it
   does with a client whose session is read through `auth.getUser()`: the
   exception comes after the code was marked used and before the insert,
   so every consumption takes the failed-insert path.
   */
  function RegisterTimeAsWritten(store: Store, entryType: EntryType, text: string, today: Day,
                                 now: Timestamp, faults: Faults): (r: Registration)
    ensures r.outcome != Registered
    ensures r.store.entries == store.entries
  {
    RegisterTime(store, entryType, text, today, "", now, faults.(insertFails := true))
  }

  /**
   The discrepancy: on a good code and a healthy backend the code as
   written burns the code and records nothing, while the corrected
   registration appends the entry.
   */
  lemma AsWrittenBurnsCodeWithoutEntry(store: Store, entryType: EntryType, text: string, today: Day,
                                       user: UserId, now: Timestamp)
    requires ExactlyOneMatch(store.codes, text, today)
    ensures var r := RegisterTimeAsWritten(store, entryType, text, today, now, Faults(false, false, false));
            && r.outcome == InsertFailed
            && r.store.entries == store.entries
            && NoMatch(r.store.codes, text, today)
    ensures var c := RegisterTime(store, entryType, text, today, user, now, Faults(false, false, false));
            && c.outcome == Registered
            && |c.store.entries| == |store.entries| + 1
            && c.store.entries[|store.entries|].entryType == entryType
  {
    var faults := Faults(false, false, true);
    ConsumedCodeNoLongerMatches(store, entryType, text, today, "", now, faults);
    var c := RegisterTime(store, entryType, text, today, user, now, Faults(false, false, false));
    var i :| UniqueMatchAt(store.codes, text, today, i)
             && c.store.codes == MarkUsed(store.codes, store.codes[i].id)
             && c.store.entries == store.entries + [TimeEntry(user, entryType, now, store.codes[i].createdBy)];
  }

  // ---------------------------------------------------------------------
  // processTimeEntries
  // ---------------------------------------------------------------------

  /** An entry as listed to the employee: its type and formatted time. */
  datatype RecentEntry = RecentEntry(entryType: EntryType, time: string)

  /** The day's statistics; no field other than the list is ever computed. */
  datatype DayStats = DayStats(
    recentEntries: seq<RecentEntry>,
    entryTime: Option<string>,
    effectiveTime: Option<string>,
    breakTime: Option<string>,
    lunchTime: Option<string>)

  /**
   Keeps the fetched entries in their order with their types, formatting
   each timestamp with the given local-time formatter, and leaves every
   statistic absent.
   */
  function ProcessTimeEntries(entries: seq<TimeEntry>, localTime: Timestamp -> string): (r: DayStats)
    ensures |r.recentEntries| == |entries|
    ensures forall i :: 0 <= i < |entries| ==>
              r.recentEntries[i].entryType == entries[i].entryType
              && r.recentEntries[i].time == localTime(entries[i].timestamp)
    ensures r.entryTime.None? && r.effectiveTime.None? && r.breakTime.None? && r.lunchTime.None?
  {
    if |entries| == 0 then DayStats([], None, None, None, None)
    else
      var rest := ProcessTimeEntries(entries[1..], localTime);
      var head := RecentEntry(entries[0].entryType, localTime(entries[0].timestamp));
      rest.(recentEntries := [head] + rest.recentEntries)
  }
}
