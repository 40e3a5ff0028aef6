/**
 The submit pipeline of `handleTimeAction` (src/components/EmployeeView.jsx):
 an empty validation code is refused, then the sequence guard judges the
 action against the head of the day's entries, and only then is the
 registration of src/hooks/useTime.js attempted.
 */
module EmployeeView {
  import opened Options
  import opened EntryTypes
  import opened SequenceGuard
  import opened TimeStore

  datatype Outcome =
    | MissingCode                          // no validation code entered
    | SequenceRejected(violation: Violation)
    | Submitted(registration: RegisterOutcome)

  datatype Submission = Submission(outcome: Outcome, store: Store)

  /** What the backend and the browser supply to a submit: the day, the user, the clock, the faults. */
  datatype Context = Context(today: Day, user: UserId, now: Timestamp, faults: Faults)

  /** The types of the listed entries, in list order. */
  function TypesOf(entries: seq<RecentEntry>): (r: seq<EntryType>)
    ensures |r| == |entries|
    ensures forall i :: 0 <= i < |entries| ==> r[i] == entries[i].entryType
  {
    seq(|entries|, i requires 0 <= i < |entries| => entries[i].entryType)
  }

  /** The type of `recentEntries[0]`, treated as the last entry of the day. */
  function LastEntryType(stats: DayStats): (r: Option<EntryType>)
    ensures r.None? <==> stats.recentEntries == []
    ensures r.Some? ==> r.value == stats.recentEntries[0].entryType
  {
    LastOf(TypesOf(stats.recentEntries))
  }

  /** The fetched entries' head is the entry the guard treats as last. */
  lemma LastOfProcessedEntries(entries: seq<TimeEntry>, localTime: Timestamp -> string)
    ensures LastEntryType(ProcessTimeEntries(entries, localTime))
            == (if entries == [] then None else Some(entries[0].entryType))
  {
  }

  /**
   One press of an action button with the code typed so far. Rejections
   before the registration leave the store exactly as it was.
   */
  function HandleTimeAction(store: Store, stats: DayStats, action: EntryType, code: string,
                            ctx: Context): (r: Submission)
    ensures code == "" ==> r == Submission(MissingCode, store)
    ensures code != "" && !Accepts(LastEntryType(stats), action) ==>
              r == Submission(SequenceRejected(ViolationOf(action)), store)
    ensures r.outcome.Submitted? <==> code != "" && Accepts(LastEntryType(stats), action)
    ensures code != "" && Accepts(LastEntryType(stats), action) ==>
              var reg := RegisterTime(store, action, code, ctx.today, ctx.user, ctx.now, ctx.faults);
              r == Submission(Submitted(reg.outcome), reg.store)
    ensures r.store.codes != store.codes ==>
              r.outcome in {Submitted(Registered), Submitted(InsertFailed)}
              && ExactlyOneMatch(store.codes, code, ctx.today)
    ensures r.store.entries != store.entries ==>
              && r.outcome == Submitted(Registered)
              && exists i :: UniqueMatchAt(store.codes, code, ctx.today, i)
                   && r.store.entries == store.entries
                        + [TimeEntry(ctx.user, action, ctx.now, store.codes[i].createdBy)]
  {
    if code == "" then
      Submission(MissingCode, store)
    else
      match CheckSequence(LastEntryType(stats), action)
      case Some(v) => Submission(SequenceRejected(v), store)
      case None =>
        var reg := RegisterTime(store, action, code, ctx.today, ctx.user, ctx.now, ctx.faults);
        Submission(Submitted(reg.outcome), reg.store)
  }

  /**
   The verdict depends on the history only through its head: two days
   whose lists start with the same type, or are both empty, give the same
   outcome and the same store for every action.
   */
  lemma OnlyTheHeadMatters(store: Store, s1: DayStats, s2: DayStats, action: EntryType,
                           code: string, ctx: Context)
    requires LastEntryType(s1) == LastEntryType(s2)
    ensures HandleTimeAction(store, s1, action, code, ctx) == HandleTimeAction(store, s2, action, code, ctx)
  {
  }

  // ---------------------------------------------------------------------
  // How the store evolves over many submits
  // ---------------------------------------------------------------------

  /**
   `after` is `before` with some codes switched to used and some entries
   appended: no code row appears, disappears or changes otherwise, and no
   entry is removed or rewritten.
   */
  predicate Evolves(before: Store, after: Store) {
    && |after.codes| == |before.codes|
    && (forall i :: 0 <= i < |before.codes| ==>
          after.codes[i] == before.codes[i] || after.codes[i] == before.codes[i].(used := true))
    && |before.entries| <= |after.entries|
    && after.entries[..|before.entries|] == before.entries
  }

  lemma EvolvesTransitive(a: Store, b: Store, c: Store)
    requires Evolves(a, b) && Evolves(b, c)
    ensures Evolves(a, c)
  {
    assert c.entries[..|a.entries|] == b.entries[..|b.entries|][..|a.entries|];
  }

  lemma HandleTimeActionEvolves(store: Store, stats: DayStats, action: EntryType, code: string, ctx: Context)
    ensures Evolves(store, HandleTimeAction(store, stats, action, code, ctx).store)
  {
    var r := HandleTimeAction(store, stats, action, code, ctx);
    if r.store.codes != store.codes {
      var reg := RegisterTime(store, action, code, ctx.today, ctx.user, ctx.now, ctx.faults);
      assert r.store == reg.store;
      var i :| UniqueMatchAt(store.codes, code, ctx.today, i)
               && reg.store.codes == MarkUsed(store.codes, store.codes[i].id);
    }
  }

  /** One button press of a sequence: the list the employee saw, the action and the code. */
  datatype Step = Step(stats: DayStats, action: EntryType, code: string, context: Context)

  function Run(store: Store, steps: seq<Step>): Store
    decreases |steps|
  {
    if |steps| == 0 then store
    else
      var s := steps[0];
      Run(HandleTimeAction(store, s.stats, s.action, s.code, s.context).store, steps[1..])
  }

  lemma {:induction false} RunEvolves(store: Store, steps: seq<Step>)
    ensures Evolves(store, Run(store, steps))
    decreases |steps|
  {
    if |steps| > 0 {
      var s := steps[0];
      var next := HandleTimeAction(store, s.stats, s.action, s.code, s.context).store;
      HandleTimeActionEvolves(store, s.stats, s.action, s.code, s.context);
      RunEvolves(next, steps[1..]);
      EvolvesTransitive(store, next, Run(next, steps[1..]));
    }
  }

  /**
   Every entry names, as its validator, the creator of a code that has
   been used.
   */
  predicate Validated(store: Store) {
    forall k :: 0 <= k < |store.entries| ==>
      exists i :: 0 <= i < |store.codes| && store.codes[i].used
                  && store.codes[i].createdBy == store.entries[k].validatedBy
  }

  lemma {:induction false} RunKeepsValidated(store: Store, steps: seq<Step>)
    requires Validated(store)
    ensures Validated(Run(store, steps))
    decreases |steps|
  {
    if |steps| > 0 {
      var s := steps[0];
      var r := HandleTimeAction(store, s.stats, s.action, s.code, s.context);
      HandleTimeActionEvolves(store, s.stats, s.action, s.code, s.context);
      forall k | 0 <= k < |r.store.entries|
        ensures exists i :: 0 <= i < |r.store.codes| && r.store.codes[i].used
                  && r.store.codes[i].createdBy == r.store.entries[k].validatedBy
      {
        if k < |store.entries| {
          assert r.store.entries[k] == store.entries[k];
          var i :| 0 <= i < |store.codes| && store.codes[i].used
                   && store.codes[i].createdBy == store.entries[k].validatedBy;
          assert r.store.codes[i].used;
        } else {
          var reg := RegisterTime(store, s.action, s.code, s.context.today, s.context.user,
                                  s.context.now, s.context.faults);
          assert r.store == reg.store;
          var i :| UniqueMatchAt(store.codes, s.code, s.context.today, i)
                   && reg.store.codes == MarkUsed(store.codes, store.codes[i].id)
                   && reg.store.entries == store.entries
                        + [TimeEntry(s.context.user, s.action, s.context.now, store.codes[i].createdBy)];
          assert r.store.codes[i].used;
        }
      }
      RunKeepsValidated(r.store, steps[1..]);
    }
  }

  /**
   A spent code stays spent: when no unused row for the text exists on a
   day, submitting that text on that day any number of times, with any
   actions, changes nothing.
   */
  lemma {:induction false} SpentCodeReplaysChangeNothing(store: Store, steps: seq<Step>, text: string, day: Day)
    requires NoMatch(store.codes, text, day)
    requires forall k :: 0 <= k < |steps| ==> steps[k].code == text && steps[k].context.today == day
    ensures Run(store, steps) == store
    decreases |steps|
  {
    if |steps| > 0 {
      var s := steps[0];
      var r := HandleTimeAction(store, s.stats, s.action, s.code, s.context);
      assert !ExactlyOneMatch(store.codes, text, day);
      assert r.store == store;
      SpentCodeReplaysChangeNothing(store, steps[1..], text, day);
    }
  }

  /** A submit that registers consumes its code for good. */
  lemma RegistrationSpendsCode(store: Store, stats: DayStats, action: EntryType, code: string, ctx: Context)
    ensures var r := HandleTimeAction(store, stats, action, code, ctx);
            r.outcome == Submitted(Registered) ==> NoMatch(r.store.codes, code, ctx.today)
  {
    ConsumedCodeNoLongerMatches(store, action, code, ctx.today, ctx.user, ctx.now, ctx.faults);
  }

  // ---------------------------------------------------------------------
  // Every registered entry burns its own code
  // ---------------------------------------------------------------------

  function UsedCount(codes: seq<DailyCode>): (n: nat)
    ensures n <= |codes|
  {
    if |codes| == 0 then 0
    else (if codes[0].used then 1 else 0) + UsedCount(codes[1..])
  }

  lemma {:induction false} UsedCountUpdate(codes: seq<DailyCode>, i: nat, c: DailyCode)
    requires i < |codes|
    ensures UsedCount(codes[i := c]) + (if codes[i].used then 1 else 0)
            == UsedCount(codes) + (if c.used then 1 else 0)
    decreases |codes|
  {
    if i > 0 {
      assert codes[i := c][1..] == codes[1..][i - 1 := c];
      UsedCountUpdate(codes[1..], i - 1, c);
    } else {
      assert codes[i := c][1..] == codes[1..];
    }
  }

  /**
   With distinct code ids, one submit appends at most as many entries as
   it newly marks codes used.
   */
  lemma HandleTimeActionBurnsOneCodePerEntry(store: Store, stats: DayStats, action: EntryType,
                                             code: string, ctx: Context)
    requires IdsUnique(store.codes)
    ensures var r := HandleTimeAction(store, stats, action, code, ctx);
            |r.store.entries| - |store.entries| <= UsedCount(r.store.codes) - UsedCount(store.codes)
  {
    var r := HandleTimeAction(store, stats, action, code, ctx);
    HandleTimeActionEvolves(store, stats, action, code, ctx);
    if r.store.codes != store.codes {
      var reg := RegisterTime(store, action, code, ctx.today, ctx.user, ctx.now, ctx.faults);
      assert r.store == reg.store;
      RegisterTimeNothingElseChanges(store, action, code, ctx.today, ctx.user, ctx.now, ctx.faults);
      var i :| UniqueMatchAt(store.codes, code, ctx.today, i)
               && reg.store.codes == store.codes[i := store.codes[i].(used := true)];
      UsedCountUpdate(store.codes, i, store.codes[i].(used := true));
    }
  }

  /**
   Over any sequence of submits, with distinct code ids, the entries
   appended never outnumber the codes consumed.
   */
  lemma {:induction false} RunBurnsOneCodePerEntry(store: Store, steps: seq<Step>)
    requires IdsUnique(store.codes)
    ensures |Run(store, steps).entries| - |store.entries|
            <= UsedCount(Run(store, steps).codes) - UsedCount(store.codes)
    decreases |steps|
  {
    if |steps| > 0 {
      var s := steps[0];
      var next := HandleTimeAction(store, s.stats, s.action, s.code, s.context).store;
      HandleTimeActionBurnsOneCodePerEntry(store, s.stats, s.action, s.code, s.context);
      HandleTimeActionEvolves(store, s.stats, s.action, s.code, s.context);
      assert IdsUnique(next.codes) by {
        forall i, j | 0 <= i < |next.codes| && 0 <= j < |next.codes| && next.codes[i].id == next.codes[j].id
          ensures i == j
        {
          assert store.codes[i].id == store.codes[j].id;
        }
      }
      RunBurnsOneCodePerEntry(next, steps[1..]);
    }
  }
}
