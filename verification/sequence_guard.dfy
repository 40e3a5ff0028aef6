/**
 The clock-sequence guard of `handleTimeAction`
 (src/components/EmployeeView.jsx): whether an action may follow the last
 recorded entry. The verdict is a pure function of the last entry's type
 (absent when the day has no entries) and the requested action.
 */
module SequenceGuard {
  import opened Options
  import opened EntryTypes

  /** One rejection per action, each with its own message in the source. */
  datatype Violation =
    | DuplicateEntry      // ENTRADA right after ENTRADA
    | ExitWithoutEntry    // SALIDA not right after ENTRADA
    | BreakWithoutEntry   // DESCANSO_INICIO not right after ENTRADA
    | BreakNotStarted     // DESCANSO_FIN not right after DESCANSO_INICIO
    | LunchWithoutEntry   // COMIDA_INICIO not right after ENTRADA
    | LunchNotStarted     // COMIDA_FIN not right after COMIDA_INICIO

  /** The only violation an action can be rejected with. */
  function ViolationOf(action: EntryType): Violation {
    match action
    case Entrada => DuplicateEntry
    case Salida => ExitWithoutEntry
    case DescansoInicio => BreakWithoutEntry
    case DescansoFin => BreakNotStarted
    case ComidaInicio => LunchWithoutEntry
    case ComidaFin => LunchNotStarted
  }

  /** The head of a history ordered newest first, treated as the last entry. */
  function LastOf(history: seq<EntryType>): (r: Option<EntryType>)
    ensures r.None? <==> history == []
    ensures r.Some? ==> r.value == history[0]
  {
    if |history| > 0 then Some(history[0]) else None
  }

  /**
   The chain of checks in the order the source runs them; `None` lets the
   action through to the code gate.
   */
  function CheckSequence(last: Option<EntryType>, action: EntryType): (r: Option<Violation>)
    ensures r.Some? ==> r.value == ViolationOf(action)
    ensures action == Entrada ==> (r.Some? <==> last == Some(Entrada))
    ensures action in {Salida, DescansoInicio, ComidaInicio} ==> (r.None? <==> last == Some(Entrada))
    ensures action == DescansoFin ==> (r.None? <==> last == Some(DescansoInicio))
    ensures action == ComidaFin ==> (r.None? <==> last == Some(ComidaInicio))
  {
    var entered := last.Some? && last.value == Entrada;
    if action == Entrada && entered then Some(DuplicateEntry)
    else if action == Salida && !entered then Some(ExitWithoutEntry)
    else if action == DescansoInicio && !entered then Some(BreakWithoutEntry)
    else if action == DescansoFin && !(last.Some? && last.value == DescansoInicio) then Some(BreakNotStarted)
    else if action == ComidaInicio && !entered then Some(LunchWithoutEntry)
    else if action == ComidaFin && !(last.Some? && last.value == ComidaInicio) then Some(LunchNotStarted)
    else None
  }

  predicate Accepts(last: Option<EntryType>, action: EntryType) {
    CheckSequence(last, action).None?
  }

  /** The cases where the guard as written departs from a four-state clock. */
  lemma GuardExamples()
    ensures Accepts(None, Entrada)
    ensures Accepts(Some(DescansoInicio), Entrada) && Accepts(Some(ComidaInicio), Entrada)
    ensures Accepts(Some(DescansoFin), Entrada) && Accepts(Some(ComidaFin), Entrada)
    ensures CheckSequence(Some(DescansoFin), Salida) == Some(ExitWithoutEntry)
    ensures CheckSequence(Some(ComidaFin), Salida) == Some(ExitWithoutEntry)
    ensures CheckSequence(None, Salida) == Some(ExitWithoutEntry)
    ensures CheckSequence(Some(Entrada), Entrada) == Some(DuplicateEntry)
    ensures Accepts(Some(DescansoInicio), DescansoFin) && Accepts(Some(ComidaInicio), ComidaFin)
  {
  }

  // ---------------------------------------------------------------------
  // Comparison with a four-state clock (out, in, on break, at lunch)
  // ---------------------------------------------------------------------

  datatype ClockState = Out | In | OnBreak | AtLunch

  /** The state a four-state clock derives from the last entry. */
  function StateAfter(last: Option<EntryType>): ClockState {
    match last
    case None => Out
    case Some(t) =>
      match t
      case Entrada => In
      case Salida => Out
      case DescansoInicio => OnBreak
      case DescansoFin => In
      case ComidaInicio => AtLunch
      case ComidaFin => In
  }

  /** The four-state transition table; `None` is a rejected cell. */
  function TableStep(s: ClockState, action: EntryType): Option<ClockState> {
    match (s, action)
    case (Out, Entrada) => Some(In)
    case (In, Salida) => Some(Out)
    case (In, DescansoInicio) => Some(OnBreak)
    case (In, ComidaInicio) => Some(AtLunch)
    case (OnBreak, DescansoFin) => Some(In)
    case (AtLunch, ComidaFin) => Some(In)
    case _ => None
  }

  /**
   Exactly where the guard and the four-state table disagree: the guard
   also admits ENTRADA during a break or lunch and right after one ends,
   and it refuses SALIDA and new breaks or lunches right after a break or
   lunch ends. Everywhere else the two give the same verdict.
   */
  lemma GuardVersusStateTable(last: Option<EntryType>, action: EntryType)
    ensures Accepts(last, action) && TableStep(StateAfter(last), action).None?
            <==> action == Entrada && last.Some? && last.value in {DescansoInicio, DescansoFin, ComidaInicio, ComidaFin}
    ensures !Accepts(last, action) && TableStep(StateAfter(last), action).Some?
            <==> action in {Salida, DescansoInicio, ComidaInicio} && last in {Some(DescansoFin), Some(ComidaFin)}
  {
  }

  // ---------------------------------------------------------------------
  // Histories built by accepted actions
  // ---------------------------------------------------------------------

  /**
   Submits the actions in order against a history kept newest first; each
   accepted action becomes the new head, a rejected one leaves it as is.
   */
  function Replay(history: seq<EntryType>, actions: seq<EntryType>): (r: seq<EntryType>)
    ensures |history| <= |r| <= |history| + |actions|
    ensures r[|r| - |history|..] == history
    decreases |actions|
  {
    if |actions| == 0 then history
    else
      var next := if Accepts(LastOf(history), actions[0]) then [actions[0]] + history else history;
      Replay(next, actions[1..])
  }

  /** Every entry was accepted against the entry recorded just before it. */
  predicate Chained(history: seq<EntryType>) {
    forall i :: 0 <= i < |history| ==> AcceptedAt(history, i)
  }

  /** Entry `i` was acceptable after the entry recorded just before it. */
  predicate AcceptedAt(history: seq<EntryType>, i: nat)
    requires i < |history|
  {
    Accepts(LastOf(history[i + 1..]), history[i])
  }

  lemma {:induction false} ReplayKeepsChained(history: seq<EntryType>, actions: seq<EntryType>)
    requires Chained(history)
    ensures Chained(Replay(history, actions))
    decreases |actions|
  {
    if |actions| > 0 {
      var a := actions[0];
      if Accepts(LastOf(history), a) {
        var next := [a] + history;
        forall i | 0 <= i < |next|
          ensures AcceptedAt(next, i)
        {
          if i > 0 {
            assert next[i] == history[i - 1];
            assert next[i + 1..] == history[i..];
            assert AcceptedAt(history, i - 1);
          } else {
            assert next[1..] == history;
          }
        }
        ReplayKeepsChained(next, actions[1..]);
      } else {
        ReplayKeepsChained(history, actions[1..]);
      }
    }
  }

  /**
   What a chained history means, read from newest to oldest: no two
   consecutive ENTRADA, every SALIDA and every break or lunch start comes
   right after an ENTRADA, and every break or lunch end right after its
   start.
   */
  lemma ChainedMeans(history: seq<EntryType>, i: nat)
    requires Chained(history)
    requires i < |history|
    ensures history[i] == Entrada && i + 1 < |history| ==> history[i + 1] != Entrada
    ensures history[i] in {Salida, DescansoInicio, ComidaInicio} ==> i + 1 < |history| && history[i + 1] == Entrada
    ensures history[i] == DescansoFin ==> i + 1 < |history| && history[i + 1] == DescansoInicio
    ensures history[i] == ComidaFin ==> i + 1 < |history| && history[i + 1] == ComidaInicio
  {
    assert AcceptedAt(history, i);
    if i + 1 < |history| {
      assert LastOf(history[i + 1..]) == Some(history[i + 1]);
    }
  }

  /** A day built only by accepted actions never holds two ENTRADA in a row. */
  lemma NoDoubleEntrada(actions: seq<EntryType>)
    ensures forall i :: 0 <= i < |Replay([], actions)| - 1 ==>
              !(Replay([], actions)[i] == Entrada && Replay([], actions)[i + 1] == Entrada)
  {
    var h := Replay([], actions);
    ReplayKeepsChained([], actions);
    forall i | 0 <= i < |h| - 1
      ensures !(h[i] == Entrada && h[i + 1] == Entrada)
    {
      ChainedMeans(h, i);
    }
  }
}
