/**
 * `get_final_tm` (app.py:178-202): the trip start chosen for one joined row, from the
 * reservation timestamp, the transaction mode and the two airport timestamps of the
 * transaction. The answer is a timestamp, the request to enter the date by hand, or NaT.
 */
module Resolve {
  import opened Wrappers
  import opened Text
  import opened Cells

  /** What `get_final_tm` returns: a timestamp, the text "Ingresar Manualmente", or NaT. */
  datatype Resolved = Concrete(t: Timestamp) | Manual | Absent

  /** The four cells of a joined row that `get_final_tm` reads. */
  datatype TripEvidence = TripEvidence(
    reservation: Option<Timestamp>,  // 'tm_start_dt'
    mode: Cell,                      // 'Modo'
    fromAirport: Option<Timestamp>,  // 'F.Desde Aerop_dt'
    toAirport: Option<Timestamp>)    // 'F.Hacia Aerop_dt'

  /** `str(mode).strip() == 'Round'`: a round trip, whatever blanks surround the word. */
  predicate IsRound(mode: Cell)
  {
    Trim(Str(mode)) == "Round"
  }

  /**
   * `get_final_tm(row)`. The reservation timestamp wins outright. Without it, a row with no
   * transaction mode has no date; a round trip, or a trip with both airport legs dated, must
   * be entered by hand; otherwise the single dated leg is the answer, and no dated leg is no date.
   */
  function GetFinalTm(e: TripEvidence): (r: Resolved)
    ensures e.reservation.Some? ==> r == Concrete(e.reservation.value)
    ensures r == Manual <==>
      e.reservation.None? && !e.mode.Null? && (IsRound(e.mode) || (e.fromAirport.Some? && e.toAirport.Some?))
    ensures r == Absent <==>
      e.reservation.None? && (e.mode.Null? || (!IsRound(e.mode) && e.fromAirport.None? && e.toAirport.None?))
    ensures r.Concrete? ==>
      Some(r.t) == e.reservation || Some(r.t) == e.fromAirport || Some(r.t) == e.toAirport
  {
    if e.reservation.Some? then Concrete(e.reservation.value)
    else if e.mode.Null? then Absent
    else if IsRound(e.mode) then Manual
    else if e.fromAirport.Some? && e.toAirport.Some? then Manual
    else if e.fromAirport.Some? then Concrete(e.fromAirport.value)
    else if e.toAirport.Some? then Concrete(e.toAirport.value)
    else Absent
  }

  /**
   * The resolver read as a priority list of rules, each with its own condition and answer,
   * the first rule whose condition holds deciding.
   */
  datatype Rule = FromReservation | NoTransaction | RoundTrip | BothLegs | OnlyFromAirport | OnlyToAirport | NoLeg

  const Priority: seq<Rule> := [FromReservation, NoTransaction, RoundTrip, BothLegs, OnlyFromAirport, OnlyToAirport, NoLeg]

  predicate Applies(rule: Rule, e: TripEvidence)
  {
    match rule
    case FromReservation => e.reservation.Some?
    case NoTransaction => e.mode.Null?
    case RoundTrip => IsRound(e.mode)
    case BothLegs => e.fromAirport.Some? && e.toAirport.Some?
    case OnlyFromAirport => e.fromAirport.Some?
    case OnlyToAirport => e.toAirport.Some?
    case NoLeg => true
  }

  function Answer(rule: Rule, e: TripEvidence): Resolved
    requires Applies(rule, e)
  {
    match rule
    case FromReservation => Concrete(e.reservation.value)
    case NoTransaction => Absent
    case RoundTrip => Manual
    case BothLegs => Manual
    case OnlyFromAirport => Concrete(e.fromAirport.value)
    case OnlyToAirport => Concrete(e.toAirport.value)
    case NoLeg => Absent
  }

  /** The answer of the first rule in `rules` whose condition holds, if any. */
  function FirstMatch(rules: seq<Rule>, e: TripEvidence): Option<Resolved>
  {
    if rules == [] then None
    else if Applies(rules[0], e) then Some(Answer(rules[0], e))
    else FirstMatch(rules[1..], e)
  }

  /** What the dated legs alone decide. */
  function LegAnswer(e: TripEvidence): Resolved
  {
    if e.fromAirport.Some? && e.toAirport.Some? then Manual
    else if e.fromAirport.Some? then Concrete(e.fromAirport.value)
    else if e.toAirport.Some? then Concrete(e.toAirport.value)
    else Absent
  }

  /** The rules after the mode checks, on their own: the dated legs decide. */
  lemma LegRules(e: TripEvidence)
    ensures FirstMatch([BothLegs, OnlyFromAirport, OnlyToAirport, NoLeg], e) == Some(LegAnswer(e))
  {
    var t3: seq<Rule> := [NoLeg];
    var t2 := [OnlyToAirport] + t3;
    var t1 := [OnlyFromAirport] + t2;
    var t0 := [BothLegs] + t1;
    assert t3[0] == NoLeg && t3[1..] == [];
    assert FirstMatch(t3, e) == Some(Absent);
    assert t2[0] == OnlyToAirport && t2[1..] == t3;
    assert t1[0] == OnlyFromAirport && t1[1..] == t2;
    assert t0[0] == BothLegs && t0[1..] == t1;
    assert FirstMatch(t2, e) == Some(if e.toAirport.Some? then Concrete(e.toAirport.value) else Absent);
    assert FirstMatch(t1, e) == Some(if e.fromAirport.Some? then Concrete(e.fromAirport.value)
                                     else if e.toAirport.Some? then Concrete(e.toAirport.value) else Absent);
    assert t0 == [BothLegs, OnlyFromAirport, OnlyToAirport, NoLeg];
  }

  /** The rules after the reservation check: the mode, then the dated legs, decide. */
  lemma ModeRules(e: TripEvidence)
    ensures FirstMatch([NoTransaction, RoundTrip, BothLegs, OnlyFromAirport, OnlyToAirport, NoLeg], e)
         == Some(if e.mode.Null? then Absent else if IsRound(e.mode) then Manual else LegAnswer(e))
  {
    var t: seq<Rule> := [BothLegs, OnlyFromAirport, OnlyToAirport, NoLeg];
    var t1 := [RoundTrip] + t;
    var t0 := [NoTransaction] + t1;
    assert t0[0] == NoTransaction && t0[1..] == t1;
    assert t1[0] == RoundTrip && t1[1..] == t;
    LegRules(e);
    assert t0 == [NoTransaction, RoundTrip, BothLegs, OnlyFromAirport, OnlyToAirport, NoLeg];
  }

  /** `get_final_tm` is exactly the first applicable rule of the priority list. */
  lemma GetFinalTmIsFirstRule(e: TripEvidence)
    ensures FirstMatch(Priority, e) == Some(GetFinalTm(e))
  {
    var t0: seq<Rule> := [NoTransaction, RoundTrip, BothLegs, OnlyFromAirport, OnlyToAirport, NoLeg];
    assert Priority[0] == FromReservation && Priority[1..] == t0;
    ModeRules(e);
  }

  /** A reservation timestamp decides alone: the transaction fields are not even looked at. */
  lemma ReservationDecides(e: TripEvidence, mode: Cell, fromAirport: Option<Timestamp>, toAirport: Option<Timestamp>)
    requires e.reservation.Some?
    ensures GetFinalTm(e) == GetFinalTm(TripEvidence(e.reservation, mode, fromAirport, toAirport))
  {
  }

  /** A round trip is entered by hand whatever its airport timestamps say. */
  lemma RoundTripIgnoresLegs(e: TripEvidence, fromAirport: Option<Timestamp>, toAirport: Option<Timestamp>)
    requires e.reservation.None? && IsRound(e.mode)
    ensures GetFinalTm(e) == Manual
    ensures GetFinalTm(e.(fromAirport := fromAirport, toAirport := toAirport)) == Manual
  {
    assert !e.mode.Null? by {
      assert Str(Null) == "nan";
    }
  }
}
