/**
 * Bean validation of a SaveMatchRequest as `@Valid` triggers it: the field
 * constraints, the constraints on each submitted odd, and the two class-level
 * constraints. The outcome is either the list of field errors (empty when the
 * request is valid) or an exception escaping from a validator.
 */
module RequestValidation {
  import opened Util
  import opened Strings
  import opened Values
  import opened Enums
  import opened Requests
  import opened Validators

  /** A Spring FieldError: the property path and the default message. */
  datatype FieldError = FieldError(field: string, message: string)

  datatype Validation =
    | Violations(errors: seq<FieldError>)
    | ValidatorThrew

  /** @NotBlank: not null, and something other than blanks once trimmed. */
  predicate NotBlank(s: Option<string>) {
    s.Some? && Trim(s.value) != []
  }

  /** A field error when the check fails, nothing when it holds. */
  function Check(holds: bool, field: string, message: string): seq<FieldError> {
    if holds then [] else [FieldError(field, message)]
  }

  /** The @NotNull rules of the odd at index i of the list. */
  function OddErrors(odd: RequestOdds, i: nat): (errors: seq<FieldError>)
    ensures errors == [] <==> odd.specifier.Some? && odd.odd.Some?
  {
    var path := "odds[" + DecimalString(i) + "]";
    Check(odd.specifier.Some?, path + ".specifier", "Specifier is required")
    + Check(odd.odd.Some?, path + ".odd", "Odd is required")
  }

  /** The nested rules of every odd from index `from` on. */
  function OddsErrors(odds: seq<RequestOdds>, from: nat): (errors: seq<FieldError>)
    requires from <= |odds|
    ensures errors == [] <==> forall i :: from <= i < |odds| ==> odds[i].specifier.Some? && odds[i].odd.Some?
    decreases |odds| - from
  {
    if from == |odds| then [] else OddErrors(odds[from], from) + OddsErrors(odds, from + 1)
  }

  /** The field-level constraints of SaveMatchRequest and of its odds. */
  function FieldErrors(r: SaveMatchRequest): seq<FieldError> {
    Check(NotBlank(r.matchDate), "matchDate", "Match date is required")
    + Check(NotBlank(r.matchTime), "matchTime", "Match time is required")
    + Check(NotBlank(r.teamA), "teamA", "Team A is required")
    + Check(NotBlank(r.teamB), "teamB", "Team B is required")
    + Check(r.sport.Some?, "sport", "Sport is required")
    + Check(r.odds.Some?, "odds", "Odds list cannot be null")
    + Check(r.odds.Some? && r.odds.value != [], "odds", "Odds list cannot be empty")
    + (if r.odds.Some? then OddsErrors(r.odds.value, 0) else [])
  }

  /** The violation a class-level verdict contributes. */
  function VerdictErrors(v: Verdict): seq<FieldError> {
    if v.Violation? then [FieldError(v.field, v.message)] else []
  }

  /** Validating a request: every constraint is evaluated and its errors gathered. */
  function Validate(r: SaveMatchRequest): (v: Validation)
    ensures v.ValidatorThrew? <==> MatchOddsConstraint(Some(r)).NullReference?
  {
    var odds := MatchOddsConstraint(Some(r));
    if odds.NullReference? then ValidatorThrew
    else Violations(FieldErrors(r) + VerdictErrors(DifferentTeams(Some(r))) + VerdictErrors(odds))
  }

  /** The field-level constraints of SaveMatchRequest and of its odds, as one predicate. */
  predicate FieldsValid(r: SaveMatchRequest) {
    && NotBlank(r.matchDate)
    && NotBlank(r.matchTime)
    && NotBlank(r.teamA)
    && NotBlank(r.teamB)
    && r.sport.Some?
    && r.odds.Some? && r.odds.value != []
    && (forall i :: 0 <= i < |r.odds.value| ==> r.odds.value[i].specifier.Some? && r.odds.value[i].odd.Some?)
  }

  /** The whole constraint set of SaveMatchRequest as one predicate. */
  predicate IsValid(r: SaveMatchRequest) {
    && FieldsValid(r)
    && DifferentTeams(Some(r)) == Pass
    && MatchOddsConstraint(Some(r)) == Pass
  }

  /** The field-level rules report nothing exactly when they all hold. */
  lemma FieldErrorsEmptyIff(r: SaveMatchRequest)
    ensures FieldErrors(r) == [] <==> FieldsValid(r)
  {
    var nested := if r.odds.Some? then OddsErrors(r.odds.value, 0) else [];
    assert |FieldErrors(r)| ==
      |Check(NotBlank(r.matchDate), "matchDate", "Match date is required")|
      + |Check(NotBlank(r.matchTime), "matchTime", "Match time is required")|
      + |Check(NotBlank(r.teamA), "teamA", "Team A is required")|
      + |Check(NotBlank(r.teamB), "teamB", "Team B is required")|
      + |Check(r.sport.Some?, "sport", "Sport is required")|
      + |Check(r.odds.Some?, "odds", "Odds list cannot be null")|
      + |Check(r.odds.Some? && r.odds.value != [], "odds", "Odds list cannot be empty")|
      + |nested|;
  }

  /** A request is valid exactly when validating it reports no error at all. */
  lemma ValidIffNoViolations(r: SaveMatchRequest)
    ensures IsValid(r) <==> Validate(r) == Violations([])
  {
    FieldErrorsEmptyIff(r);
    var teams := VerdictErrors(DifferentTeams(Some(r)));
    var odds := MatchOddsConstraint(Some(r));
    if !odds.NullReference? {
      assert |Validate(r).errors| == |FieldErrors(r)| + |teams| + |VerdictErrors(odds)|;
    }
  }

  /** With the field rules and the odds rule met, only the team rule can report. */
  lemma OnlyTeamsVerdictLeft(r: SaveMatchRequest)
    requires FieldErrors(r) == [] && MatchOddsConstraint(Some(r)) == Pass
    ensures Validate(r) == Violations(VerdictErrors(DifferentTeams(Some(r))))
  {
    assert FieldErrors(r) + VerdictErrors(DifferentTeams(Some(r))) + [] == VerdictErrors(DifferentTeams(Some(r)));
  }

  /**
   * What validity guarantees the service: both teams present and different
   * ignoring case, a sport, and exactly three fully specified odds that are
   * a permutation of WIN, DRAW and LOSE.
   */
  lemma ValidRequestShape(r: SaveMatchRequest)
    requires IsValid(r)
    ensures r.matchDate.Some? && r.matchTime.Some? && r.sport.Some?
    ensures r.teamA.Some? && r.teamB.Some? && !EqualsIgnoreCase(r.teamA.value, r.teamB.value)
    ensures r.odds.Some? && |r.odds.value| == 3 && AllSpecified(r.odds.value)
    ensures multiset(Specifiers(r.odds.value)) == multiset(RequiredSpecifiers)
  {
    OddsValidIffPermutation(r);
  }

  /** The description takes no part in validation. */
  lemma DescriptionUnconstrained(r: SaveMatchRequest, description: Option<string>)
    ensures Validate(r.(description := description)) == Validate(r)
  {
    var r' := r.(description := description);
    assert FieldErrors(r') == FieldErrors(r);
    if r.odds.Some? {
      OddsVerdictIgnoresOddValues(r, r');
    }
  }
}
