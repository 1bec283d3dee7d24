/**
 * The two class-level constraints on a SaveMatchRequest: the teams must
 * differ ignoring case (DifferentTeamsDtoValidator) and the odds must be one
 * each of WIN, DRAW and LOSE (MatchOddsConstraintValidator).
 */
module Validators {
  import opened Util
  import opened Strings
  import opened Enums
  import opened Requests

  /**
   * What a ConstraintValidator's isValid leaves behind: true, or false with
   * the one violation it built (a property node and a message), or a
   * null-dereference exception escaping from it.
   */
  datatype Verdict =
    | Pass
    | Violation(field: string, message: string)
    | NullReference

  /** The default message of the different-teams constraint. */
  const TeamsMustDifferMessage := "Team A and Team B must be different"

  /**
   * DifferentTeamsDtoValidator.isValid. A null request or a null team passes,
   * leaving it to the not-blank rules; otherwise the teams are compared with
   * equalsIgnoreCase, as sent (no trimming), and a clash is reported on teamB.
   */
  function DifferentTeams(request: Option<SaveMatchRequest>): (v: Verdict)
    ensures !v.NullReference?
    ensures request.None? || request.value.teamA.None? || request.value.teamB.None? ==> v == Pass
    ensures v.Violation? ==> v == Violation("teamB", TeamsMustDifferMessage)
    ensures request.Some? && request.value.teamA.Some? && request.value.teamB.Some? ==>
      (v == Pass <==> !EqualsIgnoreCase(request.value.teamA.value, request.value.teamB.value))
  {
    if request.None? then Pass
    else if request.value.teamA.None? || request.value.teamB.None? then Pass
    else if EqualsIgnoreCase(request.value.teamA.value, request.value.teamB.value) then
      Violation("teamB", TeamsMustDifferMessage)
    else Pass
  }

  /** The request with its two teams swapped. */
  function SwapTeams(r: SaveMatchRequest): SaveMatchRequest {
    r.(teamA := r.teamB, teamB := r.teamA)
  }

  /** Swapping the two teams does not change the verdict. */
  lemma DifferentTeamsSymmetric(r: SaveMatchRequest)
    ensures DifferentTeams(Some(SwapTeams(r))) == DifferentTeams(Some(r))
  {
    if r.teamA.Some? && r.teamB.Some? {
      EqualsIgnoreCaseSymmetric(r.teamA.value, r.teamB.value);
    }
  }

  /** A team name and its upper-case form are the same team to the validator. */
  lemma DifferentTeamsIgnoresCase(r: SaveMatchRequest, name: string)
    requires r.teamA == Some(name) && r.teamB == Some(ToUpper(name))
    ensures DifferentTeams(Some(r)) == Violation("teamB", TeamsMustDifferMessage)
  {
    forall i | 0 <= i < |name| ensures ToLower(name)[i] == ToLower(ToUpper(name))[i] {
      assert ToUpper(name)[i] == UpperChar(name[i]);
    }
    EqualsIgnoreCaseIffSameLower(name, ToUpper(name));
  }

  /**
   * The validator does not trim: a name with leading blanks and the same name
   * without them are different teams to it.
   */
  lemma DifferentTeamsDoesNotTrim(r: SaveMatchRequest, name: string)
    requires r.teamA == Some(" " + name) && r.teamB == Some(name)
    ensures DifferentTeams(Some(r)) == Pass
  {
  }

  /** The message when the odds list is not three long. */
  const OddsSizeMessage := "Odds list must contain exactly 3 items"

  /** The specifiers that must each occur once, in the order they are checked. */
  const RequiredSpecifiers: seq<Specifier> := [WIN, DRAW, LOSE]

  /** The message when specifier s does not occur exactly once. */
  function ExactlyOneMessage(s: Specifier): string {
    "Must have exactly one '" + SpecifierName(s) + "' specifier"
  }

  /** Every submitted odd names a specifier. */
  predicate AllSpecified(odds: seq<RequestOdds>) {
    forall i :: 0 <= i < |odds| ==> odds[i].specifier.Some?
  }

  /** The specifiers of the submitted odds, in order. */
  function Specifiers(odds: seq<RequestOdds>): (s: seq<Specifier>)
    requires AllSpecified(odds)
    ensures |s| == |odds|
    ensures forall i :: 0 <= i < |odds| ==> s[i] == odds[i].specifier.value
  {
    if odds == [] then [] else [odds[0].specifier.value] + Specifiers(odds[1..])
  }

  /** required[i] is the first entry of required whose count is not one. */
  predicate IsFirstMiscounted(required: seq<Specifier>, counts: multiset<Specifier>, i: nat) {
    && i < |required|
    && counts[required[i]] != 1
    && forall j :: 0 <= j < i ==> counts[required[j]] == 1
  }

  /**
   * The loop over the required specifiers: the first whose count in the
   * grouping is not one, if any.
   */
  function FirstMiscounted(required: seq<Specifier>, counts: multiset<Specifier>): (r: Option<Specifier>)
    ensures r.None? <==> forall j :: 0 <= j < |required| ==> counts[required[j]] == 1
    ensures r.Some? ==> exists i: nat | i < |required| :: IsFirstMiscounted(required, counts, i) && required[i] == r.value
  {
    if required == [] then None
    else if counts[required[0]] != 1 then
      assert IsFirstMiscounted(required, counts, 0);
      Some(required[0])
    else
      var r := FirstMiscounted(required[1..], counts);
      if r.Some? then
        var i: nat :| i < |required| - 1 && IsFirstMiscounted(required[1..], counts, i) && required[1..][i] == r.value;
        assert IsFirstMiscounted(required, counts, i + 1);
        r
      else
        assert forall j :: 1 <= j < |required| ==> required[j] == required[1..][j - 1];
        r
  }

  /**
   * MatchOddsConstraintValidator.isValid. A null request or null list passes;
   * a list not three long fails on its size alone; otherwise the specifiers
   * are grouped and counted, which throws on a missing specifier, and the
   * first of WIN, DRAW, LOSE not counted exactly once is reported. Every
   * violation is put on the property node "error".
   */
  function MatchOddsConstraint(request: Option<SaveMatchRequest>): (v: Verdict)
    ensures request.None? || request.value.odds.None? ==> v == Pass
    ensures request.Some? && request.value.odds.Some? && |request.value.odds.value| != 3 ==>
      v == Violation("error", OddsSizeMessage)
    ensures v.NullReference? <==>
      request.Some? && request.value.odds.Some? && |request.value.odds.value| == 3 && !AllSpecified(request.value.odds.value)
    ensures v.Violation? ==> v.field == "error"
  {
    if request.None? || request.value.odds.None? then Pass
    else
      var odds := request.value.odds.value;
      if |odds| != 3 then Violation("error", OddsSizeMessage)
      else if !AllSpecified(odds) then NullReference
      else
        match FirstMiscounted(RequiredSpecifiers, multiset(Specifiers(odds)))
        case None => Pass
        case Some(s) => Violation("error", ExactlyOneMessage(s))
  }

  /**
   * For three specified odds the verdict is decided by the counts, checked
   * in the order WIN, DRAW, LOSE, and names the first one that is off.
   */
  lemma OddsVerdictByCounts(r: SaveMatchRequest)
    requires r.odds.Some? && |r.odds.value| == 3 && AllSpecified(r.odds.value)
    ensures var c := multiset(Specifiers(r.odds.value));
      MatchOddsConstraint(Some(r)) ==
        if c[WIN] != 1 then Violation("error", ExactlyOneMessage(WIN))
        else if c[DRAW] != 1 then Violation("error", ExactlyOneMessage(DRAW))
        else if c[LOSE] != 1 then Violation("error", ExactlyOneMessage(LOSE))
        else Pass
  {
    var c := multiset(Specifiers(r.odds.value));
    var f := FirstMiscounted(RequiredSpecifiers, c);
    if f.Some? {
      var i: nat :| i < 3 && IsFirstMiscounted(RequiredSpecifiers, c, i) && RequiredSpecifiers[i] == f.value;
      assert i == 0 || c[WIN] == 1;
      assert i <= 1 || c[DRAW] == 1;
    } else {
      assert c[RequiredSpecifiers[0]] == 1 && c[RequiredSpecifiers[1]] == 1 && c[RequiredSpecifiers[2]] == 1;
    }
  }

  /**
   * A three-element list with every specifier present passes exactly when its
   * specifiers are a permutation of WIN, DRAW and LOSE.
   */
  lemma OddsValidIffPermutation(r: SaveMatchRequest)
    requires r.odds.Some? && |r.odds.value| == 3 && AllSpecified(r.odds.value)
    ensures MatchOddsConstraint(Some(r)) == Pass <==>
      multiset(Specifiers(r.odds.value)) == multiset(RequiredSpecifiers)
  {
    var c := multiset(Specifiers(r.odds.value));
    var want := multiset(RequiredSpecifiers);
    OddsVerdictByCounts(r);
    assert want[WIN] == 1 && want[DRAW] == 1 && want[LOSE] == 1;
    if c[WIN] == 1 && c[DRAW] == 1 && c[LOSE] == 1 {
      forall s: Specifier ensures c[s] == want[s] {
        match s
        case WIN =>
        case DRAW =>
        case LOSE =>
      }
      assert c == want;
    }
  }

  /**
   * Only the specifiers are inspected: two requests whose odds lists agree on
   * every specifier get the same verdict, whatever their odd values and other
   * fields.
   */
  lemma OddsVerdictIgnoresOddValues(r1: SaveMatchRequest, r2: SaveMatchRequest)
    requires r1.odds.Some? && r2.odds.Some? && |r1.odds.value| == |r2.odds.value|
    requires forall i :: 0 <= i < |r1.odds.value| ==> r1.odds.value[i].specifier == r2.odds.value[i].specifier
    ensures MatchOddsConstraint(Some(r1)) == MatchOddsConstraint(Some(r2))
  {
    var o1, o2 := r1.odds.value, r2.odds.value;
    if |o1| == 3 && AllSpecified(o1) {
      assert Specifiers(o1) == Specifiers(o2);
    }
  }
}
