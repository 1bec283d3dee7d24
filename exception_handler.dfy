/**
 * GlobalExceptionHandler: turns failed request validation and
 * IllegalArgumentException into 400 responses.
 */
module ExceptionHandler {
  import opened Util
  import opened Strings
  import opened Enums
  import opened Requests
  import opened Validators
  import opened RequestValidation
  import opened Http

  /** errors[i] is the first error reported on its field. */
  predicate IsFirstOfField(errors: seq<FieldError>, i: nat) {
    i < |errors| && forall j :: 0 <= j < i ==> errors[j].field != errors[i].field
  }

  /**
   * Collectors.toMap(field, message, (existing, replacement) -> existing):
   * one entry per reported field, holding the first message reported on it.
   */
  function CollectFieldErrors(errors: seq<FieldError>): (m: map<string, string>)
    ensures m.Keys == Fields(errors)
    ensures forall i: nat :: IsFirstOfField(errors, i) ==> m[errors[i].field] == errors[i].message
  {
    if errors == [] then map[]
    else
      var init := errors[..|errors| - 1];
      var last := errors[|errors| - 1];
      var m := CollectFieldErrors(init);
      FieldsOfSnoc(errors);
      FirstOfFieldInInit(errors);
      if last.field in m then
        LaterNotFirst(errors);
        m
      else
        m[last.field := last.message]
  }

  /** The fields the errors are reported on. */
  function Fields(errors: seq<FieldError>): set<string> {
    set e | e in errors :: e.field
  }

  lemma FieldsOfSnoc(errors: seq<FieldError>)
    requires errors != []
    ensures Fields(errors) == Fields(errors[..|errors| - 1]) + {errors[|errors| - 1].field}
  {
    assert errors == errors[..|errors| - 1] + [errors[|errors| - 1]];
  }

  /** An error that is first of its field, other than the last, is first of its field without the last. */
  lemma FirstOfFieldInInit(errors: seq<FieldError>)
    requires errors != []
    ensures forall i: nat :: IsFirstOfField(errors, i) && i < |errors| - 1 ==> IsFirstOfField(errors[..|errors| - 1], i)
  {
  }

  /** The last error is not first of its field when an earlier one is on the same field. */
  lemma LaterNotFirst(errors: seq<FieldError>)
    requires errors != [] && errors[|errors| - 1].field in Fields(errors[..|errors| - 1])
    ensures !IsFirstOfField(errors, |errors| - 1)
  {
    var init := errors[..|errors| - 1];
    var e :| e in init && e.field == errors[|errors| - 1].field;
    var j :| 0 <= j < |init| && init[j] == e;
    assert errors[j] == e;
  }

  /** Every collected message is the first message of its field. */
  lemma CollectedMessagesAreFirst(errors: seq<FieldError>, field: string)
    requires field in CollectFieldErrors(errors)
    ensures exists i: nat | i < |errors| ::
              (IsFirstOfField(errors, i) && errors[i].field == field && CollectFieldErrors(errors)[field] == errors[i].message)
  {
    var e :| e in errors && e.field == field;
    var k :| 0 <= k < |errors| && errors[k] == e;
    FirstOccurrence(errors, field, k);
  }

  /** A field that is reported somewhere has a first report. */
  lemma {:induction false} FirstOccurrence(errors: seq<FieldError>, field: string, k: nat)
    requires k < |errors| && errors[k].field == field
    ensures exists i: nat | i <= k :: IsFirstOfField(errors, i) && errors[i].field == field
    decreases k
  {
    if IsFirstOfField(errors, k) {
      assert IsFirstOfField(errors, k) && errors[k].field == field;
    } else {
      var j :| 0 <= j < k && errors[j].field == errors[k].field;
      FirstOccurrence(errors, field, j);
    }
  }

  /** The lower-cased text both team checks look for. */
  const TeamsNeedle := "team a and team b must be different"

  /** msg.toLowerCase().contains("team a and team b must be different"). */
  predicate MentionsTeams(message: string) {
    Contains(ToLower(message), TeamsNeedle)
  }

  /** errors.values().stream().anyMatch(...) with the team test. */
  predicate AnyMentionsTeams(m: map<string, string>) {
    exists f :: f in m && MentionsTeams(m[f])
  }

  /**
   * handleValidationExceptions as written: the first-wins map, then the team
   * test twice over, then the map itself; always 400.
   */
  function HandleValidationExceptions(errors: seq<FieldError>): (resp: Response<()>)
    ensures resp.status == BAD_REQUEST && resp.body.ErrorMap?
  {
    var m := CollectFieldErrors(errors);
    if AnyMentionsTeams(m) then Response(BAD_REQUEST, ErrorBody(TeamsMustDifferMessage))
    else if AnyMentionsTeams(m) then Response(BAD_REQUEST, ErrorBody(TeamsMustDifferMessage))
    else Response(BAD_REQUEST, ErrorMap(m))
  }

  /** The handler with its team test written once. */
  function HandleValidationExceptionsOnce(errors: seq<FieldError>): (resp: Response<()>)
    ensures resp.status == BAD_REQUEST && resp.body.ErrorMap?
  {
    var m := CollectFieldErrors(errors);
    if AnyMentionsTeams(m) then Response(BAD_REQUEST, ErrorBody(TeamsMustDifferMessage))
    else Response(BAD_REQUEST, ErrorMap(m))
  }

  /** The second team test repeats the first and can never change the response. */
  lemma SecondTeamCheckRedundant(errors: seq<FieldError>)
    ensures HandleValidationExceptions(errors) == HandleValidationExceptionsOnce(errors)
  {
  }

  /** The team constraint's own message passes the team test. */
  lemma TeamsMessageMentionsTeams()
    ensures MentionsTeams(TeamsMustDifferMessage)
  {
    TeamsMessageParts();
    TeamsNeedleParts();
    TeamALowered();
    TeamBLowered();
    BeDifferentLowered();
    ToLowerOfParts("Team A and ", "Team B must ", "be different", "team a and ", "team b must ", "be different");
    ContainsSelf(TeamsNeedle);
  }

  // The facts about the team message's literal parts, one per lemma.

  lemma TeamsMessageParts()
    ensures TeamsMustDifferMessage == "Team A and " + ("Team B must " + "be different")
  {
  }

  lemma TeamsNeedleParts()
    ensures TeamsNeedle == "team a and " + ("team b must " + "be different")
  {
  }

  lemma TeamALowered()
    ensures ToLower("Team A and ") == "team a and "
  {
    ToLowerPointwise("Team A and ", "team a and ");
  }

  lemma TeamBLowered()
    ensures ToLower("Team B must ") == "team b must "
  {
    ToLowerPointwise("Team B must ", "team b must ");
  }

  lemma BeDifferentLowered()
    ensures ToLower("be different") == "be different"
  {
    ToLowerPointwise("be different", "be different");
  }

  /**
   * When the team violation is the first error on its field, the whole
   * response collapses to the single team message.
   */
  lemma TeamViolationCollapses(errors: seq<FieldError>, i: nat)
    requires IsFirstOfField(errors, i) && errors[i].message == TeamsMustDifferMessage
    ensures HandleValidationExceptions(errors) == Response(BAD_REQUEST, ErrorBody(TeamsMustDifferMessage))
  {
    TeamsMessageMentionsTeams();
    var m := CollectFieldErrors(errors);
    assert errors[i].field in m && MentionsTeams(m[errors[i].field]);
  }

  /** When no message mentions the teams, the body is the first-wins map. */
  lemma NoTeamMessageKeepsMap(errors: seq<FieldError>)
    requires forall i :: 0 <= i < |errors| ==> !MentionsTeams(errors[i].message)
    ensures HandleValidationExceptions(errors) == Response(BAD_REQUEST, ErrorMap(CollectFieldErrors(errors)))
  {
    var m := CollectFieldErrors(errors);
    forall f | f in m ensures !MentionsTeams(m[f]) {
      CollectedMessagesAreFirst(errors, f);
    }
  }

  /**
   * End to end: a request that breaks only the different-teams rule is
   * answered with 400 and the single team message.
   */
  lemma TeamClashResponse(r: SaveMatchRequest)
    requires FieldsValid(r) && MatchOddsConstraint(Some(r)) == Pass
    requires EqualsIgnoreCase(r.teamA.value, r.teamB.value)
    ensures Validate(r) == Violations([FieldError("teamB", TeamsMustDifferMessage)])
    ensures HandleValidationExceptions(Validate(r).errors) == Response(BAD_REQUEST, ErrorBody(TeamsMustDifferMessage))
  {
    assert FieldErrors(r) == [] by {
      FieldErrorsEmptyIff(r);
    }
    OnlyTeamsVerdictLeft(r);
    TeamViolationCollapses([FieldError("teamB", TeamsMustDifferMessage)], 0);
  }

  /** The generic answer to an IllegalArgumentException it does not recognise. */
  const InvalidRequestMessage := "Invalid request"

  /** The two phrases, tested on the lower-cased message, that mark an enum rejection. */
  predicate MentionsInvalidValue(message: string) {
    Contains(ToLower(message), "invalid sport") || Contains(ToLower(message), "invalid specifier")
  }

  /**
   * handleIllegalArgumentException: a non-null message that mentions an
   * invalid sport or specifier, ignoring case, is echoed unchanged; anything
   * else, a null message included, becomes "Invalid request". Always 400.
   */
  function HandleIllegalArgument(message: Option<string>): (resp: Response<()>)
    ensures resp.status == BAD_REQUEST
    ensures message.Some? && MentionsInvalidValue(message.value) ==> resp.body == ErrorBody(message.value)
    ensures message.None? || !MentionsInvalidValue(message.value) ==> resp.body == ErrorBody(InvalidRequestMessage)
  {
    if message.Some? && Contains(ToLower(message.value), "invalid sport") then
      Response(BAD_REQUEST, ErrorBody(message.value))
    else if message.Some? && Contains(ToLower(message.value), "invalid specifier") then
      Response(BAD_REQUEST, ErrorBody(message.value))
    else
      Response(BAD_REQUEST, ErrorBody(InvalidRequestMessage))
  }

  /** A fromString rejection mentions "invalid" and its kind, ignoring case. */
  lemma RejectionMentionsKind(kind: string, value: Option<string>, allowed: string)
    ensures Contains(ToLower(RejectionMessage(kind, value, allowed)), ToLower("Invalid " + kind))
  {
    var head := "Invalid " + kind;
    var m := RejectionMessage(kind, value, allowed);
    forall i | 0 <= i < |head| ensures m[i] == head[i] {
    }
    LowerPrefixContained(m, head);
  }

  lemma InvalidSportLowered()
    ensures ToLower("Invalid " + "sport") == "invalid sport"
  {
    ToLowerPointwise("Invalid " + "sport", "invalid sport");
  }

  lemma InvalidSpecifierLowered()
    ensures ToLower("Invalid " + "specifier") == "invalid specifier"
  {
    ToLowerPointwise("Invalid " + "specifier", "invalid specifier");
  }

  /** Sport.fromString's rejection reaches the client word for word. */
  lemma SportRejectionEchoed(value: Option<string>)
    requires SportFromString(value).IllegalArgument?
    ensures var msg := SportFromString(value).message;
      HandleIllegalArgument(Some(msg)) == Response(BAD_REQUEST, ErrorBody(msg))
  {
    RejectionMentionsKind("sport", value, "FOOTBALL or BASKETBALL");
    InvalidSportLowered();
  }

  /** Specifier.fromString's rejection reaches the client word for word. */
  lemma SpecifierRejectionEchoed(value: Option<string>)
    requires SpecifierFromString(value).IllegalArgument?
    ensures var msg := SpecifierFromString(value).message;
      HandleIllegalArgument(Some(msg)) == Response(BAD_REQUEST, ErrorBody(msg))
  {
    RejectionMentionsKind("specifier", value, "WIN or DRAW or LOSE");
    InvalidSpecifierLowered();
  }
}
