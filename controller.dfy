/**
 * MatchController: the four endpoints under /bet, each a call into the match
 * service followed by the translation of its Result into an HTTP status and
 * body. Errors are classified by ordered, case-insensitive substring tests on
 * the service's message; the body of every error is that message, as sent.
 */
module Controllers {
  import opened Util
  import opened Strings
  import opened Values
  import opened Enums
  import opened Requests
  import opened Entities
  import opened Http
  import opened MatchServices

  /** The controller's test: the lower-cased message contains the needle. */
  predicate Mentions(message: string, needle: string) {
    Contains(ToLower(message), needle)
  }

  /** saveMatch: "already exists" is a conflict, "unauthorized:" (with the colon) is 401. */
  function SaveErrorStatus(message: string): (status: int)
    ensures status in {CONFLICT, UNAUTHORIZED, INTERNAL_SERVER_ERROR}
  {
    if Mentions(message, "already exists") then CONFLICT
    else if Mentions(message, "unauthorized:") then UNAUTHORIZED
    else INTERNAL_SERVER_ERROR
  }

  /** updateMatch: "not found", "duplicate", "unauthorized", "you do not have permission", in that order. */
  function UpdateErrorStatus(message: string): (status: int)
    ensures status in {NOT_FOUND, CONFLICT, UNAUTHORIZED, FORBIDDEN, INTERNAL_SERVER_ERROR}
  {
    if Mentions(message, "not found") then NOT_FOUND
    else if Mentions(message, "duplicate") then CONFLICT
    else if Mentions(message, "unauthorized") then UNAUTHORIZED
    else if Mentions(message, "you do not have permission") then FORBIDDEN
    else INTERNAL_SERVER_ERROR
  }

  /** deleteMatch: "not_found" (with the underscore), "unauthorized", "you do not have permission". */
  function DeleteErrorStatus(message: string): (status: int)
    ensures status in {NOT_FOUND, UNAUTHORIZED, FORBIDDEN, INTERNAL_SERVER_ERROR}
  {
    if Mentions(message, "not_found") then NOT_FOUND
    else if Mentions(message, "unauthorized") then UNAUTHORIZED
    else if Mentions(message, "you do not have permission") then FORBIDDEN
    else INTERNAL_SERVER_ERROR
  }

  /** The classification sees only the lower-cased message, so the case of the message never matters. */
  lemma ErrorStatusIgnoresCase(a: string, b: string)
    requires EqualsIgnoreCase(a, b)
    ensures SaveErrorStatus(a) == SaveErrorStatus(b)
    ensures UpdateErrorStatus(a) == UpdateErrorStatus(b)
    ensures DeleteErrorStatus(a) == DeleteErrorStatus(b)
  {
    EqualsIgnoreCaseIffSameLower(a, b);
  }

  /** getPaginatedMatches: the page with 200, or the error with 500. */
  function ListResponse(result: Result<MatchPage>): Response<MatchPage> {
    if result.IsSuccess() then Response(OK, Payload(result.value))
    else Response(INTERNAL_SERVER_ERROR, ErrorBody(result.error.value))
  }

  /** saveMatch: the record with 201, or the error classified. */
  function SaveResponse(result: Result<MatchDTO>): Response<MatchDTO> {
    if result.IsSuccess() then Response(CREATED, Payload(result.value))
    else Response(SaveErrorStatus(result.error.value), ErrorBody(result.error.value))
  }

  /** updateMatch: the record with 200, or the error classified. */
  function UpdateResponse(result: Result<MatchDTO>): Response<MatchDTO> {
    if result.IsSuccess() then Response(OK, Payload(result.value))
    else Response(UpdateErrorStatus(result.error.value), ErrorBody(result.error.value))
  }

  /** deleteMatch: 204 with no body, or the error classified. */
  function DeleteResponse(result: Result<()>): Response<()> {
    if result.IsSuccess() then Response(NO_CONTENT, NoBody)
    else Response(DeleteErrorStatus(result.error.value), ErrorBody(result.error.value))
  }

  /**
   * A failure is never answered with a success status, and its body is the
   * single entry "error" holding the message as the service wrote it, not
   * its lower-case form.
   */
  lemma ErrorResponsesEchoMessage(message: string)
    ensures var list := ListResponse(Error(Some(message)));
      list.status == INTERNAL_SERVER_ERROR && list.body == ErrorBody(message)
    ensures var save := SaveResponse(Error(Some(message)));
      save.status >= 400 && save.body == ErrorBody(message)
    ensures var update := UpdateResponse(Error(Some(message)));
      update.status >= 400 && update.body == ErrorBody(message)
    ensures var delete := DeleteResponse(Error(Some(message)));
      delete.status >= 400 && delete.body == ErrorBody(message)
  {
  }

  // What the service's fixed messages contain once lower-cased, one fact at a
  // time, part by part; every fact about a literal is a lemma of its own, so
  // that each proof stays small.

  lemma UnauthorizedHeadLoweredColon()
    ensures ToLower("Unauthorized: ") == "unauthorized:" + " "
  {
    ToLowerPointwise("Unauthorized: ", "unauthorized:" + " ");
  }

  lemma UnauthorizedHeadLowered()
    ensures ToLower("Unauthorized: ") == "unauthorized" + ": "
  {
    ToLowerPointwise("Unauthorized: ", "unauthorized" + ": ");
  }

  lemma UnauthorizedSaysUnauthorizedColon()
    ensures Mentions(UnauthorizedMessage, "unauthorized:")
  {
    UnauthorizedHeadLoweredColon();
    LowerHeadContained("Unauthorized: ", "no user found ", "in context", "unauthorized:", " ");
  }

  lemma UnauthorizedSaysUnauthorized()
    ensures Mentions(UnauthorizedMessage, "unauthorized")
  {
    UnauthorizedHeadLowered();
    LowerHeadContained("Unauthorized: ", "no user found ", "in context", "unauthorized", ": ");
  }

  /** The no-user message avoids character c when each of its parts does. */
  lemma UnauthorizedAvoids(c: char)
    requires Avoids("Unauthorized: ", c) && Avoids("no user found ", c) && Avoids("in context", c)
    ensures Avoids(UnauthorizedMessage, c)
  {
    AvoidsConcat("Unauthorized: ", "no user found ", c);
    AvoidsConcat("Unauthorized: " + "no user found ", "in context", c);
  }

  /** No 'y' in it. */
  lemma UnauthorizedLacksAlreadyExists()
    ensures !Mentions(UnauthorizedMessage, "already exists")
  {
    UnauthorizedAvoids('y');
    AbsentCharNotContained(UnauthorizedMessage, "already exists", 6);
  }

  /** No 'o' in it is followed by 't'. */
  lemma UnauthorizedLacksNotFound()
    ensures !Mentions(UnauthorizedMessage, "not found")
  {
    AvoidsPairConcat("Unauthorized: ", "no user found ", 'o', 't');
    AvoidsPairConcat("Unauthorized: " + "no user found ", "in context", 'o', 't');
    AbsentPairNotContained(UnauthorizedMessage, "not found", 1);
  }

  /** No underscore in it. */
  lemma UnauthorizedLacksNotUnderscoreFound()
    ensures !Mentions(UnauthorizedMessage, "not_found")
  {
    UnauthorizedAvoids('_');
    AbsentCharNotContained(UnauthorizedMessage, "not_found", 3);
  }

  /** No 'p' in it. */
  lemma UnauthorizedLacksDuplicate()
    ensures !Mentions(UnauthorizedMessage, "duplicate")
  {
    UnauthorizedAvoids('p');
    AbsentCharNotContained(UnauthorizedMessage, "duplicate", 2);
  }

  lemma NoPermissionHeadLowered()
    ensures ToLower("You do not have ") == "you do not have "
  {
    ToLowerPointwise("You do not have ", "you do not have ");
  }

  lemma PermissionLowered()
    ensures ToLower("permission") == "permission"
  {
    ToLowerPointwise("permission", "permission");
  }

  lemma PermissionNeedleParts()
    ensures "you do not have permission" == "you do not have " + "permission"
  {
  }

  lemma NoPermissionSaysPermission()
    ensures Mentions(NoPermissionMessage, "you do not have permission")
  {
    NoPermissionHeadLowered();
    PermissionLowered();
    PermissionNeedleParts();
    LowerHeadsContained("You do not have ", "permission", " to update this match", "you do not have ", "permission");
  }

  /** The no-permission message avoids character c when each of its parts does. */
  lemma NoPermissionAvoids(c: char)
    requires Avoids("You do not have ", c) && Avoids("permission", c) && Avoids(" to update this match", c)
    ensures Avoids(NoPermissionMessage, c)
  {
    AvoidsConcat("You do not have ", "permission", c);
    AvoidsConcat("You do not have " + "permission", " to update this match", c);
  }

  /** No 'f' in it. */
  lemma NoPermissionLacksNotFound()
    ensures !Mentions(NoPermissionMessage, "not found")
  {
    NoPermissionAvoids('f');
    AbsentCharNotContained(NoPermissionMessage, "not found", 4);
  }

  /** No underscore in it. */
  lemma NoPermissionLacksNotUnderscoreFound()
    ensures !Mentions(NoPermissionMessage, "not_found")
  {
    NoPermissionAvoids('_');
    AbsentCharNotContained(NoPermissionMessage, "not_found", 3);
  }

  /** No 'l' in it. */
  lemma NoPermissionLacksDuplicate()
    ensures !Mentions(NoPermissionMessage, "duplicate")
  {
    NoPermissionAvoids('l');
    AbsentCharNotContained(NoPermissionMessage, "duplicate", 3);
  }

  /** No 'z' in it. */
  lemma NoPermissionLacksUnauthorized()
    ensures !Mentions(NoPermissionMessage, "unauthorized")
  {
    NoPermissionAvoids('z');
    AbsentCharNotContained(NoPermissionMessage, "unauthorized", 9);
  }

  /** A save without a user is answered 401, thanks to the colon the service writes. */
  lemma SaveUnauthorizedIs401()
    ensures SaveResponse(Error(Some(UnauthorizedMessage))) == Response(UNAUTHORIZED, ErrorBody(UnauthorizedMessage))
  {
    UnauthorizedLacksAlreadyExists();
    UnauthorizedSaysUnauthorizedColon();
  }

  /** A save of a fixture already stored is answered 409, whatever the team names. */
  lemma SaveDuplicateIs409(f: Fixture)
    requires IsCalendarDate(f.matchDate) && IsClockTime(f.matchTime)
    ensures var message := AlreadyExistsMessage(f);
      SaveResponse(Error(Some(message))) == Response(CONFLICT, ErrorBody(message))
  {
    DuplicateSaysAlreadyExists(f);
  }

  /** The duplicate message ends in "already exists". */
  lemma DuplicateSaysAlreadyExists(f: Fixture)
    requires IsCalendarDate(f.matchDate) && IsClockTime(f.matchTime)
    ensures Mentions(AlreadyExistsMessage(f), "already exists")
  {
    var message := AlreadyExistsMessage(f);
    var head := SportName(f.sport) + " match between " + f.teamA + " and " + f.teamB + " at "
                + FormatDate(f.matchDate) + " " + FormatTime(f.matchTime) + " ";
    assert message == head + "already exists";
    LowerSuffixContained(head, "already exists");
  }

  /** An update of a missing match is answered 404. */
  lemma UpdateNotFoundIs404(id: int)
    ensures var message := UpdateNotFoundMessage(id);
      UpdateResponse(Error(Some(message))) == Response(NOT_FOUND, ErrorBody(message))
  {
    UpdateNotFoundSaysNotFound(id);
  }

  /** The update message ends in "not found". */
  lemma UpdateNotFoundSaysNotFound(id: int)
    ensures Mentions(UpdateNotFoundMessage(id), "not found")
  {
    EndsInNotFound("Match with ID " + DecimalString(id));
  }

  /** Whatever precedes it, " not found" at the end is found. */
  lemma EndsInNotFound(head: string)
    ensures Mentions(head + " not found", "not found")
  {
    assert head + " not found" == (head + " ") + "not found";
    LowerSuffixContained(head + " ", "not found");
  }

  /** An update without a user is answered 401. */
  lemma UpdateUnauthorizedIs401()
    ensures UpdateResponse(Error(Some(UnauthorizedMessage))) == Response(UNAUTHORIZED, ErrorBody(UnauthorizedMessage))
  {
    UnauthorizedLacksNotFound();
    UnauthorizedLacksDuplicate();
    UnauthorizedSaysUnauthorized();
  }

  /** An update by someone other than the owner is answered 403. */
  lemma UpdateNoPermissionIs403()
    ensures UpdateResponse(Error(Some(NoPermissionMessage))) == Response(FORBIDDEN, ErrorBody(NoPermissionMessage))
  {
    NoPermissionLacksNotFound();
    NoPermissionLacksDuplicate();
    NoPermissionLacksUnauthorized();
    NoPermissionSaysPermission();
  }

  /** The delete message starts with "NOT_FOUND", whatever id it names. */
  lemma DeleteNotFoundSaysNotFound(id: int)
    ensures Mentions(DeleteNotFoundMessage(id), "not_found")
  {
    StartsWithNotFound(DecimalString(id));
  }

  /** Whatever id text it carries, the delete message starts with "NOT_FOUND". */
  lemma StartsWithNotFound(digits: string)
    ensures Mentions("NOT_FOUND: Match with id " + digits + " does not exist.", "not_found")
  {
    LowerStartContained("NOT_FOUND: Match with id " + digits + " does not exist.", "not_found");
  }

  /** A delete of a missing match is answered 404, thanks to the "NOT_FOUND" prefix. */
  lemma DeleteNotFoundIs404(id: int)
    ensures var message := DeleteNotFoundMessage(id);
      DeleteResponse(Error(Some(message))) == Response(NOT_FOUND, ErrorBody(message))
  {
    DeleteNotFoundSaysNotFound(id);
  }

  /** A delete without a user is answered 401. */
  lemma DeleteUnauthorizedIs401()
    ensures DeleteResponse(Error(Some(UnauthorizedMessage))) == Response(UNAUTHORIZED, ErrorBody(UnauthorizedMessage))
  {
    UnauthorizedLacksNotUnderscoreFound();
    UnauthorizedSaysUnauthorized();
  }

  /** A delete by someone other than the owner is answered 403. */
  lemma DeleteNoPermissionIs403()
    ensures DeleteResponse(Error(Some(NoPermissionMessage))) == Response(FORBIDDEN, ErrorBody(NoPermissionMessage))
  {
    NoPermissionLacksNotUnderscoreFound();
    NoPermissionLacksUnauthorized();
    NoPermissionSaysPermission();
  }

  /**
   * A repository failure during delete is answered 500, provided the
   * failure's own message has no underscore and no letter y or z, any of
   * which could make it pass for "not_found", "unauthorized" or "you do not
   * have permission".
   */
  lemma DeleteFailureIs500(cause: string)
    requires Avoids(cause, '_') && Avoids(cause, 'y') && Avoids(cause, 'z')
    ensures var message := DeleteFailedMessage(cause);
      DeleteResponse(Error(Some(message))) == Response(INTERNAL_SERVER_ERROR, ErrorBody(message))
  {
    DeleteFailureLacksNotFound(cause);
    DeleteFailureLacksUnauthorized(cause);
    DeleteFailureLacksPermission(cause);
  }

  /** The delete-failure message avoids character c when its head's parts and the cause do. */
  lemma DeleteFailedAvoids(cause: string, c: char)
    requires Avoids("INTERNAL_ERROR: ", c) && Avoids("Failed to delete", c) && Avoids(" match: ", c)
    requires Avoids(cause, c)
    ensures Avoids(DeleteFailedMessage(cause), c)
  {
    AvoidsConcat("INTERNAL_ERROR: ", "Failed to delete", c);
    AvoidsConcat("INTERNAL_ERROR: " + "Failed to delete", " match: ", c);
    AvoidsConcat("INTERNAL_ERROR: " + "Failed to delete" + " match: ", cause, c);
  }

  /** No 'z' in the failure message. */
  lemma DeleteFailureLacksUnauthorized(cause: string)
    requires Avoids(cause, 'z')
    ensures !Mentions(DeleteFailedMessage(cause), "unauthorized")
  {
    DeleteFailedAvoids(cause, 'z');
    AbsentCharNotContained(DeleteFailedMessage(cause), "unauthorized", 9);
  }

  /** No 'y' in the failure message. */
  lemma DeleteFailureLacksPermission(cause: string)
    requires Avoids(cause, 'y')
    ensures !Mentions(DeleteFailedMessage(cause), "you do not have permission")
  {
    DeleteFailedAvoids(cause, 'y');
    AbsentCharNotContained(DeleteFailedMessage(cause), "you do not have permission", 0);
  }

  /** No 't' of the failure message is followed by an underscore. */
  lemma DeleteFailureLacksNotFound(cause: string)
    requires Avoids(cause, '_')
    ensures !Mentions(DeleteFailedMessage(cause), "not_found")
  {
    assert AvoidsPair(cause, 't', '_') by {
      forall j | 0 <= j < |cause| - 1
        ensures LowerChar(cause[j]) == 't' ==> LowerChar(cause[j + 1]) != '_'
      {
        assert LowerChar(cause[j + 1]) != '_';
      }
    }
    AvoidsPairConcat("INTERNAL_ERROR: ", "Failed to delete", 't', '_');
    AvoidsPairConcat("INTERNAL_ERROR: " + "Failed to delete", " match: ", 't', '_');
    AvoidsPairConcat("INTERNAL_ERROR: " + "Failed to delete" + " match: ", cause, 't', '_');
    AbsentPairNotContained(DeleteFailedMessage(cause), "not_found", 2);
  }

  /** A failed listing is answered 500 with the service's message. */
  lemma ListFailureIs500(cause: string)
    ensures var message := ListFailedMessage(cause);
      ListResponse(Error(Some(message))) == Response(INTERNAL_SERVER_ERROR, ErrorBody(message))
  {
  }

  /**
   * The "unauthorized:" test of saveMatch wants the colon while updateMatch
   * and deleteMatch do not: a bare "Unauthorized" is 401 on update and
   * delete but 500 on save.
   */
  lemma ColonOnlyMattersToSave()
    ensures SaveErrorStatus("Unauthorized") == INTERNAL_SERVER_ERROR
    ensures UpdateErrorStatus("Unauthorized") == UNAUTHORIZED
    ensures DeleteErrorStatus("Unauthorized") == UNAUTHORIZED
  {
    BareSaysUnauthorized();
    BareLacksUnauthorizedColon();
    BareLacksAlreadyExists();
    BareLacksNotFound();
    BareLacksNotUnderscoreFound();
    BareLacksDuplicate();
  }

  // What a bare "Unauthorized" contains once lower-cased, one fact at a time.

  lemma BareSaysUnauthorized()
    ensures Mentions("Unauthorized", "unauthorized")
  {
    LowerStartContained("Unauthorized", "unauthorized");
  }

  /** Too short for "unauthorized:". */
  lemma BareLacksUnauthorizedColon()
    ensures !Mentions("Unauthorized", "unauthorized:")
  {
  }

  /** No 'y' in it. */
  lemma BareLacksAlreadyExists()
    ensures !Mentions("Unauthorized", "already exists")
  {
    AbsentCharNotContained("Unauthorized", "already exists", 6);
  }

  /** No 'f' in it. */
  lemma BareLacksNotFound()
    ensures !Mentions("Unauthorized", "not found")
  {
    AbsentCharNotContained("Unauthorized", "not found", 4);
  }

  /** No '_' in it. */
  lemma BareLacksNotUnderscoreFound()
    ensures !Mentions("Unauthorized", "not_found")
  {
    AbsentCharNotContained("Unauthorized", "not_found", 3);
  }

  /** No 'p' in it. */
  lemma BareLacksDuplicate()
    ensures !Mentions("Unauthorized", "duplicate")
  {
    AbsentCharNotContained("Unauthorized", "duplicate", 2);
  }

  /**
   * The controller itself: each endpoint calls the service it was built with
   * and answers with the response above. Save and update are only reached
   * with a request that passed `@Valid` and whose date and time parse.
   */
  class MatchController {
    const service: MatchService

    constructor(service: MatchService)
      ensures this.service == service
    {
      this.service := service;
    }

    /** GET /bet/matches: 200 with the page, or 500 with the reason. */
    method GetPaginatedMatches(page: int, size: int, sortBy: string, direction: Option<string>,
                               owner: Option<string>, sport: Option<string>, matchDate: Option<Date>,
                               fault: Option<string>)
      returns (resp: Response<MatchPage>)
      ensures page >= 0 && size >= 1 && fault.None? ==>
        && resp.status == OK && resp.body.Payload? && resp.body.value.Some?
        && IsPageOf(resp.body.value.value, service.store, page, size, GetSort(sortBy, direction), owner, sport, matchDate)
      ensures page < 0 ==> resp == Response(INTERNAL_SERVER_ERROR, ErrorBody(ListFailedMessage(PageIndexMessage)))
      ensures page >= 0 && size < 1 ==> resp == Response(INTERNAL_SERVER_ERROR, ErrorBody(ListFailedMessage(PageSizeMessage)))
      ensures page >= 0 && size >= 1 && fault.Some? ==>
        resp == Response(INTERNAL_SERVER_ERROR, ErrorBody(ListFailedMessage(fault.value)))
    {
      var result := service.GetPaginatedMatches(page, size, sortBy, direction, owner, sport, matchDate, fault);
      resp := ListResponse(result);
    }

    /** POST /bet/saveMatch: 401 without a user, 409 for a stored fixture, else 201 with the new record. */
    method SaveMatch(request: SaveMatchRequest, user: Option<string>) returns (resp: Response<MatchDTO>)
      requires service.Valid() && IsAccepted(request)
      modifies service
      ensures service.Valid()
      ensures user.None? ==>
        resp == Response(UNAUTHORIZED, ErrorBody(UnauthorizedMessage)) && service.store == old(service.store)
      ensures user.Some? && FixtureTaken(old(service.store), RequestFixture(request)) ==>
        resp.status == CONFLICT && service.store == old(service.store)
      ensures user.Some? && !FixtureTaken(old(service.store), RequestFixture(request)) ==>
        && service.store == old(service.store)[old(service.nextId) := Mapped(request, user.value, old(service.nextId))]
        && resp == Response(CREATED, Payload(Some(ToDTO(service.store[old(service.nextId)]))))
    {
      AcceptedIsStorable(request);
      var result := service.SaveMatch(request, user);
      if user.None? {
        SaveUnauthorizedIs401();
      } else if !result.IsSuccess() {
        SaveDuplicateIs409(RequestFixture(request));
      }
      resp := SaveResponse(result);
    }

    /** PUT /bet/updateMatch/{matchId}: 404, 401 and 403 in that order, else 200 with the new record. */
    method UpdateMatch(matchId: int, request: SaveMatchRequest, user: Option<string>) returns (resp: Response<MatchDTO>)
      requires service.Valid() && IsAccepted(request)
      modifies service
      ensures service.Valid()
      ensures matchId !in old(service.store) ==>
        resp == Response(NOT_FOUND, ErrorBody(UpdateNotFoundMessage(matchId))) && service.store == old(service.store)
      ensures matchId in old(service.store) && user.None? ==>
        resp == Response(UNAUTHORIZED, ErrorBody(UnauthorizedMessage)) && service.store == old(service.store)
      ensures matchId in old(service.store) && user.Some? && !IsOwner(user.value, old(service.store)[matchId]) ==>
        resp == Response(FORBIDDEN, ErrorBody(NoPermissionMessage)) && service.store == old(service.store)
      ensures matchId in old(service.store) && user.Some? && IsOwner(user.value, old(service.store)[matchId]) ==>
        && service.store == old(service.store)[matchId := Mapped(request, user.value, matchId)]
        && resp == Response(OK, Payload(Some(ToDTO(service.store[matchId]))))
      ensures resp.status != CONFLICT
    {
      AcceptedIsStorable(request);
      var result := service.UpdateMatch(matchId, request, user);
      if matchId !in old(service.store) {
        UpdateNotFoundIs404(matchId);
      } else if user.None? {
        UpdateUnauthorizedIs401();
      } else if !result.IsSuccess() {
        UpdateNoPermissionIs403();
      }
      resp := UpdateResponse(result);
    }

    /** DELETE /bet/matches/{matchId}: 404, 401 and 403 in that order, else 204 with no body. */
    method DeleteMatch(matchId: int, user: Option<string>, lookupFault: Option<string>, deleteFault: Option<string>)
      returns (resp: Response<()>)
      requires service.Valid()
      modifies service
      ensures service.Valid()
      ensures lookupFault.Some? ==>
        resp.body == ErrorBody(DeleteFailedMessage(lookupFault.value)) && service.store == old(service.store)
      ensures lookupFault.None? && matchId !in old(service.store) ==>
        resp == Response(NOT_FOUND, ErrorBody(DeleteNotFoundMessage(matchId))) && service.store == old(service.store)
      ensures lookupFault.None? && matchId in old(service.store) && user.None? ==>
        resp == Response(UNAUTHORIZED, ErrorBody(UnauthorizedMessage)) && service.store == old(service.store)
      ensures lookupFault.None? && matchId in old(service.store) && user.Some? && !IsOwner(user.value, old(service.store)[matchId]) ==>
        resp == Response(FORBIDDEN, ErrorBody(NoPermissionMessage)) && service.store == old(service.store)
      ensures lookupFault.None? && matchId in old(service.store) && user.Some? && IsOwner(user.value, old(service.store)[matchId]) ==>
        if deleteFault.None? then resp == Response(NO_CONTENT, NoBody) && service.store == old(service.store) - {matchId}
        else resp.body == ErrorBody(DeleteFailedMessage(deleteFault.value)) && service.store == old(service.store)
    {
      var result := service.DeleteMatch(matchId, user, lookupFault, deleteFault);
      if lookupFault.None? {
        if matchId !in old(service.store) {
          DeleteNotFoundIs404(matchId);
        } else if user.None? {
          DeleteUnauthorizedIs401();
        } else if !IsOwner(user.value, old(service.store)[matchId]) {
          DeleteNoPermissionIs403();
        }
      }
      resp := DeleteResponse(result);
    }
  }
}
