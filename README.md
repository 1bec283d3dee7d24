# my-bet-app match back end, modelled in Dafny

This project models the decision logic of the my-bet-app Spring back end. Signed-in users use it to publish betting
"matches": two teams, a sport, a date and time, and three odds (WIN, DRAW, LOSE).

- **Request validation.** A `SaveMatchRequest` must pass its field constraints and two class-level validators:
  - the teams differ ignoring case;
  - the odds are exactly one each of WIN, DRAW and LOSE.
- **GlobalExceptionHandler.** It turns validation failures and `IllegalArgumentException` into 400 responses.
- **MatchServiceImpl.** It creates, updates, deletes and lists matches. Its repository is a `map<int, Match>` and a
  fresh-id counter. It answers with a `Result`: a value, or an error message.
- **MatchController.** It calls the service and classifies the service's error messages into HTTP statuses. The tests
  are ordered, case-insensitive substring tests.
- **Supporting pieces:**
  - the enum lookups `Sport.fromString` and `Specifier.fromString`;
  - the `Result` carrier;
  - the few `java.lang.String` and `java.time` operations the code relies on.

Files and modules:

| file | module | contents |
|---|---|---|
| `util.dfy` | `Util` | `Option` (a nullable reference) and `Result` |
| `strings.dfy` | `Strings` | ASCII `toLowerCase`/`toUpperCase`, `trim`, `equalsIgnoreCase`, `contains` |
| `values.dfy` | `Values` | the odd (an opaque `Double`), `LocalDate`/`LocalTime` with their `yyyy-MM-dd`/`HH:mm` texts, `Long.toString` |
| `enums.dfy` | `Enums` | `Sport`, `Specifier`, `fromString` |
| `requests.dfy`, `entities.dfy` | `Requests`, `Entities` | the request, the stored match and odds, the transfer record |
| `validators.dfy` | `Validators` | `DifferentTeamsDtoValidator`, `MatchOddsConstraintValidator` |
| `request_validation.dfy` | `RequestValidation` | the whole constraint set of `SaveMatchRequest` and the field errors it reports |
| `http.dfy` | `Http` | status codes and response bodies |
| `exception_handler.dfy` | `ExceptionHandler` | `GlobalExceptionHandler` |
| `service.dfy` | `MatchServices` | `MatchServiceImpl`: class `MatchService` and the pure helpers |
| `controller.dfy` | `Controllers` | `MatchController`: status classification, and class `MatchController` over a `MatchService` |

The signed-in user is an explicit `Option<string>` parameter; `None` means the security context holds no user. A
repository failure is an `Option<string>` parameter carrying the exception's message. Both are inputs because they come
from outside the code.

`MatchService` keeps an invariant, `Valid()`, on its store:
- every key is below the id counter;
- every match carries its own key as its id;
- every stored match is well formed: trimmed, upper-case teams and description, a real calendar date and clock time,
  and three odds with three different specifiers.

Saving keeps a second invariant: no two stored matches share a fixture. A fixture is the
(teamA, teamB, date, time, sport) tuple that `existsBy…` looks up.

Where the code and its design description disagree, the model follows the code:
- **Update does not check for duplicates.** `updateMatch` never checks the fixture, so an owner can turn a match into
  a copy of another one (`MatchServices.UpdateCanDuplicateFixture`). The controller's "duplicate" → 409 branch is
  therefore never taken (`Controllers.MatchController.UpdateMatch` ensures the status is never 409).
- **The team validator does not trim.** `DifferentTeamsDtoValidator` compares the teams as sent, without trimming.
  The service trims before storing. So " AEK" vs "AEK" passes validation and then names the same team. Swapping the
  teams therefore gives the same fixture exactly when the trimmed teams are equal ignoring case
  (`MatchServices.SwappedTeamsSameFixtureIff`); it is not always a different fixture.
- **The owner filter is lower-cased.** The list's owner filter is lower-cased before an exact comparison with the
  stored owner. An owner spelled with a capital letter is never found by it
  (`MatchServices.OwnerFilterMissesUpperCaseOwners`).
- **The odds rule is the validator's code.** The odds constraint follows the validator's code: exactly three, one
  each. It does not follow the stale default message of the `@ValidMatchOdds` annotation.

## Model

| member | source | states |
|---|---|---|
| `Util.Ok` | src/main/java/com/mybetapp/util/Result.java:15-17 | `ok(v)` is a success whose value is `v` |
| `Util.Error` | src/main/java/com/mybetapp/util/Result.java:19-21 | `error(msg)` has a null value and `msg` as error; it is a success exactly when `msg` is null (`isSuccess` is `error == null`) |
| `Util.OkVoid` | src/main/java/com/mybetapp/util/Result.java:23-25 | `okVoid()` is a success with a null value |
| `Values.DecimalString` | src/main/java/com/mybetapp/services/MatchServiceImpl.java:106 | the id printed into a message reads back as the id: digits for a non-negative id, a minus sign and the digits of its absolute value otherwise |
| `Values.FormatParseDate` | src/main/java/com/mybetapp/services/MatchServiceImpl.java:210-212 | printing a date parsed with `yyyy-MM-dd` gives back the text it was parsed from |
| `Values.ParseFormatDate` | src/main/java/com/mybetapp/services/MatchServiceImpl.java:210-212 | every calendar date prints to a text that parses back to it |
| `Values.FormatParseTime` | src/main/java/com/mybetapp/services/MatchServiceImpl.java:214-216 | printing a time parsed with `HH:mm` gives back the text it was parsed from, except "24:00", which the smart resolver reads as midnight and which prints as "00:00" |
| `Values.ParseFormatTime` | src/main/java/com/mybetapp/services/MatchServiceImpl.java:214-216 | every time of day to the minute prints to a text that parses back to it |
| `Values.ParseDateInjective` | src/main/java/com/mybetapp/services/MatchServiceImpl.java:72 | two accepted date texts give the same date exactly when they are the same text |
| `Values.ParseTimeInjective` | src/main/java/com/mybetapp/services/MatchServiceImpl.java:73 | two accepted time texts give the same time exactly when they are the same text or are "24:00" and "00:00" |
| `Values.EndOfDayExamples` | src/main/java/com/mybetapp/services/MatchServiceImpl.java:214-216 | "24:00" is accepted and parses to midnight; "24:01" and "25:00" are rejected |
| `Enums.FirstNamed` | src/main/java/com/mybetapp/enums/Specifier.java:12-16 | the lookup loop returns the first constant, in declaration order, whose name equals the input ignoring case; it returns none when no name does or the input is null |
| `Enums.SportFromString` | src/main/java/com/mybetapp/enums/Sport.java:11-20 | a found sport's name equals the input ignoring case; otherwise no sport's name does, and the message is "Invalid sport value: <v>. Allowed values are: FOOTBALL or BASKETBALL." with null printed as "null" |
| `Enums.SpecifierFromString` | src/main/java/com/mybetapp/enums/Specifier.java:11-20 | the same for specifiers, with "... Allowed values are: WIN or DRAW or LOSE." |
| `Enums.SportFromStringIgnoresCase` | src/main/java/com/mybetapp/enums/Sport.java:12-16 | any spelling of a sport's name, in any case, finds that sport |
| `Enums.SpecifierFromStringIgnoresCase` | src/main/java/com/mybetapp/enums/Specifier.java:12-16 | any spelling of a specifier's name, in any case, finds that specifier |
| `Enums.SportRoundTrip` | src/main/java/com/mybetapp/enums/Sport.java:12-14 | `fromString(x.name()) == x` for every sport |
| `Enums.SpecifierRoundTrip` | src/main/java/com/mybetapp/enums/Specifier.java:12-14 | `fromString(x.name()) == x` for every specifier |
| `Enums.LookupExamples` | src/main/java/com/mybetapp/enums/Specifier.java:13 | "win", "Win" and "WIN" give WIN; "football" gives FOOTBALL |
| `Validators.DifferentTeams` | src/main/java/com/mybetapp/validations/DifferentTeamsDtoValidator.java:10-27 | a null request or a null team passes; otherwise it passes exactly when the teams differ ignoring case; the only violation is "Team A and Team B must be different" on `teamB`; it never throws |
| `Validators.DifferentTeamsSymmetric` | src/main/java/com/mybetapp/validations/DifferentTeamsDtoValidator.java:18 | swapping the teams does not change the verdict |
| `Validators.DifferentTeamsIgnoresCase` | src/main/java/com/mybetapp/validations/DifferentTeamsDtoValidator.java:18 | a team and its upper-case spelling clash |
| `Validators.DifferentTeamsDoesNotTrim` | src/main/java/com/mybetapp/validations/DifferentTeamsDtoValidator.java:18 | a team with a leading blank and the same team without it pass as different |
| `Validators.FirstMiscounted` | src/main/java/com/mybetapp/validations/MatchOddsConstraintValidator.java:37-45 | the loop over the required specifiers stops at the first one not counted exactly once, and finds none only when all are counted once |
| `Validators.MatchOddsConstraint` | src/main/java/com/mybetapp/validations/MatchOddsConstraintValidator.java:15-50 | null request or list passes; a size other than 3 fails with "Odds list must contain exactly 3 items" alone; a missing specifier in a 3-list throws; every violation is on node "error" |
| `Validators.OddsVerdictByCounts` | src/main/java/com/mybetapp/validations/MatchOddsConstraintValidator.java:35-43 | for three specified odds the verdict is "Must have exactly one 'X' specifier" for the first of WIN, DRAW, LOSE not counted once, else a pass |
| `Validators.OddsValidIffPermutation` | src/main/java/com/mybetapp/validations/MatchOddsConstraintValidator.java:31-49 | three specified odds pass exactly when their specifiers are a permutation of WIN, DRAW, LOSE |
| `Validators.OddsVerdictIgnoresOddValues` | src/main/java/com/mybetapp/validations/MatchOddsConstraintValidator.java:31 | lists agreeing on every specifier get the same verdict, whatever the odd values |
| `RequestValidation.OddErrors` | src/main/java/com/mybetapp/models/MatchOdds.java:16-20 | an odd reports nothing exactly when it has both a specifier and an odd |
| `RequestValidation.OddsErrors` | src/main/java/com/mybetapp/models/SaveMatchRequest.java:46 | the nested odds report nothing exactly when every entry is complete |
| `RequestValidation.Validate` | src/main/java/com/mybetapp/models/SaveMatchRequest.java:21-46 | validation ends in an exception exactly when the odds validator throws |
| `RequestValidation.FieldErrorsEmptyIff` | src/main/java/com/mybetapp/models/SaveMatchRequest.java:27-46 | the field rules report nothing exactly when date, time and teams are non-blank after trimming, the sport is present, the odds are present and non-empty, and every odd is complete |
| `RequestValidation.ValidIffNoViolations` | src/main/java/com/mybetapp/models/SaveMatchRequest.java:21-22 | a request is valid exactly when validating it reports no error at all |
| `RequestValidation.ValidRequestShape` | src/main/java/com/mybetapp/models/SaveMatchRequest.java:21-46 | a valid request has both teams, different ignoring case, a sport, and three specified odds that are a permutation of WIN, DRAW, LOSE |
| `RequestValidation.DescriptionUnconstrained` | src/main/java/com/mybetapp/models/SaveMatchRequest.java:25 | the description takes no part in validation |
| `Http.ErrorBody` | src/main/java/com/mybetapp/controllers/MatchController.java:60 | an error body is the single entry "error" holding the message |
| `ExceptionHandler.CollectFieldErrors` | src/main/java/com/mybetapp/validations/GlobalExceptionHandler.java:17-23 | the map has one key per reported field and keeps, for each, the first message reported on it |
| `ExceptionHandler.CollectedMessagesAreFirst` | src/main/java/com/mybetapp/validations/GlobalExceptionHandler.java:18 | every collected message is the first one reported on its field |
| `ExceptionHandler.HandleValidationExceptions` | src/main/java/com/mybetapp/validations/GlobalExceptionHandler.java:14-37 | a validation failure is always answered 400 with a string map |
| `ExceptionHandler.SecondTeamCheckRedundant` | src/main/java/com/mybetapp/validations/GlobalExceptionHandler.java:31-34 | the repeated team test never changes the response |
| `ExceptionHandler.TeamsMessageMentionsTeams` | src/main/java/com/mybetapp/validations/GlobalExceptionHandler.java:27 | the validator's own message passes the handler's team test |
| `ExceptionHandler.TeamViolationCollapses` | src/main/java/com/mybetapp/validations/GlobalExceptionHandler.java:26-29 | once the team message is kept in the map, the body is the single "error" → "Team A and Team B must be different" |
| `ExceptionHandler.NoTeamMessageKeepsMap` | src/main/java/com/mybetapp/validations/GlobalExceptionHandler.java:36 | with no message mentioning the teams, the body is the whole first-wins map |
| `ExceptionHandler.TeamClashResponse` | src/main/java/com/mybetapp/validations/DifferentTeamsDtoValidator.java:18-25 | a request breaking only the team rule reports exactly the `teamB` violation, and the handler answers it with 400 and the team message |
| `ExceptionHandler.HandleIllegalArgument` | src/main/java/com/mybetapp/validations/GlobalExceptionHandler.java:39-51 | always 400; a non-null message whose lower-cased form contains "invalid sport" or "invalid specifier" is echoed as the "error" entry, and every other message, a null one included, gives "Invalid request" |
| `ExceptionHandler.SportRejectionEchoed` | src/main/java/com/mybetapp/validations/GlobalExceptionHandler.java:42-44 | `Sport.fromString`'s rejection reaches the client word for word with 400 |
| `ExceptionHandler.SpecifierRejectionEchoed` | src/main/java/com/mybetapp/validations/GlobalExceptionHandler.java:46-48 | `Specifier.fromString`'s rejection reaches the client word for word with 400 |
| `MatchServices.SanitizeUserInput` | src/main/java/com/mybetapp/services/MatchServiceImpl.java:226-236 | null stays null; otherwise the result is trimmed, equals the trimmed input ignoring case, and is all lower or all upper case as asked |
| `MatchServices.SanitizeIdempotent` | src/main/java/com/mybetapp/services/MatchServiceImpl.java:226-236 | sanitizing twice the same way is sanitizing once |
| `MatchServices.SanitizeEqualIff` | src/main/java/com/mybetapp/services/MatchServiceImpl.java:226-236 | two inputs sanitize alike exactly when their trimmed forms are equal ignoring case |
| `MatchServices.Distinct3IffPermutation` | src/main/java/com/mybetapp/validations/MatchOddsConstraintValidator.java:47-49 | three specifiers are pairwise different exactly when they are a permutation of WIN, DRAW, LOSE, so no extra specifier can slip in |
| `MatchServices.AcceptedIsStorable` | src/main/java/com/mybetapp/controllers/MatchController.java:49 | a request that passed `@Valid` and whose date and time parse meets what save and update need |
| `MatchServices.EntityOdds` | src/main/java/com/mybetapp/services/MatchServiceImpl.java:201-207 | the stored odds are the submitted ones, one for one, in order |
| `MatchServices.TransferOdds` | src/main/java/com/mybetapp/services/MatchServiceImpl.java:177-182 | the transfer odds are the stored ones, one for one, in order, and complete |
| `MatchServices.TransferOfEntityOdds` | src/main/java/com/mybetapp/services/MatchServiceImpl.java:198-207 | storing submitted odds and reading them back gives the submitted odds |
| `MatchServices.EntityOfTransferOdds` | src/main/java/com/mybetapp/services/MatchServiceImpl.java:177-184 | reading stored odds out and storing them again gives the stored odds |
| `MatchServices.ToDTO` | src/main/java/com/mybetapp/services/MatchServiceImpl.java:165-187 | the transfer record's odds are the match's odds in order |
| `MatchServices.ToDTOInjective` | src/main/java/com/mybetapp/services/MatchServiceImpl.java:165-187 | the transfer record copies every field: two matches with the same record are the same match |
| `MatchServices.MappedFields` | src/main/java/com/mybetapp/services/MatchServiceImpl.java:189-196 | after mapping: the given id, the acting user as owner, description and teams sanitized to upper case (null stays null), date and time printing back to the request's texts ("24:00" prints back as "00:00"), the request's sport, and the request's odds exactly |
| `MatchServices.MappedIsWellFormed` | src/main/java/com/mybetapp/services/MatchServiceImpl.java:189-207 | a mapped match is well formed |
| `MatchServices.WellFormedOddsArePermutation` | src/main/java/com/mybetapp/services/MatchServiceImpl.java:199-207 | a well-formed match's odds are a permutation of WIN, DRAW, LOSE |
| `MatchServices.RequestFixture` | src/main/java/com/mybetapp/services/MatchServiceImpl.java:72-84 | the fixture save looks up is the fixture of whatever match the request is mapped to |
| `MatchServices.SameFixtureIff` | src/main/java/com/mybetapp/services/MatchServiceImpl.java:83-84 | two requests name the same fixture exactly when their trimmed teams agree ignoring case, in order, their date and sport texts agree, and their time texts name the same time ("24:00" and "00:00" do) |
| `MatchServices.SwappedTeamsSameFixtureIff` | src/main/java/com/mybetapp/services/MatchServiceImpl.java:74-75 | swapping the teams names the same fixture exactly when the trimmed teams are equal ignoring case |
| `MatchServices.GetSort` | src/main/java/com/mybetapp/services/MatchServiceImpl.java:256-284 | "owner", "sport" and "matchDate" give the key then "matchDate" (or "matchTime" after "matchDate") in one direction, descending exactly when the direction is "desc" ignoring case; any other key gives matchDate descending |
| `MatchServices.GetSortDirectionExamples` | src/main/java/com/mybetapp/services/MatchServiceImpl.java:257 | "DESC" and "Desc" are descending, "descending" and a null direction are ascending, and an unknown key ignores the direction |
| `MatchServices.BuildMatchSpecification` | src/main/java/com/mybetapp/services/MatchServiceImpl.java:286-302 | one equality per non-null, non-empty owner or sport and per present date; a match passes exactly when it meets every applied filter |
| `MatchServices.OwnerFilterMissesUpperCaseOwners` | src/main/java/com/mybetapp/services/MatchServiceImpl.java:55 | an applied owner filter never selects a match whose owner has an upper-case letter |
| `MatchServices.InsertKeepsInvariant` | src/main/java/com/mybetapp/services/MatchServiceImpl.java:92-94 | storing a well-formed match under the fresh id keeps the store invariant, with the counter moved on |
| `MatchServices.ReplaceKeepsInvariant` | src/main/java/com/mybetapp/services/MatchServiceImpl.java:121-123 | replacing a stored match by a well-formed one with the same id keeps the store invariant |
| `MatchServices.RemoveKeepsInvariant` | src/main/java/com/mybetapp/services/MatchServiceImpl.java:154 | removing a match keeps the store invariant |
| `MatchServices.InsertKeepsFixturesUnique` | src/main/java/com/mybetapp/services/MatchServiceImpl.java:83-94 | inserting a match whose fixture is not stored keeps fixtures unique |
| `MatchServices.UpdateCanDuplicateFixture` | src/main/java/com/mybetapp/services/MatchServiceImpl.java:100-127 | updating a match to another stored match's fixture leaves two matches with one fixture |
| `MatchServices.MatchService.constructor` | src/main/java/com/mybetapp/services/MatchServiceImpl.java:40-42 | an empty store whose first id is 1 |
| `MatchServices.MatchService.MapRequestToMatch` | src/main/java/com/mybetapp/services/MatchServiceImpl.java:189-208 | the loop rebuilds the odds list from nothing, one entry per submitted odd, and the result is the mapped match |
| `MatchServices.MatchService.SaveMatch` | src/main/java/com/mybetapp/services/MatchServiceImpl.java:69-98 | no user: "Unauthorized: no user found in context", store unchanged; a stored fixture: "<SPORT> match between A and B at date time already exists", store unchanged; else the mapped match is stored under a fresh id and returned as a record; the invariant holds and no duplicate fixture is created |
| `MatchServices.MatchService.UpdateMatch` | src/main/java/com/mybetapp/services/MatchServiceImpl.java:100-127 | "Match with ID n not found", then "Unauthorized: ...", then "You do not have permission ...", each with the store unchanged; for the owner the match is replaced by the mapping, same id and owner, and returned |
| `MatchServices.MatchService.DeleteMatch` | src/main/java/com/mybetapp/services/MatchServiceImpl.java:131-163 | a failing lookup answers "INTERNAL_ERROR: Failed to delete match: <cause>" before any check; otherwise "NOT_FOUND: ...", "Unauthorized: ...", "You do not have permission ..." in that order with the store unchanged; the owner's delete removes exactly that match and answers okVoid, unless the delete itself fails, which answers "INTERNAL_ERROR: ..." and removes nothing |
| `MatchServices.MatchService.GetPaginatedMatches` | src/main/java/com/mybetapp/services/MatchServiceImpl.java:44-65 | a negative page, a size below one, or a repository failure each give "Failed to fetch paginated matches: <reason>"; otherwise the page carries the sort from getSort and exactly the stored matches meeting the filters, with the owner filter sanitized to lower case, as records |
| `MatchServices.MatchService.GetPaginatedMatchesUnfiltered` | src/main/java/com/mybetapp/services/MatchService.java:9 | the four-argument list selects every stored match, and fails only on a bad page, a bad size or a repository failure |
| `Controllers.SaveErrorStatus` | src/main/java/com/mybetapp/controllers/MatchController.java:62-69 | save's failure status is 409, 401 or 500 |
| `Controllers.UpdateErrorStatus` | src/main/java/com/mybetapp/controllers/MatchController.java:89-97 | update's failure status is 404, 409, 401, 403 or 500 |
| `Controllers.DeleteErrorStatus` | src/main/java/com/mybetapp/controllers/MatchController.java:116-122 | delete's failure status is 404, 401, 403 or 500 |
| `Controllers.ErrorStatusIgnoresCase` | src/main/java/com/mybetapp/controllers/MatchController.java:58 | messages equal ignoring case get the same status from all three classifications |
| `Controllers.ErrorResponsesEchoMessage` | src/main/java/com/mybetapp/controllers/MatchController.java:58-60 | a failure never gets a success status, and its body is "error" → the message as written, not lower-cased; a list failure is 500 |
| `Controllers.SaveUnauthorizedIs401` | src/main/java/com/mybetapp/services/MatchServiceImpl.java:80 | save's "Unauthorized: ..." is answered 401 |
| `Controllers.SaveDuplicateIs409` | src/main/java/com/mybetapp/services/MatchServiceImpl.java:88-89 | save's "... already exists" is answered 409, whatever the team names |
| `Controllers.UpdateNotFoundIs404` | src/main/java/com/mybetapp/services/MatchServiceImpl.java:106 | update's "... not found" is answered 404 |
| `Controllers.UpdateUnauthorizedIs401` | src/main/java/com/mybetapp/services/MatchServiceImpl.java:113 | update's "Unauthorized: ..." is answered 401 |
| `Controllers.UpdateNoPermissionIs403` | src/main/java/com/mybetapp/services/MatchServiceImpl.java:118 | update's "You do not have permission ..." is answered 403 |
| `Controllers.DeleteNotFoundIs404` | src/main/java/com/mybetapp/services/MatchServiceImpl.java:139 | delete's "NOT_FOUND: ..." is answered 404 |
| `Controllers.DeleteUnauthorizedIs401` | src/main/java/com/mybetapp/services/MatchServiceImpl.java:144 | delete's "Unauthorized: ..." is answered 401 |
| `Controllers.DeleteNoPermissionIs403` | src/main/java/com/mybetapp/services/MatchServiceImpl.java:151 | delete's "You do not have permission ..." is answered 403 |
| `Controllers.DeleteFailureIs500` | src/main/java/com/mybetapp/services/MatchServiceImpl.java:161 | delete's "INTERNAL_ERROR: ..." is answered 500 when the cause has no underscore, y or z |
| `Controllers.ListFailureIs500` | src/main/java/com/mybetapp/controllers/MatchController.java:43 | a failed listing is answered 500 with the service's message |
| `Controllers.ColonOnlyMattersToSave` | src/main/java/com/mybetapp/controllers/MatchController.java:65 | a bare "Unauthorized" is 500 on save but 401 on update and delete |
| `Controllers.MatchController.constructor` | src/main/java/com/mybetapp/controllers/MatchController.java:29 | the controller is bound to the given service |
| `Controllers.MatchController.GetPaginatedMatches` | src/main/java/com/mybetapp/controllers/MatchController.java:31-45 | 200 when page, size and repository are fine, with the requested page number and size, the order getSort gives, and exactly the stored matches the sanitized owner, sport and date filters select, each as its transfer record; else 500 with the service's message |
| `Controllers.MatchController.SaveMatch` | src/main/java/com/mybetapp/controllers/MatchController.java:47-72 | no user: 401; a stored fixture: 409, store unchanged; else 201 with the record of the match stored under the fresh id |
| `Controllers.MatchController.UpdateMatch` | src/main/java/com/mybetapp/controllers/MatchController.java:74-100 | missing: 404; no user: 401; not the owner: 403, each leaving the store; the owner: 200 with the new record; never 409 |
| `Controllers.MatchController.DeleteMatch` | src/main/java/com/mybetapp/controllers/MatchController.java:102-125 | a failing lookup: its "INTERNAL_ERROR" message as body and the store unchanged; then missing: 404; no user: 401; not the owner: 403, each leaving the store; the owner: 204 with no body and the match gone, or, if the delete fails, its message as body and the store unchanged |

## Left out

- **Identity lookup.** `getCurrentUsername` reads a thread-local Spring security context and a JWT claim. The user is a
  parameter instead.
- **Framework configuration.** Security, JWT decoding and CORS configuration are framework wiring with no decisions of
  their own.
- **Spring Data.** The repository interface and JPA are modelled as the `store` map.
  - `existsBy…` is `FixtureTaken`.
  - `findById`, `save` and `delete` are map lookup, update and removal.
  - Page slicing and SQL ordering are not modelled. A page carries its page number, size, sort orders and filter, and
    every stored match the filter selects.
- **Date and time parsing.** `parseDate` and `parseTime` throw `DateTimeParseException` on bad text. Save and update
  are only modelled for request texts that parse. A day past the month's end, which java.time's default resolver
  clamps, is treated as unparseable. The resolver's other leniency, "24:00" read as midnight, is modelled.
- **Odd values.** They are `Double`s, kept as opaque 64-bit patterns that are only copied.
- **Ids.** `Long` ids are unbounded integers, and the generated id is the next counter value.
- **Concurrency.** Transactions, rollback, logging, and the race between the duplicate check and the insert are not
  modelled.
- **Case mapping.** It covers the ASCII letters only; every other character maps to itself.
- **Frontend.** The Angular frontend and its Keycloak login are UI and network code.
- **Annotations and the interface.** The annotation declarations (`ValidMatchOdds`, `DifferentTeamsDto`) and the
  `MatchService` interface are used only for messages and signatures. The `Sanitization` enum file is not part of this
  model; its two constants are taken from their uses.
- **`sanitize`.** The private `sanitize` method of `MatchServiceImpl` is never called and is not modelled.
- **A null `sortBy`.** The `switch` on it throws a `NullPointerException` inside the listing's `try`, so the listing
  would answer "Failed to fetch paginated matches: " followed by that exception's message. The model takes `sortBy` as
  a non-null string, as the controller's default of "matchDate" guarantees.
- **Exceptions inside `saveMatch` and `updateMatch`.** A repository failure there escapes as an exception (they have no
  `try`) and is not modelled. Only `deleteMatch` and the listing turn a failure into a message. For `deleteMatch` a
  failure of `findById` and a failure of the final `delete` are modelled, as two fault parameters.
- **Null exception messages.** A failure whose exception message is null would print "null" into the error. The fault
  parameter always carries a message.
- **Bean validation order.** Hibernate Validator reports violations in no specified order. The model fixes one order:
  the field rules in declaration order, then the team rule, then the odds rule. Only the first message per field is
  kept, so the order decides which message survives when a field is reported twice.
- **Null odds entries.** A null entry inside the odds list is not modelled. Each entry is a record whose fields may be
  null.
- **Request errors outside validation.** The exceptions Spring raises before validation (malformed JSON, an unknown
  enum name during deserialisation) reach `handleIllegalArgumentException` only as their message. That handler is
  modelled; Jackson's wrapping is not.
- Controllers.MatchController.SaveMatch: modelled only for requests that passed `@Valid`. The 400 answer to an
  invalid request is modelled separately by `ExceptionHandler.HandleValidationExceptions` and
  `ExceptionHandler.TeamClashResponse`.
- Controllers.MatchController.UpdateMatch: modelled only for requests that passed `@Valid`, for the same reason.
- Controllers.DeleteFailureIs500: stated only for causes without an underscore, a `y` or a `z`. A failure whose own
  message says "not_found", "unauthorized" or "you do not have permission" would be classified by those words
  instead.
- MatchServices.MatchService.SaveMatch: modelled only for requests whose date and time parse and whose odds are three
  complete entries with three different specifiers, as every request that passed `@Valid` and reached parsing has.
  The `DateTimeParseException` of a bad date or time is not modelled.
- MatchServices.MatchService.UpdateMatch: the same precondition. The source parses only after its checks, so a
  missing match with a bad date answers "not found" there. The model does not cover that case.
- MatchServices.MatchService.DeleteMatch: a failure while reading the signed-in user, inside the same `try`, is not
  modelled, because the user is an input.
