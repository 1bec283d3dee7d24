/**
 * MatchServiceImpl: create, update, delete and list matches over a store
 * keyed by id. The repository is the `store` map and its id generator the
 * `nextId` counter; the signed-in user is an explicit parameter (None when the
 * security context holds no user); a repository failure is a parameter
 * carrying the exception's message.
 */
module MatchServices {
  import opened Util
  import opened Strings
  import opened Values
  import opened Enums
  import opened Requests
  import opened Validators
  import opened RequestValidation
  import opened Entities

  /** How user text is normalised after trimming. */
  datatype Sanitization = LOWERCASE | UPPERCASE

  /**
   * sanitizeUserInput: null stays null; otherwise the trimmed text, lower- or
   * upper-cased. The result is the trimmed input up to case, in one case.
   */
  function SanitizeUserInput(input: Option<string>, sanitization: Sanitization): (r: Option<string>)
    ensures r.None? <==> input.None?
    ensures r.Some? ==> IsTrimmed(r.value) && EqualsIgnoreCase(r.value, Trim(input.value))
    ensures r.Some? && sanitization == LOWERCASE ==> IsLowerCase(r.value)
    ensures r.Some? && sanitization == UPPERCASE ==> IsUpperCase(r.value)
  {
    if input.None? then None
    else
      var t := Trim(input.value);
      if sanitization == LOWERCASE then
        LowerSanitized(t);
        Some(ToLower(t))
      else
        UpperSanitized(t);
        Some(ToUpper(t))
  }

  lemma LowerSanitized(t: string)
    requires IsTrimmed(t)
    ensures IsTrimmed(ToLower(t)) && EqualsIgnoreCase(ToLower(t), t) && IsLowerCase(ToLower(t))
  {
    ToLowerKeepsTrimmed(t);
    ToLowerEqualsIgnoreCase(t);
  }

  lemma UpperSanitized(t: string)
    requires IsTrimmed(t)
    ensures IsTrimmed(ToUpper(t)) && EqualsIgnoreCase(ToUpper(t), t) && IsUpperCase(ToUpper(t))
  {
    ToUpperKeepsTrimmed(t);
    ToUpperEqualsIgnoreCase(t);
  }

  /** Sanitizing twice the same way is sanitizing once. */
  lemma SanitizeIdempotent(input: Option<string>, sanitization: Sanitization)
    ensures SanitizeUserInput(SanitizeUserInput(input, sanitization), sanitization) == SanitizeUserInput(input, sanitization)
  {
    var once := SanitizeUserInput(input, sanitization);
    if once.Some? {
      TrimOfTrimmed(once.value);
      if sanitization == LOWERCASE {
        ToLowerOfLowerCase(once.value);
      } else {
        ToUpperOfUpperCase(once.value);
      }
    }
  }

  /** Two inputs sanitize alike exactly when their trimmed forms are equal ignoring case. */
  lemma SanitizeEqualIff(a: string, b: string, sanitization: Sanitization)
    ensures SanitizeUserInput(Some(a), sanitization) == SanitizeUserInput(Some(b), sanitization)
        <==> EqualsIgnoreCase(Trim(a), Trim(b))
  {
    var ta, tb := Trim(a), Trim(b);
    EqualsIgnoreCaseIffSameLower(ta, tb);
    SameUpperIffSameLower(ta, tb);
  }

  /** isCurrentUserEqualToMatchOwner: exact, case-sensitive equality with the owner. */
  predicate IsOwner(currentUser: string, m: Match) {
    currentUser == m.owner
  }

  /**
   * A request the service can act on: valid by the bean constraints, which
   * `@Valid` enforces before the call, and with a date and time the fixed
   * "yyyy-MM-dd" and "HH:mm" patterns parse.
   */
  predicate IsAccepted(request: SaveMatchRequest) {
    && IsValid(request)
    && IsDateText(request.matchDate.value)
    && IsTimeText(request.matchTime.value)
  }

  /** Every submitted odd has a specifier and an odd. */
  predicate AllComplete(odds: seq<RequestOdds>) {
    forall i :: 0 <= i < |odds| ==> odds[i].specifier.Some? && odds[i].odd.Some?
  }

  /**
   * What mapRequestToMatch itself needs to run without throwing: parseable
   * date and time, both teams, a sport, and an odds list with complete
   * entries.
   */
  predicate IsMappable(request: SaveMatchRequest) {
    && request.matchDate.Some? && IsDateText(request.matchDate.value)
    && request.matchTime.Some? && IsTimeText(request.matchTime.value)
    && request.teamA.Some? && request.teamB.Some? && request.sport.Some?
    && request.odds.Some? && AllComplete(request.odds.value)
  }

  /**
   * What saveMatch and updateMatch rely on: a mappable request with three
   * odds naming three different specifiers.
   */
  predicate IsStorable(request: SaveMatchRequest) {
    && IsMappable(request)
    && |request.odds.value| == 3
    && Distinct3(Specifiers(request.odds.value))
  }

  /** Three specifiers, pairwise different. */
  predicate Distinct3(s: seq<Specifier>) {
    |s| == 3 && s[0] != s[1] && s[0] != s[2] && s[1] != s[2]
  }

  /** Three specifiers are pairwise different exactly when they are a permutation of WIN, DRAW, LOSE. */
  lemma Distinct3IffPermutation(s: seq<Specifier>)
    requires |s| == 3
    ensures Distinct3(s) <==> multiset(s) == multiset(RequiredSpecifiers)
  {
    assert s == [s[0], s[1], s[2]];
    if Distinct3(s) {
      DistinctCoversAll(s[0], s[1], s[2]);
    } else if multiset(s) == multiset(RequiredSpecifiers) {
      RepeatBreaksPermutation(s[0], s[1], s[2]);
    }
  }

  /** Three different specifiers are WIN, DRAW and LOSE in some order. */
  lemma DistinctCoversAll(a: Specifier, b: Specifier, c: Specifier)
    requires a != b && a != c && b != c
    ensures multiset([a, b, c]) == multiset(RequiredSpecifiers)
  {
    match a
    case WIN => if b == DRAW { assert c == LOSE; } else { assert b == LOSE && c == DRAW; }
    case DRAW => if b == WIN { assert c == LOSE; } else { assert b == LOSE && c == WIN; }
    case LOSE => if b == WIN { assert c == DRAW; } else { assert b == DRAW && c == WIN; }
  }

  /** A repeated specifier is counted twice, so three such cannot be a permutation. */
  lemma RepeatBreaksPermutation(a: Specifier, b: Specifier, c: Specifier)
    requires a == b || a == c || b == c
    ensures multiset([a, b, c]) != multiset(RequiredSpecifiers)
  {
    var want := multiset(RequiredSpecifiers);
    assert want[a] == 1 by {
      match a
      case WIN =>
      case DRAW =>
      case LOSE =>
    }
    assert want[b] == 1 by {
      match b
      case WIN =>
      case DRAW =>
      case LOSE =>
    }
    if a == b || a == c {
      assert multiset([a, b, c])[a] >= 2;
    } else {
      assert multiset([a, b, c])[b] >= 2;
    }
  }

  /** An accepted request is storable: validity leaves three different specifiers. */
  lemma AcceptedIsStorable(request: SaveMatchRequest)
    requires IsAccepted(request)
    ensures IsStorable(request)
  {
    ValidRequestShape(request);
    Distinct3IffPermutation(Specifiers(request.odds.value));
  }

  /** The stored odds built from complete submitted odds, one for one. */
  function EntityOdds(odds: seq<RequestOdds>): (r: seq<MatchOdds>)
    requires AllComplete(odds)
    ensures |r| == |odds|
    ensures forall i :: 0 <= i < |odds| ==> r[i] == MatchOdds(odds[i].specifier.value, odds[i].odd.value)
  {
    if odds == [] then [] else [MatchOdds(odds[0].specifier.value, odds[0].odd.value)] + EntityOdds(odds[1..])
  }

  /** The transfer odds built from stored odds, one for one. */
  function TransferOdds(odds: seq<MatchOdds>): (r: seq<RequestOdds>)
    ensures |r| == |odds| && AllComplete(r)
    ensures forall i :: 0 <= i < |odds| ==> r[i] == RequestOdds(Some(odds[i].specifier), Some(odds[i].odd))
  {
    if odds == [] then [] else [RequestOdds(Some(odds[0].specifier), Some(odds[0].odd))] + TransferOdds(odds[1..])
  }

  /** Storing submitted odds and handing them back gives the submitted odds. */
  lemma {:induction false} TransferOfEntityOdds(odds: seq<RequestOdds>)
    requires AllComplete(odds)
    ensures TransferOdds(EntityOdds(odds)) == odds
  {
    if odds != [] {
      TransferOfEntityOdds(odds[1..]);
      assert EntityOdds(odds) == [EntityOdds(odds)[0]] + EntityOdds(odds[1..]);
    }
  }

  /** Handing stored odds out and storing them again gives the stored odds. */
  lemma {:induction false} EntityOfTransferOdds(odds: seq<MatchOdds>)
    ensures EntityOdds(TransferOdds(odds)) == odds
  {
    if odds != [] {
      EntityOfTransferOdds(odds[1..]);
      assert TransferOdds(odds) == [TransferOdds(odds)[0]] + TransferOdds(odds[1..]);
    }
  }

  /** getMatchDTO: every field copied, the odds mapped one for one. */
  function ToDTO(m: Match): (d: MatchDTO)
    ensures d.odds == TransferOdds(m.odds)
  {
    MatchDTO(m.id, m.owner, m.description, m.matchDate, m.matchTime, m.teamA, m.teamB, m.sport, TransferOdds(m.odds))
  }

  /** No two matches have the same transfer record. */
  lemma ToDTOInjective(m1: Match, m2: Match)
    ensures ToDTO(m1) == ToDTO(m2) ==> m1 == m2
  {
    if ToDTO(m1) == ToDTO(m2) {
      EntityOfTransferOdds(m1.odds);
      EntityOfTransferOdds(m2.odds);
    }
  }

  /** The match mapRequestToMatch leaves behind for the given owner and id. */
  function Mapped(request: SaveMatchRequest, owner: string, id: int): Match
    requires IsMappable(request)
  {
    Match(
      id,
      owner,
      SanitizeUserInput(request.description, UPPERCASE),
      ParseDate(request.matchDate.value),
      ParseTime(request.matchTime.value),
      SanitizeUserInput(request.teamA, UPPERCASE).value,
      SanitizeUserInput(request.teamB, UPPERCASE).value,
      request.sport.value,
      EntityOdds(request.odds.value))
  }

  /** What a stored match always looks like. */
  predicate IsWellFormed(m: Match) {
    && IsTrimmed(m.teamA) && IsUpperCase(m.teamA)
    && IsTrimmed(m.teamB) && IsUpperCase(m.teamB)
    && (m.description.Some? ==> IsTrimmed(m.description.value) && IsUpperCase(m.description.value))
    && IsCalendarDate(m.matchDate)
    && IsClockTime(m.matchTime)
    && |m.odds| == 3 && Distinct3(OddSpecifiers(m.odds))
  }

  /** The specifiers of stored odds, in order. */
  function OddSpecifiers(odds: seq<MatchOdds>): (r: seq<Specifier>)
    ensures |r| == |odds|
    ensures forall i :: 0 <= i < |odds| ==> r[i] == odds[i].specifier
  {
    if odds == [] then [] else [odds[0].specifier] + OddSpecifiers(odds[1..])
  }

  /**
   * After mapRequestToMatch: the owner is the acting user; description and
   * teams are the request's, trimmed and upper-cased (a null description
   * stays null); date, time and sport come from the request; the odds are the
   * request's, in order, with nothing left from before.
   */
  lemma MappedFields(request: SaveMatchRequest, owner: string, id: int)
    requires IsMappable(request)
    ensures var m := Mapped(request, owner, id);
      && m.id == id && m.owner == owner
      && m.description == SanitizeUserInput(request.description, UPPERCASE)
      && Some(m.teamA) == SanitizeUserInput(request.teamA, UPPERCASE)
      && Some(m.teamB) == SanitizeUserInput(request.teamB, UPPERCASE)
      && FormatDate(m.matchDate) == request.matchDate.value
      && (request.matchTime.value != "24:00" ==> FormatTime(m.matchTime) == request.matchTime.value)
      && (request.matchTime.value == "24:00" ==> FormatTime(m.matchTime) == "00:00")
      && Some(m.sport) == request.sport
      && TransferOdds(m.odds) == request.odds.value
  {
    FormatParseDate(request.matchDate.value);
    FormatParseTime(request.matchTime.value);
    TransferOfEntityOdds(request.odds.value);
  }

  /** Stored odds keep the submitted specifiers, in order. */
  lemma SpecifiersOfEntityOdds(odds: seq<RequestOdds>)
    requires AllComplete(odds)
    ensures AllSpecified(odds) && OddSpecifiers(EntityOdds(odds)) == Specifiers(odds)
  {
  }

  /** A match mapped from a storable request is well formed. */
  lemma MappedIsWellFormed(request: SaveMatchRequest, owner: string, id: int)
    requires IsStorable(request)
    ensures IsWellFormed(Mapped(request, owner, id))
  {
    SpecifiersOfEntityOdds(request.odds.value);
  }

  /**
   * The odds of a well-formed match are a permutation of WIN, DRAW and LOSE,
   * as the odds constraint demands of the request.
   */
  lemma WellFormedOddsArePermutation(m: Match)
    requires IsWellFormed(m)
    ensures multiset(OddSpecifiers(m.odds)) == multiset(RequiredSpecifiers)
  {
    Distinct3IffPermutation(OddSpecifiers(m.odds));
  }

  /** The tuple existsByTeamAAndTeamBAndMatchDateAndMatchTimeAndSport looks up. */
  datatype Fixture = Fixture(teamA: string, teamB: string, matchDate: Date, matchTime: Time, sport: Sport)

  function FixtureOf(m: Match): Fixture {
    Fixture(m.teamA, m.teamB, m.matchDate, m.matchTime, m.sport)
  }

  /** The fixture saveMatch checks: sanitized teams, parsed date and time. */
  function RequestFixture(request: SaveMatchRequest): (f: Fixture)
    requires IsMappable(request)
    ensures forall owner, id :: FixtureOf(Mapped(request, owner, id)) == f
  {
    Fixture(
      SanitizeUserInput(request.teamA, UPPERCASE).value,
      SanitizeUserInput(request.teamB, UPPERCASE).value,
      ParseDate(request.matchDate.value),
      ParseTime(request.matchTime.value),
      request.sport.value)
  }

  /** existsBy...: some stored match has the fixture. */
  predicate FixtureTaken(store: map<int, Match>, f: Fixture) {
    exists id :: id in store && FixtureOf(store[id]) == f
  }

  /** No two stored matches share a fixture. */
  predicate FixturesUnique(store: map<int, Match>) {
    forall id1, id2 :: id1 in store && id2 in store && FixtureOf(store[id1]) == FixtureOf(store[id2]) ==> id1 == id2
  }

  /**
   * Two requests name the same fixture exactly when their trimmed teams
   * agree ignoring case, in the same order, their date and sport texts
   * agree, and their time texts name the same time ("24:00" is "00:00").
   */
  lemma SameFixtureIff(r1: SaveMatchRequest, r2: SaveMatchRequest)
    requires IsMappable(r1) && IsMappable(r2)
    ensures RequestFixture(r1) == RequestFixture(r2) <==>
      && EqualsIgnoreCase(Trim(r1.teamA.value), Trim(r2.teamA.value))
      && EqualsIgnoreCase(Trim(r1.teamB.value), Trim(r2.teamB.value))
      && r1.matchDate == r2.matchDate && SameTimeText(r1.matchTime.value, r2.matchTime.value) && r1.sport == r2.sport
  {
    SanitizeEqualIff(r1.teamA.value, r2.teamA.value, UPPERCASE);
    SanitizeEqualIff(r1.teamB.value, r2.teamB.value, UPPERCASE);
    ParseDateInjective(r1.matchDate.value, r2.matchDate.value);
    ParseTimeInjective(r1.matchTime.value, r2.matchTime.value);
  }

  /**
   * Swapping the teams names the same fixture exactly when the two teams are
   * equal ignoring case once trimmed, which the validator, comparing them
   * untrimmed, does not rule out.
   */
  lemma SwappedTeamsSameFixtureIff(request: SaveMatchRequest)
    requires IsMappable(request)
    ensures IsMappable(SwapTeams(request))
    ensures RequestFixture(SwapTeams(request)) == RequestFixture(request) <==>
      EqualsIgnoreCase(Trim(request.teamA.value), Trim(request.teamB.value))
  {
    SanitizeEqualIff(request.teamA.value, request.teamB.value, UPPERCASE);
  }

  // The fixed messages are written in short parts (the text is the service's
  // own) so that what they contain can be shown one part at a time.

  const UnauthorizedMessage := "Unauthorized: " + "no user found " + "in context"
  const NoPermissionMessage := "You do not have " + "permission" + " to update this match"

  /** The rejection of a fixture that is already stored. */
  function AlreadyExistsMessage(f: Fixture): string
    requires IsCalendarDate(f.matchDate) && IsClockTime(f.matchTime)
  {
    SportName(f.sport) + " match between " + f.teamA + " and " + f.teamB + " at "
    + FormatDate(f.matchDate) + " " + FormatTime(f.matchTime) + " already exists"
  }

  function UpdateNotFoundMessage(id: int): string {
    "Match with ID " + DecimalString(id) + " not found"
  }

  function DeleteNotFoundMessage(id: int): string {
    "NOT_FOUND: Match with id " + DecimalString(id) + " does not exist."
  }

  function DeleteFailedMessage(cause: string): string {
    "INTERNAL_ERROR: " + "Failed to delete" + " match: " + cause
  }

  function ListFailedMessage(cause: string): string {
    "Failed to fetch paginated matches: " + cause
  }

  /** PageRequest.of's rejections of a negative page and of a size below one. */
  const PageIndexMessage := "Page index must not be less than zero"
  const PageSizeMessage := "Page size must not be less than one"

  datatype Direction = ASC | DESC

  /** One Sort.Order: a property and its direction. */
  datatype Order = Order(property: string, direction: Direction)

  /** "desc".equalsIgnoreCase(direction); false for null. */
  predicate IsDesc(direction: Option<string>) {
    direction.Some? && EqualsIgnoreCase("desc", direction.value)
  }

  /**
   * getSort: "owner" and "sport" sort on that property and then on the date,
   * "matchDate" on the date and then the time, all in the requested
   * direction; any other key sorts on the date, descending, whatever the
   * direction.
   */
  function GetSort(sortBy: string, direction: Option<string>): (sort: seq<Order>)
    ensures sortBy in {"owner", "sport", "matchDate"} ==>
      && |sort| == 2
      && sort[0].property == sortBy
      && sort[1].property == (if sortBy == "matchDate" then "matchTime" else "matchDate")
      && sort[0].direction == sort[1].direction
      && (sort[0].direction == DESC <==> IsDesc(direction))
    ensures sortBy !in {"owner", "sport", "matchDate"} ==> sort == [Order("matchDate", DESC)]
  {
    var d := if IsDesc(direction) then DESC else ASC;
    if sortBy == "owner" then [Order("owner", d), Order("matchDate", d)]
    else if sortBy == "sport" then [Order("sport", d), Order("matchDate", d)]
    else if sortBy == "matchDate" then [Order("matchDate", d), Order("matchTime", d)]
    else [Order("matchDate", DESC)]
  }

  /** The direction is matched ignoring case, and nothing else counts as descending. */
  lemma GetSortDirectionExamples()
    ensures GetSort("owner", Some("DESC")) == [Order("owner", DESC), Order("matchDate", DESC)]
    ensures GetSort("sport", Some("Desc")) == [Order("sport", DESC), Order("matchDate", DESC)]
    ensures GetSort("matchDate", Some("descending")) == [Order("matchDate", ASC), Order("matchTime", ASC)]
    ensures GetSort("matchDate", None) == [Order("matchDate", ASC), Order("matchTime", ASC)]
    ensures GetSort("teamA", Some("asc")) == [Order("matchDate", DESC)]
  {
    assert !CharEqualsIgnoreCase('d', 'A');
    assert IsDesc(Some("DESC")) && IsDesc(Some("Desc"));
  }

  /** One equality the list query filters on. */
  datatype Constraint =
    | OwnerEquals(owner: string)
    | SportEquals(sport: string)
    | DateEquals(date: Date)

  /** cb.equal on the match's column; the sport column holds the enum's name. */
  predicate Satisfies(m: Match, c: Constraint) {
    match c
    case OwnerEquals(o) => m.owner == o
    case SportEquals(s) => SportName(m.sport) == s
    case DateEquals(d) => m.matchDate == d
  }

  /** cb.and over the constraints; true for none. */
  predicate SatisfiesAll(m: Match, constraints: seq<Constraint>) {
    forall i :: 0 <= i < |constraints| ==> Satisfies(m, constraints[i])
  }

  /** A text filter is applied only when it is neither null nor empty. */
  predicate IsApplied(filter: Option<string>) {
    filter.Some? && filter.value != []
  }

  /** The filtering the list query promises, stated filter by filter. */
  predicate MatchesFilters(m: Match, owner: Option<string>, sport: Option<string>, matchDate: Option<Date>) {
    && (IsApplied(owner) ==> m.owner == owner.value)
    && (IsApplied(sport) ==> SportName(m.sport) == sport.value)
    && (matchDate.Some? ==> m.matchDate == matchDate.value)
  }

  /**
   * The owner filter is trimmed and lower-cased while the stored owner is
   * compared as it is: a match whose owner has an upper-case letter is never
   * selected by an applied owner filter, whatever its spelling.
   */
  lemma OwnerFilterMissesUpperCaseOwners(m: Match, owner: string)
    requires !IsLowerCase(m.owner)
    requires Trim(owner) != []
    ensures !MatchesFilters(m, SanitizeUserInput(Some(owner), LOWERCASE), None, None)
  {
    var filter := SanitizeUserInput(Some(owner), LOWERCASE);
    assert |filter.value| == |Trim(owner)|;
  }

  /**
   * buildMatchSpecification: one equality per applied filter, in the order
   * owner, sport, date; a match passes exactly when it meets every applied
   * filter, and with no filter applied every match passes.
   */
  method BuildMatchSpecification(owner: Option<string>, sport: Option<string>, matchDate: Option<Date>)
    returns (predicates: seq<Constraint>)
    ensures |predicates| == (if IsApplied(owner) then 1 else 0) + (if IsApplied(sport) then 1 else 0)
                            + (if matchDate.Some? then 1 else 0)
    ensures forall m :: SatisfiesAll(m, predicates) <==> MatchesFilters(m, owner, sport, matchDate)
  {
    predicates := [];
    if owner.Some? && owner.value != [] {
      predicates := predicates + [OwnerEquals(owner.value)];
    }
    if sport.Some? && sport.value != [] {
      predicates := predicates + [SportEquals(sport.value)];
    }
    if matchDate.Some? {
      predicates := predicates + [DateEquals(matchDate.value)];
    }
    forall m ensures SatisfiesAll(m, predicates) <==> MatchesFilters(m, owner, sport, matchDate) {
      if SatisfiesAll(m, predicates) {
        var k := 0;
        if IsApplied(owner) {
          assert Satisfies(m, predicates[k]);
          k := k + 1;
        }
        if IsApplied(sport) {
          assert Satisfies(m, predicates[k]);
          k := k + 1;
        }
        if matchDate.Some? {
          assert Satisfies(m, predicates[k]);
        }
      }
    }
  }

  /** Ids are keys below the counter, and every stored match is well formed under its own id. */
  predicate StoreInvariant(store: map<int, Match>, nextId: int) {
    && nextId >= 1
    && forall id :: id in store ==> 1 <= id < nextId && store[id].id == id && IsWellFormed(store[id])
  }

  /** Storing a well-formed match under the next id keeps the invariant. */
  lemma InsertKeepsInvariant(store: map<int, Match>, nextId: int, m: Match)
    requires StoreInvariant(store, nextId) && m.id == nextId && IsWellFormed(m)
    ensures nextId !in store && StoreInvariant(store[nextId := m], nextId + 1)
  {
  }

  /** Replacing a stored match by a well-formed one with the same id keeps the invariant. */
  lemma ReplaceKeepsInvariant(store: map<int, Match>, nextId: int, m: Match)
    requires StoreInvariant(store, nextId) && m.id in store && IsWellFormed(m)
    ensures StoreInvariant(store[m.id := m], nextId)
  {
  }

  /** Removing a match keeps the invariant. */
  lemma RemoveKeepsInvariant(store: map<int, Match>, nextId: int, id: int)
    requires StoreInvariant(store, nextId)
    ensures StoreInvariant(store - {id}, nextId)
  {
  }

  /** Storing a match whose fixture is not taken keeps fixtures unique. */
  lemma InsertKeepsFixturesUnique(store: map<int, Match>, id: int, m: Match)
    requires FixturesUnique(store) && id !in store && !FixtureTaken(store, FixtureOf(m))
    ensures FixturesUnique(store[id := m])
  {
  }

  /** One page request's outcome: the order and filter applied and the matches selected, by id. */
  datatype MatchPage = MatchPage(
    page: int,
    size: int,
    sort: seq<Order>,
    filter: seq<Constraint>,
    selected: map<int, MatchDTO>)

  /**
   * A page that answers a listing of the store: the requested number and
   * size, the sort, and exactly the stored matches the owner (trimmed and
   * lower-cased), sport and date filters select, each as its transfer record.
   */
  ghost predicate IsPageOf(p: MatchPage, store: map<int, Match>, page: int, size: int, sort: seq<Order>,
                     owner: Option<string>, sport: Option<string>, matchDate: Option<Date>) {
    && p.page == page && p.size == size && p.sort == sort
    && (forall id :: id in p.selected <==>
          id in store && MatchesFilters(store[id], SanitizeUserInput(owner, LOWERCASE), sport, matchDate))
    && (forall id :: id in p.selected ==> p.selected[id] == ToDTO(store[id]))
  }

  class MatchService {
    /** The repository: every stored match under its id. */
    var store: map<int, Match>
    /** The next id the store will assign. */
    var nextId: int

    /** Ids are keys below the counter, and every stored match is well formed. */
    ghost predicate Valid()
      reads this
    {
      StoreInvariant(store, nextId)
    }

    constructor()
      ensures Valid()
      ensures store == map[] && nextId == 1
    {
      store := map[];
      nextId := 1;
    }

    /**
     * mapRequestToMatch: the match with the given id, owned by the acting
     * user, filled from the request; its odds list is emptied and the
     * request's odds appended one by one, in order.
     */
    method MapRequestToMatch(request: SaveMatchRequest, user: string, id: int) returns (m: Match)
      requires IsMappable(request)
      ensures m == Mapped(request, user, id)
    {
      var submitted := request.odds.value;
      var odds: seq<MatchOdds> := [];
      var i := 0;
      while i < |submitted|
        invariant 0 <= i <= |submitted| && |odds| == i
        invariant forall k :: 0 <= k < i ==> odds[k] == MatchOdds(submitted[k].specifier.value, submitted[k].odd.value)
      {
        odds := odds + [MatchOdds(submitted[i].specifier.value, submitted[i].odd.value)];
        i := i + 1;
      }
      assert odds == EntityOdds(submitted);
      m := Match(
        id,
        user,
        SanitizeUserInput(request.description, UPPERCASE),
        ParseDate(request.matchDate.value),
        ParseTime(request.matchTime.value),
        SanitizeUserInput(request.teamA, UPPERCASE).value,
        SanitizeUserInput(request.teamB, UPPERCASE).value,
        request.sport.value,
        odds);
    }

    /**
     * saveMatch: with no user, "Unauthorized: ..."; with the fixture already
     * stored, the "... already exists" message; otherwise the mapped match
     * is stored under a fresh id and returned as a transfer record. Only the
     * last case changes the store, and it never creates a second match with
     * the same fixture.
     */
    method SaveMatch(request: SaveMatchRequest, user: Option<string>) returns (r: Result<MatchDTO>)
      requires Valid() && IsStorable(request)
      modifies this
      ensures Valid()
      ensures user.None? ==>
        r == Error(Some(UnauthorizedMessage)) && store == old(store) && nextId == old(nextId)
      ensures user.Some? && FixtureTaken(old(store), RequestFixture(request)) ==>
        && r == Error(Some(AlreadyExistsMessage(RequestFixture(request))))
        && store == old(store) && nextId == old(nextId)
      ensures user.Some? && !FixtureTaken(old(store), RequestFixture(request)) ==>
        && old(nextId) !in old(store)
        && store == old(store)[old(nextId) := Mapped(request, user.value, old(nextId))]
        && nextId == old(nextId) + 1
        && r == Ok(ToDTO(store[old(nextId)]))
      ensures FixturesUnique(old(store)) ==> FixturesUnique(store)
    {
      var fixture := RequestFixture(request);
      if user.None? {
        return Error(Some(UnauthorizedMessage));
      }
      if FixtureTaken(store, fixture) {
        assert FixtureTaken(old(store), RequestFixture(request));
        return Error(Some(AlreadyExistsMessage(fixture)));
      }
      var id := nextId;
      var before := store;
      var m := MapRequestToMatch(request, user.value, id);
      assert store == before && nextId == id;
      MappedIsWellFormed(request, user.value, id);
      InsertKeepsInvariant(store, nextId, m);
      if FixturesUnique(store) {
        InsertKeepsFixturesUnique(store, id, m);
      }
      store := store[id := m];
      nextId := nextId + 1;
      r := Ok(ToDTO(m));
      assert old(store)[old(nextId) := Mapped(request, user.value, old(nextId))] == before[id := m];
    }

    /**
     * updateMatch: checks, in order, that the match exists, that there is a
     * user and that the user owns the match; any failure leaves the store as
     * it was. On success the match is replaced by the request's mapping under
     * the same id and owner. The fixture is not checked again.
     */
    method UpdateMatch(matchId: int, request: SaveMatchRequest, user: Option<string>) returns (r: Result<MatchDTO>)
      requires Valid() && IsStorable(request)
      modifies this
      ensures Valid() && nextId == old(nextId)
      ensures matchId !in old(store) ==>
        r == Error(Some(UpdateNotFoundMessage(matchId))) && store == old(store)
      ensures matchId in old(store) && user.None? ==>
        r == Error(Some(UnauthorizedMessage)) && store == old(store)
      ensures matchId in old(store) && user.Some? && !IsOwner(user.value, old(store)[matchId]) ==>
        r == Error(Some(NoPermissionMessage)) && store == old(store)
      ensures matchId in old(store) && user.Some? && IsOwner(user.value, old(store)[matchId]) ==>
        && store == old(store)[matchId := Mapped(request, old(store)[matchId].owner, matchId)]
        && store[matchId].id == matchId && store[matchId].owner == old(store)[matchId].owner
        && r == Ok(ToDTO(store[matchId]))
    {
      if matchId !in store {
        return Error(Some(UpdateNotFoundMessage(matchId)));
      }
      var existing := store[matchId];
      if user.None? {
        return Error(Some(UnauthorizedMessage));
      }
      if !IsOwner(user.value, existing) {
        return Error(Some(NoPermissionMessage));
      }
      var m := MapRequestToMatch(request, user.value, existing.id);
      MappedIsWellFormed(request, user.value, existing.id);
      ReplaceKeepsInvariant(store, nextId, m);
      store := store[matchId := m];
      r := Ok(ToDTO(m));
    }

    /**
     * deleteMatch: the same checks in the same order, with "NOT_FOUND: ...",
     * "Unauthorized: ..." and "You do not have permission ..."; the owner's
     * delete removes the match and answers okVoid. A repository failure,
     * whether of the lookup (before any check) or of the final delete, is
     * answered "INTERNAL_ERROR: ..." and removes nothing.
     */
    method DeleteMatch(matchId: int, user: Option<string>, lookupFault: Option<string>, deleteFault: Option<string>)
      returns (r: Result<()>)
      requires Valid()
      modifies this
      ensures Valid() && nextId == old(nextId)
      ensures lookupFault.Some? ==>
        r == Error(Some(DeleteFailedMessage(lookupFault.value))) && store == old(store)
      ensures lookupFault.None? && matchId !in old(store) ==>
        r == Error(Some(DeleteNotFoundMessage(matchId))) && store == old(store)
      ensures lookupFault.None? && matchId in old(store) && user.None? ==>
        r == Error(Some(UnauthorizedMessage)) && store == old(store)
      ensures lookupFault.None? && matchId in old(store) && user.Some? && !IsOwner(user.value, old(store)[matchId]) ==>
        r == Error(Some(NoPermissionMessage)) && store == old(store)
      ensures lookupFault.None? && matchId in old(store) && user.Some? && IsOwner(user.value, old(store)[matchId]) ==>
        if deleteFault.None? then r == OkVoid() && store == old(store) - {matchId}
        else r == Error(Some(DeleteFailedMessage(deleteFault.value))) && store == old(store)
    {
      if lookupFault.Some? {
        return Error(Some(DeleteFailedMessage(lookupFault.value)));
      }
      if matchId !in store {
        return Error(Some(DeleteNotFoundMessage(matchId)));
      }
      if user.None? {
        return Error(Some(UnauthorizedMessage));
      }
      if !IsOwner(user.value, store[matchId]) {
        return Error(Some(NoPermissionMessage));
      }
      if deleteFault.Some? {
        return Error(Some(DeleteFailedMessage(deleteFault.value)));
      }
      RemoveKeepsInvariant(store, nextId, matchId);
      store := store - {matchId};
      r := OkVoid();
    }

    /**
     * getPaginatedMatches: the sort from getSort, the page request (which
     * rejects a negative page and a size below one), the filter from the
     * owner (trimmed and lower-cased), sport and date, and the matches it
     * selects as transfer records; any failure, a repository fault included,
     * is answered "Failed to fetch paginated matches: " and its message.
     */
    method GetPaginatedMatches(page: int, size: int, sortBy: string, direction: Option<string>,
                               owner: Option<string>, sport: Option<string>, matchDate: Option<Date>,
                               fault: Option<string>)
      returns (r: Result<MatchPage>)
      ensures page < 0 ==> r == Error(Some(ListFailedMessage(PageIndexMessage)))
      ensures page >= 0 && size < 1 ==> r == Error(Some(ListFailedMessage(PageSizeMessage)))
      ensures page >= 0 && size >= 1 && fault.Some? ==> r == Error(Some(ListFailedMessage(fault.value)))
      ensures page >= 0 && size >= 1 && fault.None? ==> r.IsSuccess() && r.value.Some?
      ensures r.IsSuccess() ==>
        r.value.Some? && IsPageOf(r.value.value, store, page, size, GetSort(sortBy, direction), owner, sport, matchDate)
    {
      var sort := GetSort(sortBy, direction);
      if page < 0 {
        return Error(Some(ListFailedMessage(PageIndexMessage)));
      }
      if size < 1 {
        return Error(Some(ListFailedMessage(PageSizeMessage)));
      }
      var filter := BuildMatchSpecification(SanitizeUserInput(owner, LOWERCASE), sport, matchDate);
      if fault.Some? {
        return Error(Some(ListFailedMessage(fault.value)));
      }
      var selected := map id | id in store && SatisfiesAll(store[id], filter) :: ToDTO(store[id]);
      r := Ok(MatchPage(page, size, sort, filter, selected));
    }

    /** The interface's four-argument list call: no owner, sport or date filter. */
    method GetPaginatedMatchesUnfiltered(page: int, size: int, sortBy: string, direction: Option<string>, fault: Option<string>)
      returns (r: Result<MatchPage>)
      ensures page >= 0 && size >= 1 && fault.None? ==>
        && r.IsSuccess() && r.value.Some?
        && r.value.value.selected == map id | id in store :: ToDTO(store[id])
      ensures !r.IsSuccess() ==> page < 0 || size < 1 || fault.Some?
    {
      r := GetPaginatedMatches(page, size, sortBy, direction, None, None, None, fault);
      if r.IsSuccess() {
        var selected := r.value.value.selected;
        assert forall id :: id in selected <==> id in store;
        var all := map id | id in store :: ToDTO(store[id]);
        assert selected.Keys == all.Keys;
        assert forall id | id in selected :: selected[id] == all[id];
        assert selected == all;
      }
    }
  }

  /**
   * Saving never stores a second match with a fixture that is already
   * stored, but updating does not check the fixture: an owner can turn a
   * match into a copy of another one.
   */
  lemma UpdateCanDuplicateFixture(store: map<int, Match>, id: int, other: int, request: SaveMatchRequest)
    requires IsMappable(request) && id in store && other in store && id != other
    requires FixtureOf(store[other]) == RequestFixture(request)
    ensures !FixturesUnique(store[id := Mapped(request, store[id].owner, id)])
  {
    var after := store[id := Mapped(request, store[id].owner, id)];
    assert FixtureOf(after[id]) == FixtureOf(after[other]);
  }
}
