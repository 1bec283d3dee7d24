/**
 * The persisted entities (com.mybetapp.entities) and the transfer record the
 * service hands back (com.mybetapp.dto.MatchDTO), as plain values.
 */
module Entities {
  import opened Util
  import opened Enums
  import opened Values
  import opened Requests

  /**
   * One outcome's odd as stored. Its generated row id and its back-reference
   * to the owning match are not part of this model: the match holds its odds
   * as a sequence, in insertion order.
   */
  datatype MatchOdds = MatchOdds(specifier: Specifier, odd: Odd)

  /** A stored match; `id` is the key the store assigned. */
  datatype Match = Match(
    id: int,
    owner: string,
    description: Option<string>,
    matchDate: Date,
    matchTime: Time,
    teamA: string,
    teamB: string,
    sport: Sport,
    odds: seq<MatchOdds>)

  /**
   * The transfer record: a flat copy of a match whose odds use the request's
   * odds type (com.mybetapp.models.MatchOdds).
   */
  datatype MatchDTO = MatchDTO(
    matchId: int,
    matchOwner: string,
    description: Option<string>,
    matchDate: Date,
    matchTime: Time,
    teamA: string,
    teamB: string,
    sport: Sport,
    odds: seq<RequestOdds>)
}
