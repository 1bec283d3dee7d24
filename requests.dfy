/**
 * The write request as the HTTP layer decodes it (com.mybetapp.models): every
 * field may be missing (null), which is what the validation rules are about.
 */
module Requests {
  import opened Util
  import opened Enums
  import opened Values

  /** One submitted odd; both parts may be null. */
  datatype RequestOdds = RequestOdds(specifier: Option<Specifier>, odd: Option<Odd>)

  /** SaveMatchRequest: the body of both save and update. */
  datatype SaveMatchRequest = SaveMatchRequest(
    description: Option<string>,
    matchDate: Option<string>,
    matchTime: Option<string>,
    teamA: Option<string>,
    teamB: Option<string>,
    sport: Option<Sport>,
    odds: Option<seq<RequestOdds>>)
}
