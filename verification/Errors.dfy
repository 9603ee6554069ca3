/** Input errors (src/error.rs). They name a field and never carry its value. */
module Errors {
  datatype Field =
    | PageUrl | Referrer | EntityId | SessionId | EventKindCustom
    | UtmSource | UtmMedium | UtmCampaign | UtmContent | UtmTerm
    | VisitorIdField | UserAgent

  datatype ProcessError =
    | InvalidInput(field: Field, limit: nat)
    | InvalidFormat(field: Field)
}
