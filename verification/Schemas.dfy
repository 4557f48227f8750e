/** Enumerations shared by several components. */
module Schemas {

  /** FLAGGED is a historical status: read from old rows, never written by the engine. */
  datatype VerdictStatus = ALLOW | ALLOW_WITH_FLAG | ESCALATE_FOR_REVIEW | RECOMMEND_HOLD | FLAGGED

  /** `_REVIEWABLE_VERDICT_STATUSES`: the one definition both writers of reviews consult. */
  const REVIEWABLE_VERDICT_STATUSES: set<VerdictStatus> := {ESCALATE_FOR_REVIEW, RECOMMEND_HOLD}

  datatype PolicySeverity = LOW | MEDIUM | HIGH

  datatype Outcome = CLEAR | FLAG
}
