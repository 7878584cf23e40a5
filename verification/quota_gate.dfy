/** The daily quota gate that both PDF actions pass through (app.py). */
module QuotaGate {

  /** Number of merge and protect actions allowed per calendar day. The two
      actions draw on this one budget; there is no per-action limit. */
  const USAGE_LIMIT: int := 5

  /** The gate run at the start of every merge or protect submission: a count
      at or above the limit is refused. */
  predicate Allowed(count: int)
  {
    !(count >= USAGE_LIMIT)
  }

  /** The gate lets a count through exactly when it is below the limit, so the
      count at which the first refusal happens is the limit itself. */
  lemma AllowedIffBelowLimit(count: int)
    ensures Allowed(count) <==> count < USAGE_LIMIT
    ensures !Allowed(USAGE_LIMIT) && Allowed(USAGE_LIMIT - 1)
  {
  }
}
