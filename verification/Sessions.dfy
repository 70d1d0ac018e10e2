/** How long a session counts as fresh (src/server/services/apple-account-service.ts). */
module Sessions {
  /** 12 hours. */
  const SESSION_FRESHNESS_MS: int := 12 * 60 * 60 * 1000
}
