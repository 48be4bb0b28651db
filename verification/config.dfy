/** Process-wide settings that the core reads. */
module Config {

  /** Lifetime, in minutes, of every access token issued at login. */
  const AccessTokenExpireMinutes := 30
}
