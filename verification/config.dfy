/** Analysis settings of the application (the `Config` class). */
module Config {

  /** Characters kept on each side of a match when an excerpt is built. */
  const MaxExcerptLength: nat := 100
}
