/** The retention limits and the key namespace of the retrieval cache.
    They are process-wide constants; nothing changes them at run time. */
module CacheConfig {

  /** Time-to-live given to every entry when it is written: 180 days, in seconds. */
  const RETRIEVAL_CACHE_EXPIRY: int := 180 * 24 * 3600

  /** Namespace prefix of every cache key. */
  const RETRIEVAL_CACHE_PREFIX: string := "retrieval_cache:"

  /** Ceiling on the summed memory footprint of the live entries: 10 GiB, in bytes. */
  const RETRIEVAL_CACHE_MAX_SIZE: int := 10 * 1024 * 1024 * 1024

  /** Ceiling on the age of an entry: 90 days, in seconds. */
  const RETRIEVAL_CACHE_MAX_AGE: int := 90 * 24 * 3600
}
