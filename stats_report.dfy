/**
 * StatsReport: a snapshot of rendered statistics embeds, taken at one instant,
 * which the stats command serves until it is more than fifteen minutes old.
 * The clock reading Instant.now() is the parameter `now` (epoch milliseconds);
 * the embed type is left abstract as the type parameter E.
 */
module StatsReport {
  import opened Wrappers

  /** The kinds of statistics a report can hold an embed for. */
  datatype StatType = SESSION_AVERAGES | TIME_OF_DAY | DAY_OF_WEEK | USER_LEADERBOARD
                    | STREAK_STATS | HOURLY_HEATMAP | SUMMARY

  /** Fifteen minutes, in milliseconds. */
  const CACHE_DURATION_MS: int := 15 * 60 * 1000

  /**
   * The report's two final fields. A Dafny map is a value, so holding one is
   * holding a copy: the EnumMap copy the constructor makes, and the
   * EmbedBuilder copy getEmbed hands out, both come for free.
   */
  datatype Report<E> = Report(embedCache: map<StatType, E>, generatedAt: int)
  {
    /** getEmbed: the cached embed for that kind, or null when none was cached. */
    function GetEmbed(statType: StatType): (e: Option<E>)
      ensures e.None? <==> statType !in embedCache
      ensures e.Some? ==> e.value == embedCache[statType]
    {
      if statType in embedCache then Some(embedCache[statType]) else None
    }

    /** isExpired: now is strictly after generatedAt plus the cache duration. */
    function IsExpired(now: int): bool {
      now > generatedAt + CACHE_DURATION_MS
    }

    /** getAge: milliseconds elapsed since the report was generated. */
    function GetAge(now: int): int {
      now - generatedAt
    }

    function GetGeneratedAt(): int {
      generatedAt
    }
  }

  /** The constructor: copies the map and stamps the report with the current time. */
  function NewReport<E>(embedCache: map<StatType, E>, now: int): (r: Report<E>)
    ensures r.GetGeneratedAt() == now
    ensures forall t :: r.GetEmbed(t) == (if t in embedCache then Some(embedCache[t]) else None)
  {
    Report(embedCache, now)
  }

  /** A report is expired exactly when its age exceeds fifteen minutes. */
  lemma ExpiredIffTooOld<E>(r: Report<E>, now: int)
    ensures r.IsExpired(now) <==> r.GetAge(now) > 900000
  {
  }

  /** A report exactly fifteen minutes old is still fresh; one millisecond later it is expired. */
  lemma ExpiryBoundary<E>(embedCache: map<StatType, E>, created: int)
    ensures !NewReport(embedCache, created).IsExpired(created + 900000)
    ensures NewReport(embedCache, created).IsExpired(created + 900001)
    ensures NewReport(embedCache, created).GetAge(created) == 0
  {
  }

  /** Once expired, a report stays expired as the clock moves forward. */
  lemma ExpiryMonotone<E>(r: Report<E>, now: int, later: int)
    requires now <= later
    ensures r.IsExpired(now) ==> r.IsExpired(later)
    ensures r.GetAge(now) <= r.GetAge(later)
  {
  }
}
