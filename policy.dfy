/** The re-entry rule of `can_enter_data` (main.py:49-60), on whole seconds. */
module Policy {
  import opened Wrappers

  /** Seconds that must pass between two accepted entries of one identity.
      The comment above `can_enter_data` and the denial message speak of
      20 hours; the comparison the code makes is against 30 seconds. */
  const THRESHOLD: int := 30

  /** Whether an identity whose latest entry is at `last` (none if it has
      never been stored) may enter at `now`. */
  predicate MayEnter(last: Option<int>, now: int) {
    last.None? || now - last.value >= THRESHOLD
  }

  /** An identity with no stored entry is always let in. */
  lemma FirstEntryAllowed(now: int)
    ensures MayEnter(None, now)
  {
  }

  /** Exactly THRESHOLD seconds after the last entry is allowed; one second
      earlier is denied. */
  lemma ThresholdBoundary(last: int)
    ensures MayEnter(Some(last), last + THRESHOLD)
    ensures !MayEnter(Some(last), last + THRESHOLD - 1)
  {
  }

  /** Once allowed, an identity stays allowed as time goes on. */
  lemma AllowedLater(last: int, now: int, later: int)
    requires MayEnter(Some(last), now) && now <= later
    ensures MayEnter(Some(last), later)
  {
  }

  /** `datetime.now()` carries microseconds and `total_seconds()` is a float,
      but the stored timestamp is a whole second: comparing the elapsed time
      with fractions gives the same answer as comparing whole seconds. */
  lemma WholeSecondsSuffice(last: int, now: int, micro: int)
    requires 0 <= micro < 1000000
    ensures (now as real + micro as real / 1000000.0) - last as real >= THRESHOLD as real
            <==> MayEnter(Some(last), now)
  {
  }
}
