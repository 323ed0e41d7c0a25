/** The functional options of the builder and the per-check timeout wrapper
    (`timeoutChecker`). */
module Options {
  import opened Checker

  /** The fixed message of the failure the wrapper reports when the deadline wins. */
  const MaxCheckTimeExceeded: string := "max check time exceeded"

  /** How one wrapped call went. The wrapper starts the inner check concurrently
      and waits for whichever comes first: the inner result or the context's
      deadline. `inner` is what the inner checker returns (or would return,
      had it not been abandoned) and `deadlineFirst` says who won the race. */
  datatype Race = Race(inner: Outcome, deadlineFirst: bool)

  /** The decorator every registered checker is wrapped in. */
  datatype TimeoutChecker<C> = TimeoutChecker(checker: C) {

    /** The result the caller observes: the inner outcome verbatim when the
        inner checker finished first, the fixed timeout failure otherwise. */
    function Check(race: Race): (r: Outcome)
      ensures !race.deadlineFirst ==> r == race.inner
      ensures race.deadlineFirst ==> r == Fail(MaxCheckTimeExceeded)
    {
      if race.deadlineFirst then Fail(MaxCheckTimeExceeded) else race.inner
    }
  }

  /** The wrapper reports success exactly when the inner checker both succeeded
      and beat the deadline; a late success is still a failure. */
  lemma CheckPassesOnlyInTime<C>(t: TimeoutChecker<C>, race: Race)
    ensures t.Check(race).Pass? <==> !race.deadlineFirst && race.inner.Pass?
  {
  }

  /** Once the deadline has won, what the inner checker returns makes no
      difference to the observed result. */
  lemma DeadlineIgnoresInner<C>(t: TimeoutChecker<C>, a: Outcome, b: Outcome)
    ensures t.Check(Race(a, true)) == t.Check(Race(b, true))
    ensures t.Check(Race(a, true)).msg == MaxCheckTimeExceeded
  {
  }

  /** A `time.Duration`: a signed 64-bit count of nanoseconds. */
  newtype Duration = x: int | -0x8000_0000_0000_0000 <= x < 0x8000_0000_0000_0000

  const Second: Duration := 1_000_000_000

  /** A builder option. In the source each is a closure over `*health`; here it
      is the data the closure captures, and `Builder.ApplyOption` and
      `Health.Health.Apply` give its effect. */
  datatype Option<C> =
    | WithChecker(name: string, checker: C)
    | WithObserver(name: string, checker: C)
    | WithTimeout(timeout: Duration)
}
