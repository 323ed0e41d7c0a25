/** The service object: `NewService` with its option loop, and `CheckHealth`
    as a sequential loop over the checkers in the order they finish. */
module Health {
  import opened Checker
  import opened Options
  import opened Builder
  import opened Verdict

  /** The `health` struct. Options mutate it while the service is built; after
      that `CheckHealth` only reads it. */
  class Health<C> {
    var checkers: map<string, TimeoutChecker<C>>
    var observers: map<string, TimeoutChecker<C>>
    var timeout: Duration

    /** The fields as a `Builder.Config` value. */
    function State(): Config<C>
      reads this
    {
      Config(checkers, observers, timeout)
    }

    /** Starts from empty maps and a 30-second timeout, then runs every option,
        once each, in argument order. */
    constructor NewService(opts: seq<Option<C>>)
      ensures State() == Build(opts)
    {
      checkers := map[];
      observers := map[];
      timeout := DefaultTimeout;
      new;
      for i := 0 to |opts|
        invariant State() == Build(opts[..i])
      {
        assert opts[..i + 1][..i] == opts[..i];
        Apply(opts[i]);
      }
      assert opts[..|opts|] == opts;
    }

    /** Runs the closure an option stands for: `WithChecker` and `WithObserver`
        overwrite one entry of their own map with the wrapped checker,
        `WithTimeout` overwrites the timeout, and nothing else changes. */
    method Apply(opt: Option<C>)
      modifies this
      ensures State() == ApplyOption(old(State()), opt)
      ensures opt.WithChecker? ==>
                checkers == old(checkers)[opt.name := TimeoutChecker(opt.checker)] &&
                observers == old(observers) && timeout == old(timeout)
      ensures opt.WithObserver? ==>
                observers == old(observers)[opt.name := TimeoutChecker(opt.checker)] &&
                checkers == old(checkers) && timeout == old(timeout)
      ensures opt.WithTimeout? ==>
                timeout == opt.timeout && checkers == old(checkers) && observers == old(observers)
    {
      match opt
      case WithChecker(name, s) =>
        checkers := checkers[name := TimeoutChecker(s)];
      case WithObserver(name, s) =>
        observers := observers[name := TimeoutChecker(s)];
      case WithTimeout(d) =>
        timeout := d;
    }

    /** `c` stands for a checker registered in this service: its name is a key
        of its bucket's map, and it carries the wrapper stored there. */
    ghost predicate Registered(c: Completion<C>)
      reads this
    {
      if c.bucket == Fatal then c.name in checkers && checkers[c.name] == c.wrapped
      else c.name in observers && observers[c.name] == c.wrapped
    }

    /** `order` is one possible completion order of a `CheckHealth` call: every
        registered checker and observer finishes exactly once, and nothing
        else does. */
    ghost predicate ValidSchedule(order: seq<Completion<C>>)
      reads this
    {
      && (forall i :: 0 <= i < |order| ==> Registered(order[i]))
      && (forall i, j :: 0 <= i < j < |order| ==>
            order[i].name != order[j].name || order[i].bucket != order[j].bucket)
      && (forall name :: name in checkers ==>
            exists i :: 0 <= i < |order| && order[i].name == name && order[i].bucket == Fatal)
      && (forall name :: name in observers ==>
            exists i :: 0 <= i < |order| && order[i].name == name && order[i].bucket == Observer)
    }

    /** Runs every registered check and reduces the outcomes, the checks
        finishing in the order `order` lists them. The result is the fold
        `Verdict.Reduce`; what that means is spelled out below it. */
    method CheckHealth(order: seq<Completion<C>>) returns (code: int, errorMsgs: map<string, string>)
      requires ValidSchedule(order)
      ensures Verdict(code, errorMsgs) == Reduce(order)
      ensures code == StatusOK || code == StatusServiceUnavailable
      ensures code == StatusServiceUnavailable <==> FatalFailure(order)
      ensures errorMsgs.Keys == FailedNames(order)
      ensures errorMsgs.Keys <= checkers.Keys + observers.Keys
      ensures checkers == map[] && observers == map[] ==> code == StatusOK && errorMsgs == map[]
      ensures checkers.Keys !! observers.Keys ==>
                forall c :: c in order && c.Failed() ==> c.name in errorMsgs && errorMsgs[c.name] == c.Result().msg
      ensures checkers.Keys !! observers.Keys ==>
                forall c :: c in order && c.race.deadlineFirst ==> c.name in errorMsgs && errorMsgs[c.name] == MaxCheckTimeExceeded
    {
      code := StatusOK;
      errorMsgs := map[];
      for i := 0 to |order|
        invariant Verdict(code, errorMsgs) == Reduce(order[..i])
      {
        var c := order[i];
        assert order[..i + 1][..i] == order[..i];
        var result := c.wrapped.Check(c.race);
        if result.Fail? {
          errorMsgs := errorMsgs[c.name := result.msg];
          if c.bucket == Fatal {
            code := StatusServiceUnavailable;
          }
        }
      }
      assert order[..|order|] == order;
      ReduceCode(order);
      ReduceKeys(order);
      if checkers == map[] && observers == map[] {
        assert order == [];
      }
      if checkers.Keys !! observers.Keys {
        DisjointScheduleHasUniqueNames(order);
        ReduceReportsEachFailure(order);
      }
    }

    /** When no name is both a checker and an observer, a valid schedule never
        lists two different completions under one name. */
    lemma DisjointScheduleHasUniqueNames(order: seq<Completion<C>>)
      requires ValidSchedule(order)
      requires checkers.Keys !! observers.Keys
      ensures UniqueNames(order)
    {
    }

    /** Two valid schedules made of the same completions give the same code and
        the same keys; they give the same messages too when no name is both a
        checker and an observer. */
    lemma CheckHealthOrderIndependent(o1: seq<Completion<C>>, o2: seq<Completion<C>>)
      requires ValidSchedule(o1) && ValidSchedule(o2)
      requires multiset(o1) == multiset(o2)
      ensures Reduce(o1).code == Reduce(o2).code
      ensures Reduce(o1).errors.Keys == Reduce(o2).errors.Keys
      ensures checkers.Keys !! observers.Keys ==> Reduce(o1) == Reduce(o2)
    {
      CodeAndKeysOrderIndependent(o1, o2);
      if checkers.Keys !! observers.Keys {
        DisjointScheduleHasUniqueNames(o1);
        OrderIndependentWhenNamesUnique(o1, o2);
      }
    }
  }
}
