/** The `health` struct as a value and the effect of each option on it:
    the specification that `Health.Health`'s constructor and `Apply` are
    proved against. */
module Builder {
  import opened Options

  /** The timeout `NewService` starts from: 30 seconds. */
  const DefaultTimeout: Duration := 30 * Second

  /** The registered fatal checkers, the registered observers (failures
      reported, status untouched) and the global timeout. */
  datatype Config<C> = Config(
    checkers: map<string, TimeoutChecker<C>>,
    observers: map<string, TimeoutChecker<C>>,
    timeout: Duration)

  /** The state `NewService` builds before applying any option. */
  function Initial<C>(): Config<C> {
    Config(map[], map[], DefaultTimeout)
  }

  /** What running the closure of `opt` does to the builder state: each option
      overwrites one map entry (wrapping the checker) or the timeout. */
  function ApplyOption<C>(h: Config<C>, opt: Option<C>): Config<C> {
    match opt
    case WithChecker(name, s) => h.(checkers := h.checkers[name := TimeoutChecker(s)])
    case WithObserver(name, s) => h.(observers := h.observers[name := TimeoutChecker(s)])
    case WithTimeout(d) => h.(timeout := d)
  }

  /** The state after applying `opts` one by one, in argument order, to the
      initial state. */
  function Build<C>(opts: seq<Option<C>>): Config<C> {
    if opts == [] then Initial()
    else ApplyOption(Build(opts[..|opts| - 1]), opts[|opts| - 1])
  }

  predicate RegistersChecker<C>(opt: Option<C>, name: string) {
    opt.WithChecker? && opt.name == name
  }

  predicate RegistersObserver<C>(opt: Option<C>, name: string) {
    opt.WithObserver? && opt.name == name
  }

  /** `i` is the last position of `opts` that registers a fatal checker
      under `name`. */
  predicate LastChecker<C>(opts: seq<Option<C>>, i: int, name: string) {
    && 0 <= i < |opts|
    && RegistersChecker(opts[i], name)
    && forall j :: i < j < |opts| ==> !RegistersChecker(opts[j], name)
  }

  /** `i` is the last position of `opts` that registers an observer under
      `name`. */
  predicate LastObserver<C>(opts: seq<Option<C>>, i: int, name: string) {
    && 0 <= i < |opts|
    && RegistersObserver(opts[i], name)
    && forall j :: i < j < |opts| ==> !RegistersObserver(opts[j], name)
  }

  /** `i` is the last position of `opts` that sets the timeout. */
  predicate LastTimeout<C>(opts: seq<Option<C>>, i: int) {
    && 0 <= i < |opts|
    && opts[i].WithTimeout?
    && forall j :: i < j < |opts| ==> !opts[j].WithTimeout?
  }

  /** With no options the service has no checkers, no observers and the
      default timeout. */
  lemma NoOptionsDefaults<C>()
    ensures Build<C>([]).checkers == map[]
    ensures Build<C>([]).observers == map[]
    ensures Build<C>([]).timeout == 30 * Second
  {
  }

  /** A name is a fatal checker exactly when some `WithChecker` registered it,
      and it holds the last checker registered under that name, wrapped. */
  lemma {:induction false} CheckerLastWins<C>(opts: seq<Option<C>>, name: string)
    ensures name in Build(opts).checkers <==>
              exists i :: 0 <= i < |opts| && RegistersChecker(opts[i], name)
    ensures forall i :: LastChecker(opts, i, name) ==>
              name in Build(opts).checkers &&
              Build(opts).checkers[name] == TimeoutChecker(opts[i].checker)
  {
    if opts != [] {
      var n := |opts| - 1;
      var pre := opts[..n];
      CheckerLastWins(pre, name);
      assert forall i :: 0 <= i < n ==> pre[i] == opts[i];
      forall i | LastChecker(opts, i, name)
        ensures name in Build(opts).checkers
        ensures Build(opts).checkers[name] == TimeoutChecker(opts[i].checker)
      {
        if i < n {
          assert LastChecker(pre, i, name);
        }
      }
    }
  }

  /** The same for observers and `WithObserver`. */
  lemma {:induction false} ObserverLastWins<C>(opts: seq<Option<C>>, name: string)
    ensures name in Build(opts).observers <==>
              exists i :: 0 <= i < |opts| && RegistersObserver(opts[i], name)
    ensures forall i :: LastObserver(opts, i, name) ==>
              name in Build(opts).observers &&
              Build(opts).observers[name] == TimeoutChecker(opts[i].checker)
  {
    if opts != [] {
      var n := |opts| - 1;
      var pre := opts[..n];
      ObserverLastWins(pre, name);
      assert forall i :: 0 <= i < n ==> pre[i] == opts[i];
      forall i | LastObserver(opts, i, name)
        ensures name in Build(opts).observers
        ensures Build(opts).observers[name] == TimeoutChecker(opts[i].checker)
      {
        if i < n {
          assert LastObserver(pre, i, name);
        }
      }
    }
  }

  /** The timeout is that of the last `WithTimeout`, or 30 seconds when there is
      none. */
  lemma {:induction false} TimeoutLastWins<C>(opts: seq<Option<C>>)
    ensures (forall i :: 0 <= i < |opts| ==> !opts[i].WithTimeout?) ==>
              Build(opts).timeout == DefaultTimeout
    ensures forall i :: LastTimeout(opts, i) ==>
              Build(opts).timeout == opts[i].timeout
  {
    if opts != [] {
      var n := |opts| - 1;
      var pre := opts[..n];
      TimeoutLastWins(pre);
      assert forall i :: 0 <= i < n ==> pre[i] == opts[i];
      forall i | LastTimeout(opts, i)
        ensures Build(opts).timeout == opts[i].timeout
      {
        if i < n {
          assert LastTimeout(pre, i);
        }
      }
    }
  }
}
