/** The reduction inside `CheckHealth`, written as a sequential fold. The
    source runs one goroutine per registered checker and lets each one, under
    a mutex, record its failure; the order in which they finish is not fixed.
    Here that order is an input: a sequence of completions, folded from the
    first to finish to the last. */
module Verdict {
  import opened Checker
  import opened Options

  const StatusOK: int := 200
  const StatusServiceUnavailable: int := 503

  /** Which map a checker was registered in: `checkers` (its failure makes
      the service unavailable) or `observers` (its failure is only reported). */
  datatype Bucket = Fatal | Observer

  /** One wrapped checker finishing: the name it is registered under, its
      bucket, the wrapper itself and how its race against the deadline went. */
  datatype Completion<C> = Completion(name: string, bucket: Bucket, wrapped: TimeoutChecker<C>, race: Race) {
    /** The result the goroutine sees from the wrapped checker. */
    function Result(): Outcome {
      wrapped.Check(race)
    }

    predicate Failed() {
      Result().Fail?
    }
  }

  /** The status code and the name-to-message map `CheckHealth` returns. */
  datatype Verdict = Verdict(code: int, errors: map<string, string>)

  /** What one goroutine does after its check returns: a failure writes its
      message under its name and, for a fatal checker, sets 503. */
  function Record<C>(v: Verdict, c: Completion<C>): Verdict {
    match c.Result()
    case Pass => v
    case Fail(msg) =>
      Verdict(if c.bucket == Fatal then StatusServiceUnavailable else v.code, v.errors[c.name := msg])
  }

  /** The pair returned after every completion in `order` has been recorded,
      starting from 200 and an empty map. */
  function Reduce<C>(order: seq<Completion<C>>): Verdict {
    if order == [] then Verdict(StatusOK, map[])
    else Record(Reduce(order[..|order| - 1]), order[|order| - 1])
  }

  /** Some fatal checker in `order` failed. */
  ghost predicate FatalFailure<C>(order: seq<Completion<C>>) {
    exists c :: c in order && c.bucket == Fatal && c.Failed()
  }

  /** The names of the checkers in `order` that failed, of either bucket. */
  ghost function FailedNames<C>(order: seq<Completion<C>>): set<string> {
    set c | c in order && c.Failed() :: c.name
  }

  /** No two different completions in `order` share a name. */
  ghost predicate UniqueNames<C>(order: seq<Completion<C>>) {
    forall c, d :: c in order && d in order && c.name == d.name ==> c == d
  }

  /** The code is 200 or 503, and 503 exactly when a fatal checker failed;
      observer failures never change it. */
  lemma {:induction false} ReduceCode<C>(order: seq<Completion<C>>)
    ensures Reduce(order).code == StatusOK || Reduce(order).code == StatusServiceUnavailable
    ensures Reduce(order).code == StatusServiceUnavailable <==> FatalFailure(order)
  {
    if order != [] {
      var n := |order| - 1;
      ReduceCode(order[..n]);
      assert order == order[..n] + [order[n]];
      assert forall c :: c in order <==> c in order[..n] || c == order[n];
    }
  }

  /** The map's keys are exactly the names of the failed checkers, fatal and
      observer alike. */
  lemma {:induction false} ReduceKeys<C>(order: seq<Completion<C>>)
    ensures Reduce(order).errors.Keys == FailedNames(order)
  {
    if order != [] {
      var n := |order| - 1;
      ReduceKeys(order[..n]);
      assert order == order[..n] + [order[n]];
      assert forall c :: c in order <==> c in order[..n] || c == order[n];
    }
  }

  /** A failed checker's name maps to the message of the last failure recorded
      under that name. When a name is both a fatal checker and an observer,
      whichever of the two finished last decides the message. */
  lemma {:induction false} ReduceLastWrite<C>(order: seq<Completion<C>>, i: int)
    requires 0 <= i < |order| && order[i].Failed()
    requires forall j :: i < j < |order| ==> !(order[j].Failed() && order[j].name == order[i].name)
    ensures order[i].name in Reduce(order).errors
    ensures Reduce(order).errors[order[i].name] == order[i].Result().msg
  {
    var n := |order| - 1;
    if i < n {
      ReduceLastWrite(order[..n], i);
    }
  }

  /** With unique names, every failed checker's own message is in the map. */
  lemma {:induction false} ReduceUniqueName<C>(order: seq<Completion<C>>, c: Completion<C>)
    requires UniqueNames(order)
    requires c in order && c.Failed()
    ensures c.name in Reduce(order).errors
    ensures Reduce(order).errors[c.name] == c.Result().msg
  {
    var n := |order| - 1;
    if order[n] != c {
      assert order == order[..n] + [order[n]];
      assert c in order[..n];
      ReduceUniqueName(order[..n], c);
    }
  }

  /** With unique names, every failed checker is reported with its own
      message, and every checker that lost the race to the deadline with the
      timeout message. */
  lemma ReduceReportsEachFailure<C>(order: seq<Completion<C>>)
    requires UniqueNames(order)
    ensures forall c :: c in order && c.Failed() ==>
              c.name in Reduce(order).errors && Reduce(order).errors[c.name] == c.Result().msg
    ensures forall c :: c in order && c.race.deadlineFirst ==>
              c.name in Reduce(order).errors && Reduce(order).errors[c.name] == MaxCheckTimeExceeded
  {
    forall c | c in order && c.Failed()
      ensures c.name in Reduce(order).errors && Reduce(order).errors[c.name] == c.Result().msg
    {
      ReduceUniqueName(order, c);
    }
  }

  /** Once some prefix of the completions has produced 503, the final code is
      503: the code never moves back to 200. */
  lemma {:induction false} CodeNeverRecovers<C>(order: seq<Completion<C>>, k: nat)
    requires k <= |order|
    requires Reduce(order[..k]).code == StatusServiceUnavailable
    ensures Reduce(order).code == StatusServiceUnavailable
  {
    if k < |order| {
      var n := |order| - 1;
      assert order[..n][..k] == order[..k];
      CodeNeverRecovers(order[..n], k);
    } else {
      assert order[..k] == order;
    }
  }

  /** The code and the set of keys do not depend on the order in which the
      checkers finish. */
  lemma CodeAndKeysOrderIndependent<C>(o1: seq<Completion<C>>, o2: seq<Completion<C>>)
    requires multiset(o1) == multiset(o2)
    ensures Reduce(o1).code == Reduce(o2).code
    ensures Reduce(o1).errors.Keys == Reduce(o2).errors.Keys
  {
    assert forall c :: c in o1 <==> c in o2 by {
      forall c ensures c in o1 <==> c in o2 {
        assert c in o1 <==> c in multiset(o1);
        assert c in o2 <==> c in multiset(o2);
      }
    }
    ReduceCode(o1);
    ReduceCode(o2);
    ReduceKeys(o1);
    ReduceKeys(o2);
  }

  /** When no name is shared, the whole result, messages included, does not
      depend on the order in which the checkers finish. */
  lemma OrderIndependentWhenNamesUnique<C>(o1: seq<Completion<C>>, o2: seq<Completion<C>>)
    requires multiset(o1) == multiset(o2)
    requires UniqueNames(o1)
    ensures Reduce(o1) == Reduce(o2)
  {
    assert forall c :: c in o1 <==> c in o2 by {
      forall c ensures c in o1 <==> c in o2 {
        assert c in o1 <==> c in multiset(o1);
        assert c in o2 <==> c in multiset(o2);
      }
    }
    CodeAndKeysOrderIndependent(o1, o2);
    ReduceKeys(o1);
    var e1, e2 := Reduce(o1).errors, Reduce(o2).errors;
    forall name | name in e1 ensures e1[name] == e2[name] {
      var c :| c in o1 && c.Failed() && c.name == name;
      ReduceUniqueName(o1, c);
      ReduceUniqueName(o2, c);
    }
  }

  /** A name registered in both buckets whose two checkers fail with different
      messages: the reported message depends on which finished last. */
  lemma SharedNameDependsOnOrder<C>(fatal: Completion<C>, observer: Completion<C>)
    requires fatal.name == observer.name
    requires fatal.Failed() && observer.Failed()
    requires fatal.Result().msg != observer.Result().msg
    ensures Reduce([fatal, observer]).errors != Reduce([observer, fatal]).errors
  {
    assert [fatal, observer][..1] == [fatal];
    assert [observer, fatal][..1] == [observer];
    assert Reduce([fatal, observer]).errors[fatal.name] == observer.Result().msg;
  }
}
