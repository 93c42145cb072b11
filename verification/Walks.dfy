/**
  Runs that can be cut: a walk is the sequence of durable states an operation passes through, one
  a primitive step, and a process stopped by a crash or an error is found in one of them.
*/
module Walks {
  /** The state reached after the steps. */
  function End<S>(s: S, steps: seq<S>): S {
    if steps == [] then s else steps[|steps| - 1]
  }

  /** The state in which a process is found that was cut after `power` steps. */
  function Cut<S>(s: S, steps: seq<S>, power: nat): S {
    if power < |steps| then End(s, steps[..power]) else End(s, steps)
  }

  /** The steps that are taken with `power`. */
  function Taken<S>(steps: seq<S>, power: nat): seq<S> {
    if power < |steps| then steps[..power] else steps
  }

  /** From `s` with `power`, taking `steps` leads to `s'`; `ok` says that all were taken. */
  predicate Took<S(==)>(s: S, power: nat, steps: seq<S>, s': S, left: nat, ok: bool) {
    && ok == (|steps| <= power)
    && s' == Cut(s, steps, power)
    && left == if ok then power - |steps| else 0
  }

  /** Taking `first` and, unless it was cut, `rest` is taking both. */
  lemma TookBoth<S>(s: S, power: nat, first: seq<S>, s1: S, power1: nat, ok1: bool,
                    rest: seq<S>, s2: S, power2: nat, ok: bool)
    requires Took(s, power, first, s1, power1, ok1)
    requires if ok1 then Took(s1, power1, rest, s2, power2, ok)
             else s2 == s1 && power2 == power1 && !ok
    ensures Took(s, power, first + rest, s2, power2, ok)
  {
    var steps := first + rest;
    if !ok1 {
      assert steps[..power] == first[..power];
    } else if power < |steps| {
      assert steps[..power] == first + rest[..power1];
    }
  }

  lemma TookNothing<S>(s: S, power: nat, steps: seq<S>)
    ensures Took(s, power, steps[..0], s, power, true)
  {}

  lemma TookToTheEnd<S>(s: S, power: nat, next: S, s1: S, left: nat, ok: bool)
    requires Took(s, power, [next], s1, left, ok)
    ensures ok ==> s1 == next
  {}

  /** One step more. */
  lemma TookOneMore<S>(s: S, power: nat, steps: seq<S>, i: nat, s1: S, power1: nat, s2: S, power2: nat, ok: bool)
    requires i < |steps| && Took(s, power, steps[..i], s1, power1, true)
    requires Took(s1, power1, [steps[i]], s2, power2, ok)
    ensures Took(s, power, steps[..i + 1], s2, power2, ok)
  {
    TookBoth(s, power, steps[..i], s1, power1, true, [steps[i]], s2, power2, ok);
    assert steps[..i] + [steps[i]] == steps[..i + 1];
  }

  /** Having been cut among the first steps is having been cut among all, and the first steps may be all. */
  lemma TookInAll<S>(s: S, power: nat, steps: seq<S>, i: nat, s1: S, left: nat, ok: bool)
    requires i <= |steps| && Took(s, power, steps[..i], s1, left, ok) && (ok ==> i == |steps|)
    ensures Took(s, power, steps, s1, left, ok)
  {
    if ok {
      assert steps[..i] == steps;
    } else {
      TookBoth(s, power, steps[..i], s1, left, false, steps[i..], s1, left, false);
      assert steps[..i] + steps[i..] == steps;
    }
  }
}
