/** Option values and the runs of a state machine, shared by every protocol model of the project. */
module Wrappers {
  datatype Option<+T> = None | Some(value: T)
}

/** A state machine is a partial step function: None says that the action is not enabled.
    A run is any finite sequence of enabled actions. */
module Runs {
  import opened Wrappers

  function Play<S, A>(next: (S, A) -> Option<S>, s: S, acts: seq<A>): Option<S>
  {
    if acts == [] then Some(s)
    else
      match next(s, acts[0])
      case None => None
      case Some(t) => Play(next, t, acts[1..])
  }

  /** What every step keeps holds at the end of every run. */
  lemma {:induction false} Invariant<S(!new), A(!new)>(next: (S, A) -> Option<S>, inv: S -> bool, s: S, acts: seq<A>)
    requires inv(s)
    requires forall x, a :: inv(x) && next(x, a).Some? ==> inv(next(x, a).value)
    ensures Play(next, s, acts).Some? ==> inv(Play(next, s, acts).value)
    decreases |acts|
  {
    if acts != [] && next(s, acts[0]).Some? {
      Invariant(next, inv, next(s, acts[0]).value, acts[1..]);
    }
  }

  /** A run can be cut at any point. */
  lemma {:induction false} Cut<S, A>(next: (S, A) -> Option<S>, s: S, before: seq<A>, after: seq<A>)
    ensures Play(next, s, before + after) ==
            match Play(next, s, before) { case None => None case Some(t) => Play(next, t, after) }
    decreases |before|
  {
    if before == [] {
      assert before + after == after;
    } else {
      assert (before + after)[1..] == before[1..] + after;
      if next(s, before[0]).Some? {
        Cut(next, next(s, before[0]).value, before[1..], after);
      }
    }
  }

  /** A run spelled out state by state. */
  lemma {:induction false} Along<S, A>(next: (S, A) -> Option<S>, states: seq<S>, acts: seq<A>)
    requires |states| == |acts| + 1
    requires forall i :: 0 <= i < |acts| ==> next(states[i], acts[i]) == Some(states[i + 1])
    ensures Play(next, states[0], acts) == Some(states[|acts|])
    decreases |acts|
  {
    if acts != [] {
      assert next(states[0], acts[0]) == Some(states[1]);
      forall i | 0 <= i < |acts[1..]| ensures next(states[1..][i], acts[1..][i]) == Some(states[1..][i + 1]) {
        assert states[1..][i] == states[i + 1] && acts[1..][i] == acts[i + 1];
      }
      Along(next, states[1..], acts[1..]);
    }
  }

  /** Runs of up to three actions. */
  lemma Single<S, A>(next: (S, A) -> Option<S>, s: S, a: A)
    ensures Play(next, s, [a]) == next(s, a)
  {
    assert [a][1..] == [];
    if next(s, a).Some? { assert Play(next, next(s, a).value, []) == next(s, a); }
  }

  lemma Double<S, A>(next: (S, A) -> Option<S>, s: S, a: A, b: A)
    requires next(s, a).Some?
    ensures Play(next, s, [a, b]) == next(next(s, a).value, b)
  {
    assert [a, b][1..] == [b];
    Single(next, next(s, a).value, b);
  }

  lemma Triple<S, A>(next: (S, A) -> Option<S>, s: S, a: A, b: A, c: A)
    requires next(s, a).Some? && next(next(s, a).value, b).Some?
    ensures Play(next, s, [a, b, c]) == next(next(next(s, a).value, b).value, c)
  {
    assert [a, b, c][1..] == [b, c];
    Double(next, next(s, a).value, b, c);
  }
}
