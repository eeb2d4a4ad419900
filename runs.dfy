/**
 * A loop that maps the elements of a sequence in order and stops at the first element whose
 * mapping fails, keeping what it produced before it; the collector's write loop has this
 * shape, with a timestamp parse that throws as the failure.
 */
module Runs {
  import opened Wrappers

  /** The results for the elements before the first failure, in order. */
  function MapUntilNone<A, B>(f: A -> Option<B>, xs: seq<A>): (ys: seq<B>)
    ensures |ys| <= |xs|
    ensures forall j :: 0 <= j < |ys| ==> f(xs[j]) == Some(ys[j])
  {
    if xs == [] then []
    else
      match f(xs[0])
      case None => []
      case Some(y) => [y] + MapUntilNone(f, xs[1..])
  }

  /** The index of the first element whose mapping fails, if there is one. */
  function FirstNone<A, B>(f: A -> Option<B>, xs: seq<A>): (r: Option<nat>)
    ensures r.Some? ==> r.value < |xs| && f(xs[r.value]).None?
    ensures forall j :: 0 <= j < |xs| && (r.None? || j < r.value) ==> f(xs[j]).Some?
  {
    if xs == [] then None
    else if f(xs[0]).None? then Some(0)
    else
      match FirstNone(f, xs[1..])
      case None => None
      case Some(i) => Some(i + 1)
  }

  /** One result per element before the first failure, and one per element when none fails. */
  lemma {:induction false} MapUntilNoneLength<A, B>(f: A -> Option<B>, xs: seq<A>)
    ensures FirstNone(f, xs).None? ==> |MapUntilNone(f, xs)| == |xs|
    ensures FirstNone(f, xs).Some? ==> |MapUntilNone(f, xs)| == FirstNone(f, xs).value
  {
    if xs != [] && f(xs[0]).Some? {
      MapUntilNoneLength(f, xs[1..]);
    }
  }

  /** Appending an element that maps to `y` after elements that all map appends `y`. */
  lemma {:induction false} MapUntilNoneExtend<A, B>(f: A -> Option<B>, xs: seq<A>, x: A, y: B)
    requires FirstNone(f, xs) == None
    requires f(x) == Some(y)
    ensures MapUntilNone(f, xs + [x]) == MapUntilNone(f, xs) + [y]
  {
    if xs == [] {
      assert xs + [x] == [x];
    } else {
      assert (xs + [x])[1..] == xs[1..] + [x];
      MapUntilNoneExtend(f, xs[1..], x, y);
    }
  }

  /** The same, for the prefix of a sequence grown by its next element. */
  lemma MapUntilNonePrefix<A, B>(f: A -> Option<B>, xs: seq<A>, i: nat, y: B)
    requires i < |xs|
    requires FirstNone(f, xs[..i]) == None
    requires f(xs[i]) == Some(y)
    ensures MapUntilNone(f, xs[..i + 1]) == MapUntilNone(f, xs[..i]) + [y]
  {
    assert xs[..i + 1] == xs[..i] + [xs[i]];
    MapUntilNoneExtend(f, xs[..i], xs[i], y);
  }

  /** Nothing from the first failing element on contributes a result. */
  lemma {:induction false} MapUntilNoneStop<A, B>(f: A -> Option<B>, xs: seq<A>, i: nat)
    requires i < |xs| && f(xs[i]).None?
    requires FirstNone(f, xs[..i]) == None
    ensures MapUntilNone(f, xs) == MapUntilNone(f, xs[..i])
    ensures FirstNone(f, xs) == Some(i)
  {
    if i > 0 {
      assert xs[..i][1..] == xs[1..][..i - 1];
      MapUntilNoneStop(f, xs[1..], i - 1);
    }
  }

  /** A prefix with no failure stays so when the next element maps. */
  lemma FirstNoneStep<A, B>(f: A -> Option<B>, xs: seq<A>, i: nat)
    requires i < |xs| && f(xs[i]).Some?
    requires FirstNone(f, xs[..i]) == None
    ensures FirstNone(f, xs[..i + 1]) == None
  {
    var prefix := xs[..i + 1];
    assert forall j :: 0 <= j < i ==> prefix[j] == xs[..i][j];
  }

  /** Two mappings that fail on the same elements fail first at the same index. */
  lemma {:induction false} SameFailures<A, B, C>(f: A -> Option<B>, g: A -> Option<C>, xs: seq<A>)
    requires forall x :: f(x).Some? == g(x).Some?
    ensures FirstNone(f, xs) == FirstNone(g, xs)
  {
    if xs != [] {
      SameFailures(f, g, xs[1..]);
    }
  }
}
