/** Option values and first-match-wins search over an ordered sequence,
    the resolution policy shared by the response rules, the substitution
    rules and the reflection table. */
module Common {

  datatype Option<+T> = None | Some(value: T)

  /** The index of the first element of `xs` that satisfies `p`, if any.
      Earlier elements always win over later ones. */
  function FirstIndex<T>(xs: seq<T>, p: T -> bool): (r: Option<nat>)
    ensures r.Some? ==> r.value < |xs| && p(xs[r.value])
    ensures r.Some? ==> forall k :: 0 <= k < r.value ==> !p(xs[k])
    ensures r.None? <==> forall k :: 0 <= k < |xs| ==> !p(xs[k])
    decreases |xs|
  {
    if xs == [] then None
    else if p(xs[0]) then Some(0)
    else match FirstIndex(xs[1..], p)
      case None => None
      case Some(i) => Some(i + 1)
  }

  /** Elements that do not satisfy `p` in front of a sequence shift the
      first match by their number and change nothing else. */
  lemma FirstIndexSkipsPrefix<T>(pre: seq<T>, rest: seq<T>, p: T -> bool)
    requires forall k :: 0 <= k < |pre| ==> !p(pre[k])
    ensures FirstIndex(pre + rest, p) ==
            match FirstIndex(rest, p)
            case None => None
            case Some(i) => Some(|pre| + i)
  {
    var xs := pre + rest;
    assert forall k :: 0 <= k < |rest| ==> xs[|pre| + k] == rest[k];
    match FirstIndex(rest, p)
    case None =>
      assert forall k :: 0 <= k < |xs| ==> !p(xs[k]) by {
        forall k | 0 <= k < |xs| ensures !p(xs[k]) {
          if k >= |pre| { assert xs[k] == rest[k - |pre|]; }
        }
      }
    case Some(i) =>
      assert p(xs[|pre| + i]);
  }

  /** An element that satisfies `p` with none before it that does is the
      first match. */
  lemma FirstIndexAt<T>(xs: seq<T>, p: T -> bool, i: nat)
    requires i < |xs| && p(xs[i])
    requires forall k :: 0 <= k < i ==> !p(xs[k])
    ensures FirstIndex(xs, p) == Some(i)
  {
  }

  /** Elements added behind a match do not change the first match. */
  lemma FirstIndexIgnoresSuffix<T>(xs: seq<T>, more: seq<T>, p: T -> bool)
    requires FirstIndex(xs, p).Some?
    ensures FirstIndex(xs + more, p) == FirstIndex(xs, p)
  {
    var i := FirstIndex(xs, p).value;
    assert forall k :: 0 <= k <= i ==> (xs + more)[k] == xs[k];
    FirstIndexAt(xs + more, p, i);
  }
}
