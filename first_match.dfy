/** The "first element in list order that satisfies a test" search that every combined
    builder and `getModule` perform. */
module FirstMatch {
  import opened Wrappers

  /** Index of the first element of `xs` satisfying `p`, scanning from the front. */
  function FirstIndex<T>(xs: seq<T>, p: T -> bool): (r: Option<nat>)
    ensures r.Some? ==> r.value < |xs| && p(xs[r.value])
    ensures r.Some? ==> forall j :: 0 <= j < r.value ==> !p(xs[j])
    ensures r.None? <==> forall j :: 0 <= j < |xs| ==> !p(xs[j])
    decreases |xs|
  {
    if xs == [] then None
    else if p(xs[0]) then Some(0)
    else match FirstIndex(xs[1..], p)
      case None => None
      case Some(k) => Some(k + 1)
  }

  /** The first match is unique: any index meeting the description is the one found. */
  lemma FirstIndexUnique<T>(xs: seq<T>, p: T -> bool, i: nat)
    requires i < |xs| && p(xs[i])
    requires forall j :: 0 <= j < i ==> !p(xs[j])
    ensures FirstIndex(xs, p) == Some(i)
  {
  }

  /** Elements appended after a match never change which element matches first. */
  lemma {:induction false} FirstIndexAppend<T>(xs: seq<T>, ys: seq<T>, p: T -> bool)
    ensures FirstIndex(xs, p).Some? ==> FirstIndex(xs + ys, p) == FirstIndex(xs, p)
    ensures FirstIndex(xs, p).None? ==>
      FirstIndex(xs + ys, p) == (match FirstIndex(ys, p) case None => None case Some(k) => Some(|xs| + k))
  {
    var zs := xs + ys;
    match FirstIndex(xs, p)
    case Some(i) =>
      assert forall j :: 0 <= j < i ==> zs[j] == xs[j];
      FirstIndexUnique(zs, p, i);
    case None =>
      match FirstIndex(ys, p)
      case Some(k) =>
        assert zs[|xs| + k] == ys[k];
        forall j | 0 <= j < |xs| + k ensures !p(zs[j]) {
          if j < |xs| { assert zs[j] == xs[j]; } else { assert zs[j] == ys[j - |xs|]; }
        }
        FirstIndexUnique(zs, p, |xs| + k);
      case None =>
        forall j | 0 <= j < |zs| ensures !p(zs[j]) {
          if j < |xs| { assert zs[j] == xs[j]; } else { assert zs[j] == ys[j - |xs|]; }
        }
  }
}
