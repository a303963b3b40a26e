/**
 * The first-match scan that the container and its registries all perform:
 * walk a sequence in order and stop at the first element a test accepts.
 */
module Search {
  import opened Types

  /**
   * The index of the first element of `s`, at position `i` or later, that
   * `accepts` holds of; None when there is none.
   */
  function FirstFrom<T>(s: seq<T>, accepts: T -> bool, i: nat): (k: Option<nat>)
    requires i <= |s|
    ensures k.Some? ==> i <= k.value < |s| && accepts(s[k.value])
    ensures k.Some? ==> forall j :: i <= j < k.value ==> !accepts(s[j])
    ensures k.None? <==> forall j :: i <= j < |s| ==> !accepts(s[j])
    decreases |s| - i
  {
    if i == |s| then None
    else if accepts(s[i]) then Some(i)
    else FirstFrom(s, accepts, i + 1)
  }

  /** The index of the first element of `s` that `accepts` holds of. */
  function First<T>(s: seq<T>, accepts: T -> bool): (k: Option<nat>)
    ensures k.Some? ==> k.value < |s| && accepts(s[k.value])
    ensures k.Some? ==> forall j :: 0 <= j < k.value ==> !accepts(s[j])
    ensures k.None? <==> forall j :: 0 <= j < |s| ==> !accepts(s[j])
  {
    FirstFrom(s, accepts, 0)
  }
}
