/**
 * `match_cheak` of src/lib.rs: the brute-force search of the sliding
 * window for a candidate string, scanning start positions oldest first.
 *
 * The result is a backward distance counted from the end of the window
 * plus one, so the oldest occurrence, found first, is the largest
 * distance; -1 stands for "no occurrence".
 */
module MatchFinder {

  /** `c` occurs in `w` starting at index `i`. */
  predicate OccursAt<T(==)>(w: seq<T>, c: seq<T>, i: int)
  {
    0 <= i && i + |c| <= |w| && w[i..i + |c|] == c
  }

  /**
   * The scan from start index `i` on: the first `i` with an occurrence
   * turns into the distance `|w| - |c| - i + 1`.
   */
  function ScanFrom<T(==)>(w: seq<T>, c: seq<T>, i: nat): (d: int)
    requires |c| <= |w| && i <= |w| - |c| + 1
    ensures d == -1 <==> forall k :: i <= k <= |w| - |c| ==> !OccursAt(w, c, k)
    ensures d != -1 ==> 1 <= d <= |w| - |c| + 1 - i && OccursAt(w, c, |w| - |c| + 1 - d)
    ensures d != -1 ==> forall k :: i <= k < |w| - |c| + 1 - d ==> !OccursAt(w, c, k)
    decreases |w| - |c| + 1 - i
  {
    if i == |w| - |c| + 1 then -1
    else if OccursAt(w, c, i) then |w| - |c| - i + 1
    else ScanFrom(w, c, i + 1)
  }

  /**
   * `match_cheak(window, cheak)`: -1 exactly when the candidate is longer
   * than the window or occurs nowhere in it; otherwise a distance `d` in
   * `1 .. |window| - |cheak| + 1` at which it occurs, and no occurrence
   * starts further back, so none has a larger distance.
   */
  function MatchCheak<T(==)>(window: seq<T>, cheak: seq<T>): (d: int)
    ensures d == -1 <==> |window| < |cheak| || forall k :: !OccursAt(window, cheak, k)
    ensures d != -1 ==>
      && 1 <= d <= |window| - |cheak| + 1
      && OccursAt(window, cheak, |window| - |cheak| + 1 - d)
      && forall k :: 0 <= k < |window| - |cheak| + 1 - d ==> !OccursAt(window, cheak, k)
  {
    if |window| < |cheak| then -1 else ScanFrom(window, cheak, 0)
  }
}
