/** The selection the name `maxSoFar` suggests but the code does not do: a
    strict maximum, where the best score is raised on every improvement and
    ties keep the earlier attribute. It is not part of the handler's
    behaviour; it is compared here with the selection the code performs. */
module Selection {
  import opened Js
  import opened Reducer

  /** The scan from position `i` with best score `best` at index `idx`. */
  function BestFrom(s: seq<int>, i: nat, best: int, idx: nat): (k: nat)
    requires i <= |s|
    ensures k == idx || (i <= k < |s| && s[k] > best)
    decreases |s| - i
  {
    if i == |s| then idx
    else if s[i] > best then BestFrom(s, i + 1, s[i], i)
    else BestFrom(s, i + 1, best, idx)
  }

  /** What holds of the strict-maximum choice `k` over `s` with threshold `t`. */
  ghost predicate IsLeftmostMaxAbove(s: seq<int>, t: int, k: nat) {
    || (k == |s| && forall j :: 0 <= j < |s| ==> s[j] <= t)
    || (&& k < |s| && s[k] > t
        && (forall j :: 0 <= j < k ==> s[j] < s[k])
        && (forall j :: k < j < |s| ==> s[j] <= s[k]))
  }

  /** The scan keeps its state invariant and ends on the leftmost strict maximum. */
  lemma {:induction false} BestFromIsLeftmostMax(s: seq<int>, t: int, i: nat, best: int, idx: nat)
    requires i <= |s|
    requires
      || (idx == |s| && best == t && forall j :: 0 <= j < i ==> s[j] <= t)
      || (&& idx < i && best == s[idx] && best > t
          && (forall j :: 0 <= j < idx ==> s[j] < best)
          && (forall j :: idx < j < i ==> s[j] <= best))
    ensures IsLeftmostMaxAbove(s, t, BestFrom(s, i, best, idx))
    decreases |s| - i
  {
    if i < |s| {
      if s[i] > best {
        BestFromIsLeftmostMax(s, t, i + 1, s[i], i);
      } else {
        BestFromIsLeftmostMax(s, t, i + 1, best, idx);
      }
    }
  }

  /** The strict maximum above `t`, leftmost on ties, or `|s|` when no score exceeds `t`. */
  function StrictMax(s: seq<int>, t: int): (k: nat)
    ensures k <= |s|
    ensures k == |s| ==> forall j :: 0 <= j < |s| ==> s[j] <= t
    ensures k < |s| ==> s[k] > t && forall j :: 0 <= j < |s| ==> s[j] <= s[k]
    ensures k < |s| ==> forall j :: 0 <= j < k ==> s[j] < s[k]
  {
    BestFromIsLeftmostMax(s, t, 0, t, |s|);
    BestFrom(s, 0, t, |s|)
  }

  /** The strict maximum is never later than the code's choice, and the two
      agree exactly when nothing qualifies or every score before the code's
      choice is strictly below it. */
  lemma CompareWithCode(s: seq<int>, t: int)
    ensures StrictMax(s, t) <= LastAbove(s, t)
    ensures
      var k := LastAbove(s, t);
      StrictMax(s, t) == k <==> k == |s| || forall j :: 0 <= j < k ==> s[j] < s[k]
  {
  }

  /** All four attributes VERY_LIKELY: the code chooses surprise, the strict maximum joy. */
  lemma AllVeryLikelyDiffers()
    ensures
      var face := FaceOf("VERY_LIKELY", "VERY_LIKELY", "VERY_LIKELY", "VERY_LIKELY");
      && Decision(face) == 3
      && StrictMax(Scores(Attributes(face)), Threshold) == 0
  {
  }
}
