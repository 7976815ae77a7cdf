/**
 * The decision that closes `Action.match_template` and the turn
 * classification inside `Action.play_game` (action.py).
 *
 * The similarity score itself is computed by `image_processing.diff_image`,
 * which is not part of this model: a score is an input here.
 */
module Matching {

  /** Result of comparing a template with a screen region. */
  datatype MatchResult = MatchResult(matched: bool, score: real)

  /** Whose turn the two turn-indicator photos say it is. */
  datatype Turn = Mine | Opponent | InProgress

  /** A channel value of an 8-bit image. */
  type Byte = b: int | 0 <= b < 256

  /** `match_template`'s verdict: a match needs a score STRICTLY above the threshold. */
  function MatchTemplate(score: real, threshold: real): (r: MatchResult)
    ensures r.score == score
    ensures r.matched <==> score > threshold
  {
    if score > threshold then MatchResult(true, score) else MatchResult(false, score)
  }

  /** A stricter threshold (0.95 instead of 0.8, say) can only turn matches into non-matches. */
  lemma StricterThresholdMatchesLess(score: real, loose: real, strict: real)
    requires loose <= strict
    ensures MatchTemplate(score, strict).matched ==> MatchTemplate(score, loose).matched
    ensures !MatchTemplate(strict, strict).matched
  {
  }

  /** Pixel-wise `image1 - image2` on uint8 images: NumPy wraps the difference modulo 256. */
  function WrappedDiff(a: seq<Byte>, b: seq<Byte>): seq<Byte>
    requires |a| == |b|
  {
    seq(|a|, i requires 0 <= i < |a| => (a[i] as int - b[i] as int) % 256)
  }

  /** `np.sum` of a region of the difference image. */
  function Sum(s: seq<Byte>): nat
  {
    if s == [] then 0 else s[0] + Sum(s[1..])
  }

  /** The wrapped difference sums to zero exactly when the two regions are identical. */
  lemma {:induction false} DiffSumZeroIffSame(a: seq<Byte>, b: seq<Byte>)
    requires |a| == |b|
    ensures Sum(WrappedDiff(a, b)) == 0 <==> a == b
  {
    if |a| > 0 {
      var d := WrappedDiff(a, b);
      assert d[1..] == WrappedDiff(a[1..], b[1..]);
      DiffSumZeroIffSame(a[1..], b[1..]);
      assert d[0] == 0 <==> a[0] == b[0];
      assert a == [a[0]] + a[1..] && b == [b[0]] + b[1..];
    }
  }

  /**
   * Turn classification from two consecutive frames. The arguments are the
   * pixels of the player's photo region and of the opponent's photo region
   * in the first and the second frame; the player's region is tested first.
   */
  function ClassifyTurn(myBefore: seq<Byte>, myAfter: seq<Byte>,
                        opBefore: seq<Byte>, opAfter: seq<Byte>): (t: Turn)
    requires |myBefore| == |myAfter| && |opBefore| == |opAfter|
    ensures t == Mine <==> myBefore != myAfter
    ensures t == Opponent <==> myBefore == myAfter && opBefore != opAfter
    ensures t == InProgress <==> myBefore == myAfter && opBefore == opAfter
  {
    DiffSumZeroIffSame(myBefore, myAfter);
    DiffSumZeroIffSame(opBefore, opAfter);
    if Sum(WrappedDiff(myBefore, myAfter)) != 0 then Mine
    else if Sum(WrappedDiff(opBefore, opAfter)) != 0 then Opponent
    else InProgress
  }
}
