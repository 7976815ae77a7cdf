/**
 * The penalty-shootout polling loop (`Action.play_shootout`, action.py).
 *
 * Each poll compares the screen with the defence prompt and then, if that
 * failed, with the offence prompt, both at threshold 0.7. The screens, and
 * so the scores, come from the device; here they are the input sequence.
 */
module Shootout {
  import opened Matching

  /** The two scores one iteration of the loop obtains. */
  datatype Poll = Poll(defenceScore: real, offenceScore: real)

  /** What the bot does after a matching poll (the corner itself is random and not modelled). */
  datatype Response = DefendPenalty | KickPenalty

  const PromptThreshold: real := 0.7
  const MaxMisses: nat := 10

  /** True when neither prompt was found in the poll. */
  predicate Miss(p: Poll)
  {
    !MatchTemplate(p.defenceScore, PromptThreshold).matched
    && !MatchTemplate(p.offenceScore, PromptThreshold).matched
  }

  /** The response to one poll: defence is tested first. */
  function React(p: Poll): (r: seq<Response>)
    ensures r == [] <==> Miss(p)
    ensures p.defenceScore > PromptThreshold ==> r == [DefendPenalty]
    ensures r == [KickPenalty] <==> p.defenceScore <= PromptThreshold < p.offenceScore
  {
    if MatchTemplate(p.defenceScore, PromptThreshold).matched then [DefendPenalty]
    else if MatchTemplate(p.offenceScore, PromptThreshold).matched then [KickPenalty]
    else []
  }

  /** The responses to a run of polls, in order. */
  function Responses(polls: seq<Poll>): seq<Response>
  {
    if polls == [] then [] else Responses(polls[..|polls| - 1]) + React(polls[|polls| - 1])
  }

  /** `not_found_count` after a run of polls: reset by a match, one more after a miss. */
  function MissCount(polls: seq<Poll>): nat
  {
    if polls == [] then 0
    else if Miss(polls[|polls| - 1]) then MissCount(polls[..|polls| - 1]) + 1
    else 0
  }

  /** The last `k` polls were all misses. */
  ghost predicate EndsWithMisses(polls: seq<Poll>, k: nat)
  {
    k <= |polls| && forall i :: |polls| - k <= i < |polls| ==> Miss(polls[i])
  }

  /** The counter is exactly the length of the trailing run of misses. */
  lemma {:induction false} MissCountIsTrailingRun(polls: seq<Poll>, k: nat)
    ensures MissCount(polls) >= k <==> EndsWithMisses(polls, k)
  {
    if polls != [] && k > 0 {
      var init := polls[..|polls| - 1];
      MissCountIsTrailingRun(init, k - 1);
      if EndsWithMisses(polls, k) {
        assert EndsWithMisses(init, k - 1) by {
          forall i | |init| - (k - 1) <= i < |init| ensures Miss(init[i]) {
            assert init[i] == polls[i];
          }
        }
      }
      if MissCount(polls) >= k {
        forall i | |polls| - k <= i < |polls| ensures Miss(polls[i]) {
          if i < |polls| - 1 {
            assert init[i] == polls[i];
          }
        }
      }
    }
  }

  /**
   * `play_shootout`: poll until ten consecutive polls have found neither
   * prompt. The loop also stops when the given polls run out, in which case
   * `finished` is false.
   */
  method PlayShootout(polls: seq<Poll>) returns (finished: bool, used: nat, responses: seq<Response>)
    ensures used <= |polls|
    ensures finished ==> EndsWithMisses(polls[..used], MaxMisses)
    ensures forall k :: 0 <= k < used ==> !EndsWithMisses(polls[..k], MaxMisses)
    ensures !finished ==> used == |polls| && !EndsWithMisses(polls, MaxMisses)
    ensures responses == Responses(polls[..used])
  {
    var notFoundCount := 0;
    used, finished, responses := 0, false, [];
    while used < |polls|
      invariant used <= |polls|
      invariant notFoundCount == MissCount(polls[..used]) < MaxMisses
      invariant responses == Responses(polls[..used])
      invariant forall k :: 0 <= k <= used ==> MissCount(polls[..k]) < MaxMisses
    {
      var p := polls[used];
      assert polls[..used + 1][..used] == polls[..used];
      if MatchTemplate(p.defenceScore, PromptThreshold).matched {
        responses := responses + [DefendPenalty];
        notFoundCount := 0;
        used := used + 1;
        continue;
      }
      if MatchTemplate(p.offenceScore, PromptThreshold).matched {
        responses := responses + [KickPenalty];
        notFoundCount := 0;
        used := used + 1;
        continue;
      }
      notFoundCount := notFoundCount + 1;
      used := used + 1;
      if notFoundCount == MaxMisses {
        finished := true;
        break;
      }
    }
    MissCountIsTrailingRun(polls[..used], MaxMisses);
    forall k | 0 <= k < used ensures !EndsWithMisses(polls[..k], MaxMisses) {
      MissCountIsTrailingRun(polls[..k], MaxMisses);
    }
    assert polls[..|polls|] == polls;
  }
}
