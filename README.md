# smbot decision logic in Dafny

smbot plays a mobile football game through screenshots and simulated
swipes. This project models the decision code of its `Action` class
(`action.py`), leaving out the device I/O and the image processing around it:

- **Matching** (`matching.dfy`): the verdict of `match_template` (a match needs
  a score strictly above the threshold). It also models how `play_game` works
  out whose turn it is from the wrapped uint8 difference of two frames over the
  two photo regions.
- **UniformColors** (`uniform_colors.dfy`): the two halves of team
  segmentation.
  - `estimate_uniform_colors` keeps every extended-hue value that holds
    strictly more than 20% of the unmasked calibration pixels.
  - `get_player_locations` ORs together one inclusive band mask per uniform
    colour. Each band has a margin of 2 on the hue side (0..179) and 15 on the
    grey side (180..255), shrunk so that it never crosses a side's edge.
- **Shootout** (`shootout.dfy`): the `play_shootout` polling loop. Defence is
  tested before offence. A match resets the miss counter. Ten consecutive
  misses end the shootout.
- **ShotPlanner** (`shot_planner.dfy`): the discrete parts of `shoot`.
  - It chooses the goal-post line by rho rank and rejects implausible
    positions.
  - Two column scans locate the ends of the post, and a far post is rejected.
  - It aims 10 pixels inside the end farther from the centre, and rejects a
    target below the kick start (the bot's own goal).
- **PassPlanner** (`pass_planner.dfy`): `kick_pass`.
  - It removes players detected in both teams.
  - For each of the zones forward, backward1, backward2 and header it finds
    the first teammate near the zone's start.
  - It picks the eligible receiver whose passing lane is farthest from every
    opponent it counts, with the first candidate winning ties.
  - It returns whether any zone produced a pass, and the swipes made.
- **Wrappers** (`wrappers.dfy`): `Option` and `Abs`, shared by the planners.

The opponent filter of `kick_pass` compares the kick name with the misspelt
`'backword1'` (action.py:741), so a `backward1` kick filters no opponent at all.
The model keeps that spelling, and `PassPlanner.LaneFilterByKick` states the
consequence: a backward1 lane counts every opponent.

`sys.maxsize`, the "no opponent counted" value, is the constructor
`NoOpponent` of `Clearance`. It is above every real distance.

The colour-ratio test `c / n > 0.2` is stated over integers as `5 * c > n`.
When no calibration pixel is unmasked there are no values to test, so no
division happens and the model needs no `n > 0` precondition.

## Model

| member | source | states |
|---|---|---|
| Matching.MatchTemplate | action.py:66 | matched exactly when the score is strictly above the threshold; the score is passed through unchanged |
| Matching.StricterThresholdMatchesLess | action.py:66 | raising the threshold can only turn a match into a non-match; a score equal to the threshold never matches |
| Matching.DiffSumZeroIffSame | action.py:364-370 | the sum of the modulo-256 difference of two uint8 regions is zero exactly when the regions are identical |
| Matching.ClassifyTurn | action.py:364-386 | the player's turn exactly when its photo region changed; the opponent's exactly when only the opponent's region changed; in progress exactly when neither changed |
| UniformColors.ColorBand | action.py:866-885 | a band contains its colour and stays on its own side: within [0,179] for a hue and within [180,255] for a grey tone, with a margin of 2 (hue) or 15 (grey) clipped at the side's edges |
| UniformColors.BandsStayOnTheirSide | action.py:866-888 | a value accepted by a colour's band is below 180 exactly when the colour is; no band crosses the 179/180 boundary |
| UniformColors.PlayerLocations | action.py:863-891 | a pixel is set exactly when its value lies in the inclusive band of at least one uniform colour; no colours give an all-zero mask |
| UniformColors.MaskIgnoresColorOrder | action.py:865-889 | two colour lists with the same members select the same pixels, whatever their order or repetitions |
| UniformColors.EstimateUniformColors | action.py:841-861 | the result is strictly ascending and holds exactly the unmasked values whose count is strictly more than a fifth of the unmasked pixels |
| UniformColors.KeptMass | action.py:851-859 | k distinct kept values together cover at least k*(n+1)/5 of the n unmasked pixels |
| UniformColors.AtMostFourUniformColors | action.py:851-861 | at most four distinct values can each hold more than 20% of the unmasked pixels |
| UniformColors.MaskedPixelsIgnored | action.py:847-849 | a value's count depends only on the pixels the calibration mask keeps |
| UniformColors.MaskedPixelsNeverContribute | action.py:847-861 | two regions that agree on every unmasked pixel yield the same uniform colours |
| Shootout.React | action.py:619-637 | a poll matching the defence prompt is answered by defending, even if the offence prompt matches too; the answer is kicking exactly when the defence match fails and the offence match succeeds; a poll matching neither gets no response |
| Shootout.MissCountIsTrailingRun | action.py:617-642 | the miss counter after a run of polls is at least k exactly when the last k polls all matched neither prompt |
| Shootout.PlayShootout | action.py:614-644 | the loop stops at the first poll that completes ten consecutive misses and never earlier; the responses are those of the polls consumed, in order |
| ShotPlanner.GoalPostLine | action.py:497-502 | no line when none was detected; the only line when there is one; otherwise element 1 of the rho-ascending list, whose rho is the second smallest |
| ShotPlanner.FarPostRule | action.py:546 | a post of 170 pixels or more is never too far; one under 150 always is; in between it is too far exactly when 1.4 < theta < 1.8 |
| ShotPlanner.ScanPost | action.py:516-542 | the start is the first in-frame lit column of the line and the end the last one, with defaults 0 and width-1 when none is lit; the start is never right of the end |
| ShotPlanner.AimX | action.py:550-554 | aims 10 pixels right of the left end when that end is strictly farther from the centre, otherwise 10 pixels left of the right end; the chosen end lies on the far side of the centre |
| ShotPlanner.PlanShot | action.py:495-562 | each refusal (no line, invalid position, far post, target below the kick start) happens exactly under its condition and in that order; a shot aims at the AimX column, 20 pixels below the line |
| PassPlanner.BelowIsStrictTotalOrder | action.py:733-756 | the order on distances with the sentinel on top is a strict total order |
| PassPlanner.KickZones | action.py:689-709 | the zones are tried in the order forward, backward1, backward2, header, with radii 80, 40, 40 and 60, each with its own start point and receiver mask |
| PassPlanner.KeptIndices | action.py:673-674 | the indices that survive a deletion: all below the length and not removed, each exactly once, strictly ascending |
| PassPlanner.Keep | action.py:673-674 | the survivors of a deletion are exactly the elements at indices not removed, and there are no more of them than before |
| PassPlanner.KeepByIndices | action.py:673-674 | the k-th survivor of a deletion is the element at the k-th surviving index, so survivors keep their original order |
| PassPlanner.KeepPreservesOrder | action.py:673-674 | two surviving elements appear after the deletion in the order they had before |
| PassPlanner.Deduplicate | action.py:659-674 | both lists lose exactly the players that lost some close pair, decided on the original lists: the teammate when its area is not strictly larger, otherwise the opponent |
| PassPlanner.NoClosePairSurvives | action.py:659-674 | after de-duplication no teammate and opponent remain within 10 pixels across and 20 down of each other |
| PassPlanner.IsolatedPlayersKept | action.py:659-674 | teammates and opponents in no close pair are kept, and any two of them keep their relative order; with no close pair anywhere both lists are unchanged |
| PassPlanner.FindKicker | action.py:711-719 | a kicker is found exactly when some teammate is strictly within the zone's radius, and it is the first such teammate in list order |
| PassPlanner.LaneFilterByKick | action.py:735-744 | forward and header lanes count opponents between receiver and kicker rows; backward2 counts those between kicker and receiver rows; backward1 counts every opponent |
| PassPlanner.LaneClearanceIsMinimum | action.py:733-749 | the lane clearance is the sentinel exactly when no opponent is counted; otherwise it is the distance of some counted opponent and no counted opponent is closer |
| PassPlanner.MinOpponentDistance | action.py:733-749 | the running minimum of the loop equals the lane clearance |
| PassPlanner.ChooseReceiver | action.py:721-758 | no receiver exactly when no candidate has a positive clearance; otherwise the receiver is an eligible candidate other than the kicker whose clearance is positive and maximal, and no earlier candidate ties with it |
| PassPlanner.ZoneOutcomeIsUnique | action.py:711-769 | a zone's outcome (no kicker, no receiver, or a pass) is determined by the players, the opponents and the zone |
| PassPlanner.SwipeIffPass | action.py:758-774 | a swipe is made exactly when some zone produced a pass, and at most one per zone |
| PassPlanner.KickPass | action.py:646-781 | each of the four zones, in order, gets the outcome its kicker and receiver rules determine on the de-duplicated lists; the result is true exactly when some zone produced a pass; the swipes go from each successful zone's start to its receiver |

## Left out

- Device I/O (`adb.py`): screen capture, taps, swipes and app control. The screens appear only through the values they yield: scores, pixel regions, lines and masks are inputs.
- The menu flows and their sleeps and retries: `open_package`, `open_box`, `unlock_box`, `open_cards`, `open_rewards`, `sign_in`, and the navigation and loop structure of `play_game`. Only its turn decision (action.py:364-386) is modelled.
- The image-processing calls are foreign: `image_processing.diff_image`, `hsv2eh`, `crop`, and OpenCV's `cvtColor`, `HoughLines`, morphology, `connectedComponentsWithStats` and the internals of `inRange`.
- `get_player_map` (action.py:783-839) is left out. It chains `hsv2eh`, the playground mask, `estimate_uniform_colors` and `get_player_locations` for both teams, the AND with the playground mask, morphology and connected-component labelling, then drops component label 0. Its player lists are inputs of `PassPlanner.KickPass`.
- `find_template` (action.py:68-77) is left out: it wraps `image_processing.find_template`, and no modelled operation calls it.
  - Their results are inputs.
  - `get_distance` and `get_point_line_distance` are the uninterpreted fields of `PassPlanner.Geometry`; shot lengths are the parameter `postLength`.
- Matching.MatchTemplate: the score computation is not modelled. That includes the mask being read from the template's own file (action.py:48) and the coordinate crop.
- The `diff_score < 0.5` re-capture of the second frame (action.py:374-377) is left out, because it only changes which image is later handed to `kick`.
- Matching.Sum: `np.sum` is taken as unbounded, since NumPy accumulates uint8 sums in a wide integer.
- ShotPlanner.PlanShot: the slope and intercept come from floating-point `cos`/`sin` plus `int()` truncation. They are abstracted as the row function `lineY`, so the model does not capture rounding in them.
- ShotPlanner.PlanShot: the `sin(theta) == 0` refusal (action.py:509) is left out. It is unreachable once theta is known to lie in [0.8, 2.4].
- ShotPlanner.PlanShot: the ordering of the Hough output (`sorted`, action.py:502) is an input, required to be ascending in rho.
- ShotPlanner.PlanShot: the swipe itself is not modelled. A `Shot` result carries its target, and the swipe goes from the kick start to that target.
- UniformColors.EstimateUniformColors: `np.unique` is an input, characterised by `IsUniqueOf`. That covers the distinct unmasked values, ascending, with their counts; the masked entry is already skipped.
- UniformColors.EstimateUniformColors: the 20% test is exact rational arithmetic, not floating point.
- UniformColors.PlayerLocations: the image and the mask are flattened to sequences, and a 0/255 mask is a boolean.
- Shootout.PlayShootout: the device supplies polls for ever. The model's poll list is finite, so the loop also stops when the list runs out, with `finished` false.
- The random choices are left out: the corners chosen by `kick_penalty` and `defend_penalty` (only the response kind is modelled) and the fallback random kick (action.py:589-608).
- The order in `kick` (shoot, then pass, then a random kick, action.py:576-608) is not modelled as a member of its own.
- PassPlanner.ChooseReceiver: the kick masks are total functions of the truncated centroid. NumPy's negative-index wrap and out-of-range errors are not modelled.
- PassPlanner.KickPass: distances are not required to be non-negative. The sentinel is assumed above every distance the geometry returns.
- Debug drawing, `cv2.imwrite` output and logging are left out.
