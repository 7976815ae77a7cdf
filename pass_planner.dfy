/**
 * Pass planning (`Action.kick_pass`, action.py).
 *
 * Players come from connected-component analysis, which is not part of this
 * model: each is a centroid and the area from column 4 of its statistics
 * row. The two distance helpers of `image_processing` are uninterpreted
 * functions passed in as a `Geometry`; the four zone start points and
 * receiver masks are configuration passed in as parameters.
 */
module PassPlanner {
  import opened Wrappers

  datatype Point = Point(x: real, y: real)

  datatype Player = Player(centroid: Point, area: int)

  /**
   * The smallest opponent distance to a passing lane. `NoOpponent` is the
   * `sys.maxsize` start value: it stays when no opponent is counted and it is
   * larger than every real distance.
   */
  datatype Clearance = Finite(d: real) | NoOpponent

  /** The two helpers of `image_processing` the planner calls. */
  datatype Geometry = Geometry(
    dist: (Point, Point) -> real,
    lineDist: (Point, Point, Point) -> real)

  /** One kick type: its label, start point, kicker radius and receiver mask (row, column). */
  datatype Zone = Zone(kick: string, start: Point, radius: real, mask: (int, int) -> nat)

  /** How one zone ended. */
  datatype ZoneResult =
    | NoKicker
    | NoReceiver(kicker: nat)
    | Pass(kicker: nat, receiver: nat, clearance: Clearance)

  /** A swipe from a zone start point to a receiver's centroid. */
  datatype Swipe = Swipe(from: Point, to: Point)

  const Kicks: seq<string> := ["forward", "backward1", "backward2", "header"]
  const KickDistanceThreshold: seq<real> := [80.0, 40.0, 40.0, 60.0]

  /** The zone table, in the order the zones are tried. */
  function KickZones(starts: seq<Point>, masks: seq<(int, int) -> nat>): (zones: seq<Zone>)
    requires |starts| == 4 && |masks| == 4
    ensures |zones| == 4
    ensures zones[0].kick == "forward" && zones[0].radius == 80.0
    ensures zones[1].kick == "backward1" && zones[1].radius == 40.0
    ensures zones[2].kick == "backward2" && zones[2].radius == 40.0
    ensures zones[3].kick == "header" && zones[3].radius == 60.0
    ensures forall k :: 0 <= k < 4 ==> zones[k].start == starts[k] && zones[k].mask == masks[k]
  {
    seq(4, k requires 0 <= k < 4 => Zone(Kicks[k], starts[k], KickDistanceThreshold[k], masks[k]))
  }

  /** `a < b`, with `NoOpponent` above every real distance and not below itself. */
  predicate Below(a: Clearance, b: Clearance)
  {
    match a
    case NoOpponent => false
    case Finite(x) => b.NoOpponent? || x < b.d
  }

  /** `Below` is a strict total order: the running maximum and minimum are well defined. */
  lemma BelowIsStrictTotalOrder(a: Clearance, b: Clearance, c: Clearance)
    ensures !Below(a, a)
    ensures Below(a, b) ==> !Below(b, a)
    ensures Below(a, b) && Below(b, c) ==> Below(a, c)
    ensures a == b || Below(a, b) || Below(b, a)
  {
  }

  /** Python's `int()` on a float: truncation toward zero. */
  function Trunc(r: real): int
  {
    if r >= 0.0 then r.Floor else -((-r).Floor)
  }

  // ---------------------------------------------------------------------------
  // De-duplication of players detected in both teams
  // ---------------------------------------------------------------------------

  /** A detection of each team within 10 pixels across and 20 pixels down of each other. */
  predicate Close(mine: Player, op: Player)
  {
    Abs(mine.centroid.x - op.centroid.x) < 10.0 && Abs(mine.centroid.y - op.centroid.y) < 20.0
  }

  /** Teammate `a` loses against opponent `b`: close, and not strictly larger. */
  predicate MineLoses(mine: seq<Player>, ops: seq<Player>, a: int, b: int)
    requires 0 <= a < |mine| && 0 <= b < |ops|
  {
    Close(mine[a], ops[b]) && mine[a].area <= ops[b].area
  }

  /** Opponent `b` loses against teammate `a`: close, and the teammate is strictly larger. */
  predicate OpLoses(mine: seq<Player>, ops: seq<Player>, a: int, b: int)
    requires 0 <= a < |mine| && 0 <= b < |ops|
  {
    Close(mine[a], ops[b]) && mine[a].area > ops[b].area
  }

  /** Teammate `a` loses against some opponent. */
  ghost predicate MineBeaten(mine: seq<Player>, ops: seq<Player>, a: int)
    requires 0 <= a < |mine|
  {
    exists b :: 0 <= b < |ops| && MineLoses(mine, ops, a, b)
  }

  /** Opponent `b` loses against some teammate. */
  ghost predicate OpBeaten(mine: seq<Player>, ops: seq<Player>, b: int)
    requires 0 <= b < |ops|
  {
    exists a :: 0 <= a < |mine| && OpLoses(mine, ops, a, b)
  }

  /** Indices of teammates to drop, decided on the original lists. */
  ghost function MineRemoved(mine: seq<Player>, ops: seq<Player>): set<int>
  {
    set a | 0 <= a < |mine| && MineBeaten(mine, ops, a)
  }

  /** Indices of opponents to drop, decided on the original lists. */
  ghost function OpsRemoved(mine: seq<Player>, ops: seq<Player>): set<int>
  {
    set b | 0 <= b < |ops| && OpBeaten(mine, ops, b)
  }

  /** The indices below `n` that are not removed, in ascending order. */
  function KeptIndices(n: nat, removed: set<int>): (idx: seq<nat>)
    ensures forall k :: 0 <= k < |idx| ==> idx[k] < n && idx[k] !in removed
    ensures forall i :: 0 <= i < n && i !in removed ==> i in idx
    ensures forall k1, k2 :: 0 <= k1 < k2 < |idx| ==> idx[k1] < idx[k2]
  {
    if n == 0 then [] else KeptIndices(n - 1, removed) + (if n - 1 in removed then [] else [n - 1])
  }

  /** `np.delete(s, removed, axis=0)`: the elements whose index is not removed. */
  function Keep<T(!new)>(s: seq<T>, removed: set<int>): (r: seq<T>)
    ensures |r| <= |s|
    ensures forall x :: x in r <==> exists i :: 0 <= i < |s| && i !in removed && s[i] == x
  {
    if s == [] then []
    else
      var init := s[..|s| - 1];
      var r := Keep(init, removed) + (if |s| - 1 in removed then [] else [s[|s| - 1]]);
      assert forall i :: 0 <= i < |init| ==> init[i] == s[i];
      r
  }

  /**
   * The k-th survivor of `Keep` is the element at the k-th index that is not
   * removed, so the survivors keep their original order.
   */
  lemma {:induction false} KeepByIndices<T(!new)>(s: seq<T>, removed: set<int>)
    ensures |Keep(s, removed)| == |KeptIndices(|s|, removed)|
    ensures forall k :: 0 <= k < |Keep(s, removed)| ==> Keep(s, removed)[k] == s[KeptIndices(|s|, removed)[k]]
  {
    if s != [] {
      var init := s[..|s| - 1];
      KeepByIndices(init, removed);
      assert |init| == |s| - 1;
      assert forall i :: 0 <= i < |init| ==> init[i] == s[i];
    }
  }

  /** Two survivors appear in the result in the order they had before. */
  lemma KeepPreservesOrder<T(!new)>(s: seq<T>, removed: set<int>, i: int, j: int)
    requires 0 <= i < j < |s| && i !in removed && j !in removed
    ensures exists k1, k2 :: (0 <= k1 < k2 < |Keep(s, removed)|
      && Keep(s, removed)[k1] == s[i] && Keep(s, removed)[k2] == s[j])
  {
    KeepByIndices(s, removed);
    var idx := KeptIndices(|s|, removed);
    var k1 :| 0 <= k1 < |idx| && idx[k1] == i;
    var k2 :| 0 <= k2 < |idx| && idx[k2] == j;
    assert k1 < k2;
  }

  lemma {:induction false} KeepNothing<T(!new)>(s: seq<T>, removed: set<int>)
    requires forall i :: 0 <= i < |s| ==> i !in removed
    ensures Keep(s, removed) == s
  {
    if s != [] {
      KeepNothing(s[..|s| - 1], removed);
    }
  }

  ghost function KeptMine(mine: seq<Player>, ops: seq<Player>): seq<Player>
  {
    Keep(mine, MineRemoved(mine, ops))
  }

  ghost function KeptOps(mine: seq<Player>, ops: seq<Player>): seq<Player>
  {
    Keep(ops, OpsRemoved(mine, ops))
  }

  /**
   * The pre-processing of `kick_pass`: every close (teammate, opponent) pair
   * puts the smaller detection on a removal list (the teammate on a tie),
   * then both lists are deleted at once.
   */
  method Deduplicate(mine: seq<Player>, ops: seq<Player>) returns (myKept: seq<Player>, opKept: seq<Player>)
    ensures myKept == KeptMine(mine, ops)
    ensures opKept == KeptOps(mine, ops)
  {
    var myRemove: seq<int> := [];
    var opRemove: seq<int> := [];
    for a := 0 to |mine|
      invariant forall r :: r in myRemove <==> 0 <= r < a && MineBeaten(mine, ops, r)
      invariant forall r :: r in opRemove <==>
        0 <= r < |ops| && exists a' :: 0 <= a' < a && OpLoses(mine, ops, a', r)
    {
      for b := 0 to |ops|
        invariant forall r :: r in myRemove <==>
          || (0 <= r < a && MineBeaten(mine, ops, r))
          || (r == a && exists b' :: 0 <= b' < b && MineLoses(mine, ops, a, b'))
        invariant forall r :: r in opRemove <==>
          && 0 <= r < |ops|
          && ((exists a' :: 0 <= a' < a && OpLoses(mine, ops, a', r)) || (r < b && OpLoses(mine, ops, a, r)))
      {
        var horizontal := Abs(mine[a].centroid.x - ops[b].centroid.x);
        var vertical := Abs(mine[a].centroid.y - ops[b].centroid.y);
        if horizontal < 10.0 && vertical < 20.0 {
          if mine[a].area > ops[b].area {
            assert OpLoses(mine, ops, a, b);
            opRemove := opRemove + [b];
          } else {
            assert MineLoses(mine, ops, a, b);
            myRemove := myRemove + [a];
          }
        }
      }
    }
    var myRemoved := set r | r in myRemove;
    var opRemoved := set r | r in opRemove;
    assert myRemoved == MineRemoved(mine, ops);
    assert opRemoved == OpsRemoved(mine, ops);
    myKept := Keep(mine, myRemoved);
    opKept := Keep(ops, opRemoved);
  }

  /** After de-duplication no teammate and opponent are close any more. */
  lemma NoClosePairSurvives(mine: seq<Player>, ops: seq<Player>)
    ensures forall m, o :: m in KeptMine(mine, ops) && o in KeptOps(mine, ops) ==> !Close(m, o)
  {
    forall m, o | m in KeptMine(mine, ops) && o in KeptOps(mine, ops) ensures !Close(m, o) {
      var a :| 0 <= a < |mine| && a !in MineRemoved(mine, ops) && mine[a] == m;
      var b :| 0 <= b < |ops| && b !in OpsRemoved(mine, ops) && ops[b] == o;
      if Close(m, o) {
        if mine[a].area <= ops[b].area {
          assert MineLoses(mine, ops, a, b);
        } else {
          assert OpLoses(mine, ops, a, b);
        }
      }
    }
  }

  /** Teammate `a` is close to no opponent. */
  ghost predicate MineIsolated(mine: seq<Player>, ops: seq<Player>, a: int)
    requires 0 <= a < |mine|
  {
    forall b :: 0 <= b < |ops| ==> !Close(mine[a], ops[b])
  }

  /** Opponent `b` is close to no teammate. */
  ghost predicate OpIsolated(mine: seq<Player>, ops: seq<Player>, b: int)
    requires 0 <= b < |ops|
  {
    forall a :: 0 <= a < |mine| ==> !Close(mine[a], ops[b])
  }

  /**
   * Players of either team in no close pair are kept, and any two of them
   * keep their relative order; with no close pair at all both lists are unchanged.
   */
  lemma IsolatedPlayersKept(mine: seq<Player>, ops: seq<Player>)
    ensures forall a :: 0 <= a < |mine| && MineIsolated(mine, ops, a) ==> mine[a] in KeptMine(mine, ops)
    ensures forall b :: 0 <= b < |ops| && OpIsolated(mine, ops, b) ==> ops[b] in KeptOps(mine, ops)
    ensures forall a1, a2 :: 0 <= a1 < a2 < |mine| && MineIsolated(mine, ops, a1) && MineIsolated(mine, ops, a2) ==>
      exists k1, k2 :: (0 <= k1 < k2 < |KeptMine(mine, ops)|
        && KeptMine(mine, ops)[k1] == mine[a1] && KeptMine(mine, ops)[k2] == mine[a2])
    ensures forall b1, b2 :: 0 <= b1 < b2 < |ops| && OpIsolated(mine, ops, b1) && OpIsolated(mine, ops, b2) ==>
      exists k1, k2 :: (0 <= k1 < k2 < |KeptOps(mine, ops)|
        && KeptOps(mine, ops)[k1] == ops[b1] && KeptOps(mine, ops)[k2] == ops[b2])
    ensures (forall a, b :: 0 <= a < |mine| && 0 <= b < |ops| ==> !Close(mine[a], ops[b])) ==>
      KeptMine(mine, ops) == mine && KeptOps(mine, ops) == ops
  {
    forall a | 0 <= a < |mine| && MineIsolated(mine, ops, a) ensures a !in MineRemoved(mine, ops) {
    }
    forall b | 0 <= b < |ops| && OpIsolated(mine, ops, b) ensures b !in OpsRemoved(mine, ops) {
    }
    forall a1, a2 | 0 <= a1 < a2 < |mine| && MineIsolated(mine, ops, a1) && MineIsolated(mine, ops, a2)
      ensures exists k1, k2 :: (0 <= k1 < k2 < |KeptMine(mine, ops)|
        && KeptMine(mine, ops)[k1] == mine[a1] && KeptMine(mine, ops)[k2] == mine[a2])
    {
      assert a1 !in MineRemoved(mine, ops) && a2 !in MineRemoved(mine, ops);
      KeepPreservesOrder(mine, MineRemoved(mine, ops), a1, a2);
      assert KeptMine(mine, ops) == Keep(mine, MineRemoved(mine, ops));
    }
    forall b1, b2 | 0 <= b1 < b2 < |ops| && OpIsolated(mine, ops, b1) && OpIsolated(mine, ops, b2)
      ensures exists k1, k2 :: (0 <= k1 < k2 < |KeptOps(mine, ops)|
        && KeptOps(mine, ops)[k1] == ops[b1] && KeptOps(mine, ops)[k2] == ops[b2])
    {
      assert b1 !in OpsRemoved(mine, ops) && b2 !in OpsRemoved(mine, ops);
      KeepPreservesOrder(ops, OpsRemoved(mine, ops), b1, b2);
      assert KeptOps(mine, ops) == Keep(ops, OpsRemoved(mine, ops));
    }
    if forall a, b :: 0 <= a < |mine| && 0 <= b < |ops| ==> !Close(mine[a], ops[b]) {
      KeepNothing(mine, MineRemoved(mine, ops));
      KeepNothing(ops, OpsRemoved(mine, ops));
    }
  }

  // ---------------------------------------------------------------------------
  // Kicker, lane filter and receiver choice for one zone
  // ---------------------------------------------------------------------------

  predicate InZone(players: seq<Player>, zone: Zone, geo: Geometry, i: int)
    requires 0 <= i < |players|
  {
    geo.dist(players[i].centroid, zone.start) < zone.radius
  }

  /** `i` is the first teammate in list order that stands inside the zone's radius. */
  ghost predicate IsFirstKicker(players: seq<Player>, zone: Zone, geo: Geometry, i: int)
  {
    && 0 <= i < |players|
    && InZone(players, zone, geo, i)
    && forall j :: 0 <= j < i ==> !InZone(players, zone, geo, j)
  }

  /** The kicker search: the first teammate within the zone's radius of its start point. */
  method FindKicker(players: seq<Player>, zone: Zone, geo: Geometry) returns (found: bool, kicker: nat)
    ensures found <==> exists i :: 0 <= i < |players| && InZone(players, zone, geo, i)
    ensures found ==> IsFirstKicker(players, zone, geo, kicker)
  {
    found, kicker := false, 0;
    var index := 0;
    while index < |players|
      invariant 0 <= index <= |players|
      invariant forall j :: 0 <= j < index ==> !InZone(players, zone, geo, j)
    {
      var dist := geo.dist(players[index].centroid, zone.start);
      if dist < zone.radius {
        assert InZone(players, zone, geo, index);
        found, kicker := true, index;
        return;
      }
      index := index + 1;
    }
  }

  /**
   * Whether an opponent is taken into account for a lane. The label tested
   * for the first backward kick is "backword1", which no zone carries.
   */
  predicate Counted(kick: string, op: Point, receiver: Point, kicker: Point)
  {
    && !((kick == "forward" || kick == "header") && (op.y < receiver.y || op.y > kicker.y))
    && !((kick == "backword1" || kick == "backward2") && (op.y > receiver.y || op.y < kicker.y))
  }

  /** Which opponents each of the four kicks counts. */
  lemma LaneFilterByKick(op: Point, receiver: Point, kicker: Point)
    ensures Counted(Kicks[0], op, receiver, kicker) <==> receiver.y <= op.y <= kicker.y
    ensures Counted(Kicks[3], op, receiver, kicker) <==> receiver.y <= op.y <= kicker.y
    ensures Counted(Kicks[2], op, receiver, kicker) <==> kicker.y <= op.y <= receiver.y
    ensures Counted(Kicks[1], op, receiver, kicker)
  {
    assert Kicks[1] != "backword1" && Kicks[1] != "forward" && Kicks[1] != "header" && Kicks[1] != "backward2";
    assert Kicks[2] != "forward" && Kicks[2] != "header";
    assert Kicks[0] != "backword1" && Kicks[0] != "backward2";
    assert Kicks[3] != "backword1" && Kicks[3] != "backward2";
  }

  /** The running minimum over the opponents, in list order, of the counted lane distances. */
  function LaneClearance(ops: seq<Player>, receiver: Point, kicker: Point, kick: string, geo: Geometry): Clearance
  {
    if ops == [] then NoOpponent
    else
      var m := LaneClearance(ops[..|ops| - 1], receiver, kicker, kick, geo);
      var op := ops[|ops| - 1].centroid;
      var d := geo.lineDist(op, receiver, kicker);
      if Counted(kick, op, receiver, kicker) && Below(Finite(d), m) then Finite(d) else m
  }

  /** An opponent that the lane counts, and its distance to the lane. */
  predicate CountedAt(ops: seq<Player>, receiver: Point, kicker: Point, kick: string, j: int)
    requires 0 <= j < |ops|
  {
    Counted(kick, ops[j].centroid, receiver, kicker)
  }

  /** The clearance is the minimum distance of the counted opponents, or `NoOpponent` when there is none. */
  lemma {:induction false} LaneClearanceIsMinimum(ops: seq<Player>, receiver: Point, kicker: Point, kick: string, geo: Geometry)
    ensures var m := LaneClearance(ops, receiver, kicker, kick, geo);
      && (m == NoOpponent <==> forall j :: 0 <= j < |ops| ==> !CountedAt(ops, receiver, kicker, kick, j))
      && (forall j :: 0 <= j < |ops| && CountedAt(ops, receiver, kicker, kick, j) ==>
            !Below(Finite(geo.lineDist(ops[j].centroid, receiver, kicker)), m))
      && (m.Finite? ==>
            exists j :: (0 <= j < |ops| && CountedAt(ops, receiver, kicker, kick, j)
                         && m.d == geo.lineDist(ops[j].centroid, receiver, kicker)))
  {
    if ops != [] {
      var init := ops[..|ops| - 1];
      LaneClearanceIsMinimum(init, receiver, kicker, kick, geo);
      assert forall j :: 0 <= j < |init| ==> init[j] == ops[j];
      var m0 := LaneClearance(init, receiver, kicker, kick, geo);
      var m := LaneClearance(ops, receiver, kicker, kick, geo);
      if m.Finite? {
        if m != m0 {
          assert CountedAt(ops, receiver, kicker, kick, |ops| - 1);
        } else {
          var j :| 0 <= j < |init| && CountedAt(init, receiver, kicker, kick, j)
            && m0.d == geo.lineDist(init[j].centroid, receiver, kicker);
          assert CountedAt(ops, receiver, kicker, kick, j);
        }
      }
    }
  }

  /** The inner loop over opponents: the smallest distance from a counted opponent to the lane. */
  method MinOpponentDistance(ops: seq<Player>, receiver: Point, kicker: Point, kick: string, geo: Geometry)
    returns (minOpDist: Clearance)
    ensures minOpDist == LaneClearance(ops, receiver, kicker, kick, geo)
  {
    minOpDist := NoOpponent;
    for j := 0 to |ops|
      invariant minOpDist == LaneClearance(ops[..j], receiver, kicker, kick, geo)
    {
      assert ops[..j + 1][..j] == ops[..j];
      var op := ops[j].centroid;
      if (kick == "forward" || kick == "header") && (op.y < receiver.y || op.y > kicker.y) {
        continue;
      }
      if (kick == "backword1" || kick == "backward2") && (op.y > receiver.y || op.y < kicker.y) {
        continue;
      }
      var dist := geo.lineDist(op, receiver, kicker);
      if Below(Finite(dist), minOpDist) {
        minOpDist := Finite(dist);
      }
    }
    assert ops[..|ops|] == ops;
  }

  /** A teammate other than the kicker who stands on a lit pixel of the zone's receiver mask. */
  predicate Candidate(players: seq<Player>, zone: Zone, kicker: int, j: int)
    requires 0 <= j < |players|
  {
    j != kicker && zone.mask(Trunc(players[j].centroid.y), Trunc(players[j].centroid.x)) != 0
  }

  /** The clearance of the lane from the kicker to teammate `j`. */
  function Safety(players: seq<Player>, ops: seq<Player>, zone: Zone, geo: Geometry, kicker: int, j: int): Clearance
    requires 0 <= kicker < |players| && 0 <= j < |players|
  {
    LaneClearance(ops, players[j].centroid, players[kicker].centroid, zone.kick, geo)
  }

  /**
   * `r` is the receiver the zone picks: a candidate with positive clearance,
   * no candidate has a larger one, and every earlier candidate a smaller one.
   */
  ghost predicate IsChosenReceiver(players: seq<Player>, ops: seq<Player>, zone: Zone, geo: Geometry, kicker: int, r: int)
    requires 0 <= kicker < |players|
  {
    && 0 <= r < |players|
    && Candidate(players, zone, kicker, r)
    && Below(Finite(0.0), Safety(players, ops, zone, geo, kicker, r))
    && (forall j :: 0 <= j < |players| && Candidate(players, zone, kicker, j) ==>
          !Below(Safety(players, ops, zone, geo, kicker, r), Safety(players, ops, zone, geo, kicker, j)))
    && (forall j :: 0 <= j < r && Candidate(players, zone, kicker, j) ==>
          Below(Safety(players, ops, zone, geo, kicker, j), Safety(players, ops, zone, geo, kicker, r)))
  }

  /** No candidate has a clearance above zero. */
  ghost predicate NoCandidate(players: seq<Player>, ops: seq<Player>, zone: Zone, geo: Geometry, kicker: int)
    requires 0 <= kicker < |players|
  {
    forall j :: 0 <= j < |players| && Candidate(players, zone, kicker, j) ==>
      !Below(Finite(0.0), Safety(players, ops, zone, geo, kicker, j))
  }

  /**
   * The max-min receiver choice: keep the candidate whose lane clearance is
   * largest, replacing the running best only on strict improvement over a
   * start value of 0.
   */
  method ChooseReceiver(players: seq<Player>, ops: seq<Player>, zone: Zone, geo: Geometry, kicker: int)
    returns (maxDist: Clearance, maxIndex: int)
    requires 0 <= kicker < |players|
    ensures maxIndex == -1 <==> NoCandidate(players, ops, zone, geo, kicker)
    ensures maxIndex != -1 ==> IsChosenReceiver(players, ops, zone, geo, kicker, maxIndex)
    ensures maxIndex != -1 ==> maxDist == Safety(players, ops, zone, geo, kicker, maxIndex)
    ensures maxIndex != kicker
  {
    maxDist, maxIndex := Finite(0.0), -1;
    for j := 0 to |players|
      invariant maxIndex == -1 ==> maxDist == Finite(0.0)
      invariant maxIndex == -1 ==> forall i :: 0 <= i < j && Candidate(players, zone, kicker, i) ==>
        !Below(Finite(0.0), Safety(players, ops, zone, geo, kicker, i))
      invariant maxIndex != -1 ==>
        && 0 <= maxIndex < j
        && Candidate(players, zone, kicker, maxIndex)
        && maxDist == Safety(players, ops, zone, geo, kicker, maxIndex)
        && Below(Finite(0.0), maxDist)
        && (forall i :: 0 <= i < j && Candidate(players, zone, kicker, i) ==>
              !Below(maxDist, Safety(players, ops, zone, geo, kicker, i)))
        && (forall i :: 0 <= i < maxIndex && Candidate(players, zone, kicker, i) ==>
              Below(Safety(players, ops, zone, geo, kicker, i), maxDist))
    {
      if j == kicker {
        continue;
      }
      var x, y := Trunc(players[j].centroid.x), Trunc(players[j].centroid.y);
      if zone.mask(y, x) == 0 {
        continue;
      }
      var minOpDist := MinOpponentDistance(ops, players[j].centroid, players[kicker].centroid, zone.kick, geo);
      if Below(maxDist, minOpDist) {
        forall i | 0 <= i < j && Candidate(players, zone, kicker, i)
          ensures Below(Safety(players, ops, zone, geo, kicker, i), minOpDist)
        {
          BelowIsStrictTotalOrder(Safety(players, ops, zone, geo, kicker, i), maxDist, minOpDist);
        }
        maxDist, maxIndex := minOpDist, j;
      }
    }
  }

  /** A zone's outcome as the source decides it. */
  ghost predicate ZoneDecided(players: seq<Player>, ops: seq<Player>, zone: Zone, geo: Geometry, res: ZoneResult)
  {
    match res
    case NoKicker =>
      forall i :: 0 <= i < |players| ==> !InZone(players, zone, geo, i)
    case NoReceiver(kicker) =>
      IsFirstKicker(players, zone, geo, kicker) && NoCandidate(players, ops, zone, geo, kicker)
    case Pass(kicker, receiver, c) =>
      && IsFirstKicker(players, zone, geo, kicker)
      && IsChosenReceiver(players, ops, zone, geo, kicker, receiver)
      && c == Safety(players, ops, zone, geo, kicker, receiver)
  }

  /** Each zone has exactly one outcome: the tie-break leaves no choice open. */
  lemma ZoneOutcomeIsUnique(players: seq<Player>, ops: seq<Player>, zone: Zone, geo: Geometry, r1: ZoneResult, r2: ZoneResult)
    requires ZoneDecided(players, ops, zone, geo, r1) && ZoneDecided(players, ops, zone, geo, r2)
    ensures r1 == r2
  {
  }

  /** The swipes emitted for a run of zone outcomes, in zone order. */
  function PassSwipes(zones: seq<Zone>, players: seq<Player>, results: seq<ZoneResult>): seq<Swipe>
    requires |results| <= |zones|
    requires forall k :: 0 <= k < |results| && results[k].Pass? ==> results[k].receiver < |players|
  {
    if results == [] then []
    else
      var k := |results| - 1;
      PassSwipes(zones, players, results[..k])
        + (if results[k].Pass? then [Swipe(zones[k].start, players[results[k].receiver].centroid)] else [])
  }

  /** One swipe per successful zone: a pass was made exactly when a swipe was emitted. */
  lemma {:induction false} SwipeIffPass(zones: seq<Zone>, players: seq<Player>, results: seq<ZoneResult>)
    requires |results| <= |zones|
    requires forall k :: 0 <= k < |results| && results[k].Pass? ==> results[k].receiver < |players|
    ensures |PassSwipes(zones, players, results)| <= |results|
    ensures PassSwipes(zones, players, results) != [] <==> exists k :: 0 <= k < |results| && results[k].Pass?
  {
    if results != [] {
      var k := |results| - 1;
      SwipeIffPass(zones, players, results[..k]);
      if exists i :: 0 <= i < k && results[..k][i].Pass? {
        var i :| 0 <= i < k && results[..k][i].Pass?;
        assert results[i].Pass?;
      }
      if exists i :: 0 <= i < |results| && results[i].Pass? {
        var i :| 0 <= i < |results| && results[i].Pass?;
        if i < k {
          assert results[..k][i].Pass?;
        }
      }
    }
  }

  /**
   * `kick_pass`: de-duplicate, then try the four zones in order; each zone
   * with a kicker and a receiver emits a swipe. The result is whether any
   * zone succeeded.
   */
  method KickPass(mine: seq<Player>, ops: seq<Player>, starts: seq<Point>, masks: seq<(int, int) -> nat>, geo: Geometry)
    returns (found: bool, results: seq<ZoneResult>, swipes: seq<Swipe>)
    requires |starts| == 4 && |masks| == 4
    ensures |results| == 4
    ensures forall k :: 0 <= k < 4 ==>
      ZoneDecided(KeptMine(mine, ops), KeptOps(mine, ops), KickZones(starts, masks)[k], geo, results[k])
    ensures found <==> exists k :: 0 <= k < 4 && results[k].Pass?
    ensures forall k :: 0 <= k < 4 && results[k].Pass? ==> results[k].receiver < |KeptMine(mine, ops)|
    ensures swipes == PassSwipes(KickZones(starts, masks), KeptMine(mine, ops), results)
  {
    var players, opponents := Deduplicate(mine, ops);
    var zones := KickZones(starts, masks);
    var kickFound: seq<bool> := [];
    results, swipes := [], [];
    for k := 0 to 4
      invariant |results| == |kickFound| == k
      invariant forall i :: 0 <= i < k ==> ZoneDecided(players, opponents, zones[i], geo, results[i])
      invariant forall i :: 0 <= i < k ==> (kickFound[i] <==> results[i].Pass?)
      invariant forall i :: 0 <= i < k && results[i].Pass? ==> results[i].receiver < |players|
      invariant swipes == PassSwipes(zones, players, results)
    {
      var zone := zones[k];
      var res: ZoneResult;
      var hasKicker, kicker := FindKicker(players, zone, geo);
      if hasKicker {
        var maxDist, maxIndex := ChooseReceiver(players, opponents, zone, geo, kicker);
        if maxIndex != -1 {
          res := Pass(kicker, maxIndex, maxDist);
          swipes := swipes + [Swipe(zone.start, players[maxIndex].centroid)];
        } else {
          res := NoReceiver(kicker);
        }
      } else {
        res := NoKicker;
      }
      assert (results + [res])[..k] == results;
      results := results + [res];
      kickFound := kickFound + [res.Pass?];
    }
    found := true in kickFound;
    assert found <==> exists i :: 0 <= i < 4 && kickFound[i];
  }
}
