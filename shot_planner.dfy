/**
 * The discrete decisions of the shot planner (`Action.shoot`, action.py).
 *
 * Line detection (`cv2.HoughLines`), the ordering of its output (`sorted`)
 * and the floating-point line equation `int(a*x + b)` are not modelled: the
 * detected lines arrive already ordered by rho, and `lineY(line, x)` stands
 * for the truncated row of the chosen line at column `x`. The post length
 * `image_processing.get_distance` is a parameter too.
 */
module ShotPlanner {
  import opened Wrappers

  /** A detected line in polar form. */
  datatype Line = Line(rho: real, theta: real)

  /** An integer pixel position (column, row). */
  datatype Pixel = Pixel(x: int, y: int)

  /** The fixed screen geometry the planner uses. */
  datatype ShotConfig = ShotConfig(width: int, height: int, dashboardHeight: int, kickStart: Pixel)

  /** What `shoot` decided, with the reason when it declined. */
  datatype ShotResult =
    | NoGoalPost
    | InvalidPosition(line: Line)
    | TooFar(line: Line, start: Pixel, end: Pixel, length: real)
    | OwnGoalSide(line: Line, start: Pixel, end: Pixel, target: Pixel)
    | Shot(line: Line, start: Pixel, end: Pixel, target: Pixel)

  predicate SortedByRho(lines: seq<Line>)
  {
    forall i, j :: 0 <= i < j < |lines| ==> lines[i].rho <= lines[j].rho
  }

  /**
   * The goal-post line: the nearest line when only one was found, otherwise
   * the second nearest (the nearest is usually an overlay artefact).
   */
  function GoalPostLine(sorted: seq<Line>): (r: Option<Line>)
    requires SortedByRho(sorted)
    ensures r == None <==> sorted == []
    ensures |sorted| == 1 ==> r == Some(sorted[0])
    ensures |sorted| >= 2 ==> r == Some(sorted[1])
    ensures |sorted| >= 2 ==>
      sorted[0].rho <= r.value.rho && forall k :: 1 <= k < |sorted| ==> r.value.rho <= sorted[k].rho
  {
    if sorted == [] then None
    else Some(sorted[if |sorted| == 1 then 0 else 1])
  }

  /** The line is outside the window where a goal post can appear. */
  predicate PositionInvalid(line: Line)
  {
    line.rho > 700.0 || line.theta < 0.8 || line.theta > 2.4
  }

  /** The post is too short, hence too far away, for a reliable shot. */
  predicate PostTooFar(theta: real, length: real)
  {
    (theta > 1.4 && theta < 1.8 && length < 170.0) || length < 150.0
  }

  /** The target lies below the kick start: the post is probably our own. */
  predicate BelowKickStart(target: Pixel, kickStart: Pixel)
  {
    target.y > kickStart.y
  }

  /**
   * The length rule: 170 pixels always suffice, under 150 never do, and in
   * between the post is rejected exactly when theta lies strictly inside (1.4, 1.8).
   */
  lemma FarPostRule(theta: real, length: real)
    ensures length >= 170.0 ==> !PostTooFar(theta, length)
    ensures 150.0 <= length < 170.0 ==> (PostTooFar(theta, length) <==> 1.4 < theta < 1.8)
    ensures length < 150.0 ==> PostTooFar(theta, length)
  {
  }

  /** A white pixel after the dashboard band is blanked and everything below 250 is zeroed. */
  predicate Bright(gray: (int, int) -> nat, dashboardHeight: int, row: int, col: int)
  {
    row >= dashboardHeight && gray(row, col) >= 250
  }

  /** Column `x` holds a bright pixel of the line inside the frame. */
  predicate OnPost(cfg: ShotConfig, gray: (int, int) -> nat, lineY: int -> int, x: int)
  {
    0 <= lineY(x) < cfg.height && Bright(gray, cfg.dashboardHeight, lineY(x), x)
  }

  /** `start` is what the left-to-right scan yields: the first lit column, or column 0. */
  ghost predicate IsScanStart(cfg: ShotConfig, gray: (int, int) -> nat, lineY: int -> int, start: Pixel)
  {
    && start.y == lineY(start.x)
    && (forall x :: 0 <= x < start.x ==> !OnPost(cfg, gray, lineY, x))
    && if exists x :: 0 <= x < cfg.width && OnPost(cfg, gray, lineY, x)
       then 0 <= start.x < cfg.width && OnPost(cfg, gray, lineY, start.x)
       else start.x == 0
  }

  /** `end` is what the right-to-left scan yields: the last lit column, or the last column. */
  ghost predicate IsScanEnd(cfg: ShotConfig, gray: (int, int) -> nat, lineY: int -> int, end: Pixel)
  {
    && end.y == lineY(end.x)
    && (forall x :: end.x < x < cfg.width ==> !OnPost(cfg, gray, lineY, x))
    && if exists x :: 0 <= x < cfg.width && OnPost(cfg, gray, lineY, x)
       then 0 <= end.x < cfg.width && OnPost(cfg, gray, lineY, end.x)
       else end.x == cfg.width - 1
  }

  /** The two column scans along the chosen line that locate the ends of the post. */
  method ScanPost(cfg: ShotConfig, gray: (int, int) -> nat, lineY: int -> int)
    returns (start: Pixel, end: Pixel)
    ensures IsScanStart(cfg, gray, lineY, start)
    ensures IsScanEnd(cfg, gray, lineY, end)
    ensures cfg.width > 0 ==> start.x <= end.x
  {
    start := Pixel(0, lineY(0));
    end := Pixel(cfg.width - 1, lineY(cfg.width - 1));
    var x := 0;
    while x < cfg.width
      invariant 0 <= x <= cfg.width || (cfg.width < 0 && x == 0)
      invariant forall c :: 0 <= c < x ==> !OnPost(cfg, gray, lineY, c)
      invariant start == Pixel(0, lineY(0))
    {
      var y := lineY(x);
      if y < 0 || y >= cfg.height {
        x := x + 1;
        continue;
      }
      if gray(y, x) >= 250 && y >= cfg.dashboardHeight {
        start := Pixel(x, y);
        break;
      }
      x := x + 1;
    }
    x := cfg.width - 1;
    while x >= 0
      invariant -1 <= x <= cfg.width - 1 || (cfg.width < 0 && x == cfg.width - 1)
      invariant forall c :: x < c < cfg.width ==> !OnPost(cfg, gray, lineY, c)
      invariant end == Pixel(cfg.width - 1, lineY(cfg.width - 1))
    {
      var y := lineY(x);
      if y < 0 || y >= cfg.height {
        x := x - 1;
        continue;
      }
      if gray(y, x) >= 250 && y >= cfg.dashboardHeight {
        end := Pixel(x, y);
        break;
      }
      x := x - 1;
    }
  }

  /** Distance of column `x` from the horizontal centre of a frame `width` pixels wide. */
  function FromCenter(x: int, width: int): real
  {
    Abs(x as real - width as real / 2.0)
  }

  /**
   * Aim at the post end farther from the horizontal centre, 10 pixels in
   * from it; a tie goes to the right-hand end.
   */
  function AimX(x1: int, x2: int, width: int): (tx: int)
    ensures FromCenter(x1, width) > FromCenter(x2, width) ==> tx == x1 + 10
    ensures FromCenter(x1, width) <= FromCenter(x2, width) ==> tx == x2 - 10
    ensures x1 <= x2 && FromCenter(x1, width) > FromCenter(x2, width) ==> 2 * x1 < width
    ensures x1 < x2 && FromCenter(x1, width) <= FromCenter(x2, width) ==> 2 * x2 >= width
  {
    if FromCenter(x1, width) > FromCenter(x2, width) then x1 + 10 else x2 - 10
  }

  /**
   * `shoot` without its trigonometry and its drawing: choose the line,
   * reject implausible positions, find the post ends, reject a far post,
   * aim, and reject a target below the kick start.
   */
  method PlanShot(cfg: ShotConfig, gray: (int, int) -> nat, sorted: seq<Line>,
                  lineY: (Line, int) -> int, postLength: (Pixel, Pixel) -> real)
    returns (r: ShotResult)
    requires SortedByRho(sorted)
    ensures sorted == [] <==> r == NoGoalPost
    ensures r != NoGoalPost ==> Some(r.line) == GoalPostLine(sorted)
    ensures r.InvalidPosition? <==> sorted != [] && PositionInvalid(GoalPostLine(sorted).value)
    ensures (r.TooFar? || r.OwnGoalSide? || r.Shot?) ==>
      && !PositionInvalid(r.line)
      && IsScanStart(cfg, gray, x => lineY(r.line, x), r.start)
      && IsScanEnd(cfg, gray, x => lineY(r.line, x), r.end)
    ensures r.TooFar? ==> r.length == postLength(r.start, r.end) && PostTooFar(r.line.theta, r.length)
    ensures (r.OwnGoalSide? || r.Shot?) ==>
      && !PostTooFar(r.line.theta, postLength(r.start, r.end))
      && r.target.x == AimX(r.start.x, r.end.x, cfg.width)
      && r.target.y == lineY(r.line, r.target.x) + 20
    ensures r.OwnGoalSide? ==> BelowKickStart(r.target, cfg.kickStart)
    ensures r.Shot? ==> !BelowKickStart(r.target, cfg.kickStart)
  {
    var chosen := GoalPostLine(sorted);
    if chosen.None? {
      return NoGoalPost;
    }
    var line := chosen.value;
    if PositionInvalid(line) {
      return InvalidPosition(line);
    }
    var start, end := ScanPost(cfg, gray, x => lineY(line, x));
    var length := postLength(start, end);
    if PostTooFar(line.theta, length) {
      return TooFar(line, start, end, length);
    }
    var tx := AimX(start.x, end.x, cfg.width);
    var target := Pixel(tx, lineY(line, tx) + 20);
    if BelowKickStart(target, cfg.kickStart) {
      return OwnGoalSide(line, start, end, target);
    }
    return Shot(line, start, end, target);
  }
}
