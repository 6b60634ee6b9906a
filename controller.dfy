/**
 * The navigation controller (class Algorithm): the local map, the mouse and
 * the visit log, exploration by wall following, and the return to (0, 0).
 */
module Controller {
  import opened Direction
  import opened LocalMap
  import opened Agent
  import opened Sensors

  /** m_maze_width and m_maze_height: the grid is fixed at 16 by 16. */
  const Width: int := 16
  const Height: int := 16

  datatype Option<T> = None | Some(value: T)

  /** How the return to (0, 0) ended. */
  datatype ReturnOutcome =
    | Home       // the mouse stands on (0, 0)
    | Stuck      // no open neighbour was the origin or a logged cell
    | OutOfFuel  // the step budget ran out first

  predicate InGrid(x: int, y: int)
  {
    0 <= x < Width && 0 <= y < Height
  }

  /** Side k of cell (x, y) faces out of the grid. */
  predicate OnBorder(x: int, y: int, k: Dir)
  {
    InGrid(x, y) && !InGrid(Neighbor(x, y, k).0, Neighbor(x, y, k).1)
  }

  /** The outward sides are exactly those init_maze walls. */
  lemma OnBorderSides(x: int, y: int, k: Dir)
    requires InGrid(x, y)
    ensures OnBorder(x, y, k) <==>
              (k == Dir2Int('s') && y == 0) || (k == Dir2Int('n') && y == Height - 1) ||
              (k == Dir2Int('w') && x == 0) || (k == Dir2Int('e') && x == Width - 1)
  {
  }

  /** The wall on side k of cell (x, y) is the same wall seen from the neighbour across it. */
  ghost predicate SymmetricAt(truth: Truth, x: int, y: int, k: Dir)
  {
    InGrid(x, y) && InGrid(Neighbor(x, y, k).0, Neighbor(x, y, k).1) ==>
      truth(x, y, k) == truth(Neighbor(x, y, k).0, Neighbor(x, y, k).1, CalculateDir(k, Reverse))
  }

  /** A maze whose two sides of every inner wall agree. */
  ghost predicate Symmetric(truth: Truth)
  {
    forall x: int, y: int, k: Dir :: SymmetricAt(truth, x, y, k)
  }

  /** One wall-following step turns to the first open side in the order preferred, front, opposite,
      and reverses when all three are walls. */
  function LadderTurn(p: int, prefWall: bool, frontWall: bool, oppWall: bool): (r: int)
    requires p == Left || p == Right
    ensures r == p <==> !prefWall
    ensures r == Front <==> prefWall && !frontWall
    ensures r == -p <==> prefWall && frontWall && !oppWall
    ensures r == Reverse <==> prefWall && frontWall && oppWall
  {
    if !prefWall then p
    else if !frontWall then Front
    else if !oppWall then -p
    else Reverse
  }

  /** Where the mouse stands and which way it faces. */
  type Pose = (int, int, Dir)

  /** Pose q stands on cell (x, y). */
  predicate At(q: Pose, x: int, y: int)
  {
    q.0 == x && q.1 == y
  }

  /** No pose of the trace but the last stands on the goal (gx, gy). */
  predicate AvoidsGoal(poses: seq<Pose>, gx: int, gy: int)
  {
    forall i :: 0 <= i < |poses| - 1 ==> !At(poses[i], gx, gy)
  }

  lemma AvoidsGoalExtend(poses: seq<Pose>, q: Pose, gx: int, gy: int)
    requires |poses| >= 1 && AvoidsGoal(poses, gx, gy) && !At(poses[|poses| - 1], gx, gy)
    ensures AvoidsGoal(poses + [q], gx, gy)
  {
    var s := poses + [q];
    forall i | 0 <= i < |s| - 1 ensures !At(s[i], gx, gy) {
      assert s[i] == poses[i];
    }
  }

  /** Each pose of the trace is the TruthStep of the one before, for hand p. */
  ghost predicate TruthRun(truth: Truth, p: int, poses: seq<Pose>)
    requires p == Left || p == Right
  {
    forall i :: 0 <= i < |poses| - 1 ==> poses[i + 1] == TruthStep(truth, p, poses[i])
  }

  lemma TruthRunExtend(truth: Truth, p: int, poses: seq<Pose>, q: Pose)
    requires p == Left || p == Right
    requires |poses| >= 1 && TruthRun(truth, p, poses) && q == TruthStep(truth, p, poses[|poses| - 1])
    ensures TruthRun(truth, p, poses + [q])
  {
    var s := poses + [q];
    forall i | 0 <= i < |s| - 1 ensures s[i + 1] == TruthStep(truth, p, s[i]) {
      assert s[i] == poses[i];
    }
  }

  /**
   * counts[k] is the move count at pose k of the trace: it stays on a pass
   * that turns around on the spot and grows by one on a pass that changes cell.
   */
  predicate MovesRun(poses: seq<Pose>, counts: seq<nat>)
    requires |counts| == |poses|
  {
    forall i :: 0 <= i < |poses| - 1 ==>
      counts[i + 1] == counts[i] + (if At(poses[i + 1], poses[i].0, poses[i].1) then 0 else 1)
  }

  lemma MovesRunExtend(poses: seq<Pose>, counts: seq<nat>, q: Pose, m: nat)
    requires 1 <= |poses| == |counts| && MovesRun(poses, counts)
    requires var last := poses[|poses| - 1];
             m == counts[|poses| - 1] + (if At(q, last.0, last.1) then 0 else 1)
    ensures MovesRun(poses + [q], counts + [m])
  {
    var s, c := poses + [q], counts + [m];
    forall i | 0 <= i < |s| - 1
      ensures c[i + 1] == c[i] + (if At(s[i + 1], s[i].0, s[i].1) then 0 else 1)
    {
      assert s[i] == poses[i] && c[i] == counts[i];
    }
  }

  /**
   * The log entry of cell (x, y) after the first n passes of a trace, from
   * entry e0: pass k stands on poses[k] with move count counts[k] and, as
   * update_first_vist does, writes that count where the entry is still 0.
   */
  function LogOf(e0: nat, poses: seq<Pose>, counts: seq<nat>, n: nat, x: int, y: int): nat
    requires n <= |poses| == |counts|
  {
    if n == 0 then e0
    else
      var e := LogOf(e0, poses, counts, n - 1, x, y);
      if At(poses[n - 1], x, y) && e == 0 then counts[n - 1] else e
  }

  lemma {:induction false} LogOfPrefix(e0: nat, poses: seq<Pose>, counts: seq<nat>, q: Pose, m: nat, n: nat, x: int, y: int)
    requires n <= |poses| == |counts|
    ensures LogOf(e0, poses + [q], counts + [m], n, x, y) == LogOf(e0, poses, counts, n, x, y)
  {
    if n > 0 {
      LogOfPrefix(e0, poses, counts, q, m, n - 1, x, y);
      assert (poses + [q])[n - 1] == poses[n - 1] && (counts + [m])[n - 1] == counts[n - 1];
    }
  }

  /** Appending a pass and applying it is one more update_first_vist over the log so far. */
  lemma LogOfStep(e0: nat, poses: seq<Pose>, counts: seq<nat>, q: Pose, m: nat, x: int, y: int)
    requires 1 <= |poses| == |counts|
    ensures var e := LogOf(e0, poses, counts, |poses| - 1, x, y);
            LogOf(e0, poses + [q], counts + [m], |poses|, x, y) ==
              if At(poses[|poses| - 1], x, y) && e == 0 then counts[|poses| - 1] else e
  {
    LogOfPrefix(e0, poses, counts, q, m, |poses| - 1, x, y);
    assert (poses + [q])[|poses| - 1] == poses[|poses| - 1] && (counts + [m])[|poses| - 1] == counts[|poses| - 1];
  }

  /**
   * A non-zero entry is never overwritten; an entry the trace changes was 0
   * and now holds the move count of a pass that stood on the cell.
   */
  lemma {:induction false} LogOfChanges(e0: nat, poses: seq<Pose>, counts: seq<nat>, n: nat, x: int, y: int)
    requires n <= |poses| == |counts|
    ensures e0 != 0 ==> LogOf(e0, poses, counts, n, x, y) == e0
    ensures LogOf(e0, poses, counts, n, x, y) != e0 ==>
              e0 == 0 && exists k :: 0 <= k < n && At(poses[k], x, y) && LogOf(e0, poses, counts, n, x, y) == counts[k]
  {
    if n > 0 {
      LogOfChanges(e0, poses, counts, n - 1, x, y);
      if LogOf(e0, poses, counts, n, x, y) != LogOf(e0, poses, counts, n - 1, x, y) {
        assert At(poses[n - 1], x, y);
      }
    }
  }

  /** Passes that never stand on the cell leave its entry alone. */
  lemma {:induction false} LogOfAway(e0: nat, poses: seq<Pose>, counts: seq<nat>, n: nat, x: int, y: int)
    requires n <= |poses| == |counts|
    requires forall k :: 0 <= k < n ==> !At(poses[k], x, y)
    ensures LogOf(e0, poses, counts, n, x, y) == e0
  {
    if n > 0 {
      LogOfAway(e0, poses, counts, n - 1, x, y);
    }
  }

  /** An entry that starts at 0 keeps 0 while every pass on the cell has move count 0. */
  lemma {:induction false} LogOfUnvisited(poses: seq<Pose>, counts: seq<nat>, n: nat, x: int, y: int)
    requires n <= |poses| == |counts|
    requires forall j :: 0 <= j < n && At(poses[j], x, y) ==> counts[j] == 0
    ensures LogOf(0, poses, counts, n, x, y) == 0
  {
    if n > 0 {
      LogOfUnvisited(poses, counts, n - 1, x, y);
    }
  }

  /**
   * An entry that starts at 0 ends as the move count of the first pass on
   * the cell whose count is not 0: the first visit the log records.
   */
  lemma {:induction false} LogOfFirst(poses: seq<Pose>, counts: seq<nat>, n: nat, k: nat, x: int, y: int)
    requires n <= |poses| == |counts| && k < n
    requires At(poses[k], x, y) && counts[k] != 0
    requires forall j :: 0 <= j < k && At(poses[j], x, y) ==> counts[j] == 0
    ensures LogOf(0, poses, counts, n, x, y) == counts[k]
  {
    if n - 1 == k {
      LogOfUnvisited(poses, counts, k, x, y);
    } else {
      LogOfFirst(poses, counts, n - 1, k, x, y);
    }
  }

  /**
   * One wall-following pass decided by the maze itself: the ladder over the
   * true walls on the preferred, front and opposite sides; a reverse turn
   * stays on the cell, any other turn steps to the neighbour. Such a pass
   * never goes through a wall.
   */
  function TruthStep(truth: Truth, p: int, pose: Pose): (r: Pose)
    requires p == Left || p == Right
    ensures ((r.0, r.1) == (pose.0, pose.1) && r.2 == CalculateDir(pose.2, Reverse)) ||
            ((r.0, r.1) == Neighbor(pose.0, pose.1, r.2) && !truth(pose.0, pose.1, r.2))
  {
    var (x, y, d) := pose;
    var t := LadderTurn(p, truth(x, y, CalculateDir(d, p)), truth(x, y, CalculateDir(d, Front)),
                        truth(x, y, CalculateDir(d, -p)));
    var d' := CalculateDir(d, t);
    if t == Reverse then (x, y, d') else (Neighbor(x, y, d').0, Neighbor(x, y, d').1, d')
  }

  /** What return_to_init_loc's search sees on one side of the mouse. */
  datatype Side =
    | Origin               // open, and the neighbour is (0, 0)
    | Skip                 // a recorded wall, outside the grid, or never logged
    | Logged(entry: nat)   // open onto a cell first reached at move `entry`

  /**
   * The search over sides i.. of s in order, with `best` the index chosen so
   * far: an Origin side ends it, and a Logged side replaces `best` only with a
   * strictly smaller entry.
   */
  function Scan(s: seq<Side>, i: nat, best: Option<nat>): (r: Option<nat>)
    requires i <= |s|
    requires best.Some? ==> best.value < i && s[best.value].Logged?
    ensures r.Some? ==> r.value < |s| && (s[r.value].Origin? || s[r.value].Logged?)
    decreases |s| - i
  {
    if i == |s| then best
    else if s[i].Origin? then Some(i)
    else if s[i].Logged? && (best.None? || s[i].entry < s[best.value].entry) then Scan(s, i + 1, Some(i))
    else Scan(s, i + 1, best)
  }

  /** When an Origin side lies ahead, the search picks the first one. */
  lemma {:induction false} ScanHome(s: seq<Side>, i: nat, best: Option<nat>)
    requires i <= |s|
    requires best.Some? ==> best.value < i && s[best.value].Logged?
    requires exists j :: i <= j < |s| && s[j].Origin?
    ensures var r := Scan(s, i, best);
            r.Some? && i <= r.value && s[r.value].Origin? && forall j :: i <= j < r.value ==> !s[j].Origin?
    decreases |s| - i
  {
    if s[i].Origin? {
    } else if s[i].Logged? && (best.None? || s[i].entry < s[best.value].entry) {
      ScanHome(s, i + 1, Some(i));
    } else {
      ScanHome(s, i + 1, best);
    }
  }

  /** With no Origin side ahead, the search yields None exactly when nothing is chosen and nothing ahead is Logged. */
  lemma {:induction false} ScanNone(s: seq<Side>, i: nat, best: Option<nat>)
    requires i <= |s|
    requires best.Some? ==> best.value < i && s[best.value].Logged?
    requires forall j :: i <= j < |s| ==> !s[j].Origin?
    ensures Scan(s, i, best).None? <==> best.None? && forall j :: i <= j < |s| ==> !s[j].Logged?
    decreases |s| - i
  {
    if i == |s| {
    } else if s[i].Logged? && (best.None? || s[i].entry < s[best.value].entry) {
      ScanNone(s, i + 1, Some(i));
    } else {
      ScanNone(s, i + 1, best);
    }
  }

  /**
   * With no Origin side ahead, the search yields a Logged side whose entry is
   * at most that of `best` and of every Logged side ahead, and the earliest
   * such side on a tie.
   */
  lemma {:induction false} ScanMin(s: seq<Side>, i: nat, best: Option<nat>)
    requires i <= |s|
    requires best.Some? ==> best.value < i && s[best.value].Logged?
    requires forall j :: i <= j < |s| ==> !s[j].Origin?
    ensures var r := Scan(s, i, best);
            r.Some? ==>
              s[r.value].Logged? &&
              (best.Some? ==> s[r.value].entry < s[best.value].entry || r == best) &&
              forall j :: i <= j < |s| && s[j].Logged? ==>
                s[r.value].entry < s[j].entry || (s[r.value].entry == s[j].entry && r.value <= j)
    decreases |s| - i
  {
    if i == |s| {
    } else if s[i].Logged? && (best.None? || s[i].entry < s[best.value].entry) {
      ScanMin(s, i + 1, Some(i));
    } else {
      ScanMin(s, i + 1, best);
    }
  }

  /** A snapshot of the local map, rows indexed by y as in the source. */
  type Grid = seq<seq<Cell>>
  /** A snapshot of the visit log, rows indexed by y. */
  type Log = seq<seq<nat>>

  /** Slot k of cell (x, y) in snapshot g; unknown off the snapshot. */
  function GridSlot(g: Grid, x: int, y: int, k: Dir): int
  {
    if 0 <= y < |g| && 0 <= x < |g[y]| then g[y][x].IsWall(k) else Unknown
  }

  /** The log entry of cell (x, y) in snapshot l; 0 off the snapshot. */
  function LogEntry(l: Log, x: int, y: int): nat
  {
    if 0 <= y < |l| && 0 <= x < |l[y]| then l[y][x] else 0
  }

  /** The cell one step along relative direction d from a mouse at (x, y) facing dir. */
  function Target(x: int, y: int, dir: Dir, d: int): (int, int)
    requires Left <= d <= Right
  {
    Neighbor(x, y, CalculateDir(dir, d))
  }

  /** Relative direction d of pose (x, y, dir) is open towards the origin. */
  predicate LeadsHome(g: Grid, x: int, y: int, dir: Dir, d: int)
    requires Left <= d <= Right
  {
    GridSlot(g, x, y, CalculateDir(dir, d)) != Wall && Target(x, y, dir, d) == (0, 0)
  }

  /** Relative direction d of pose (x, y, dir) is open towards a logged cell other than the origin. */
  predicate Candidate(g: Grid, l: Log, x: int, y: int, dir: Dir, d: int)
    requires Left <= d <= Right
  {
    var t := Target(x, y, dir, d);
    GridSlot(g, x, y, CalculateDir(dir, d)) != Wall && InGrid(t.0, t.1) && t != (0, 0) && LogEntry(l, t.0, t.1) != 0
  }

  /** The log entry of the cell along relative direction d. */
  function VisitOf(l: Log, x: int, y: int, dir: Dir, d: int): nat
    requires Left <= d <= Right
  {
    var t := Target(x, y, dir, d);
    LogEntry(l, t.0, t.1)
  }

  /** The side the search sees along relative direction d of pose (x, y, dir). */
  function SideAt(g: Grid, l: Log, x: int, y: int, dir: Dir, d: int): (r: Side)
    requires Left <= d <= Right
    ensures r.Origin? <==> LeadsHome(g, x, y, dir, d)
    ensures r.Logged? <==> Candidate(g, l, x, y, dir, d)
    ensures r.Logged? ==> r.entry == VisitOf(l, x, y, dir, d)
  {
    if LeadsHome(g, x, y, dir, d) then Origin
    else if Candidate(g, l, x, y, dir, d) then Logged(VisitOf(l, x, y, dir, d))
    else Skip
  }

  /** The left, front and right sides of pose (x, y, dir), in the order the search visits them. */
  function Sides(g: Grid, l: Log, x: int, y: int, dir: Dir): seq<Side>
  {
    [SideAt(g, l, x, y, dir, Left), SideAt(g, l, x, y, dir, Front), SideAt(g, l, x, y, dir, Right)]
  }

  /** The relative direction return_to_init_loc's search picks at pose (x, y, dir), None when nothing qualifies. */
  function ReturnChoice(g: Grid, l: Log, x: int, y: int, dir: Dir): (r: Option<int>)
    ensures r.Some? ==> Left <= r.value <= Right
  {
    var i := Scan(Sides(g, l, x, y, dir), 0, None);
    if i.Some? then Some(i.value - 1) else None
  }

  /** The index into Sides of a relative direction already picked, as Scan tracks it. */
  function Entry(next: Option<int>): (r: Option<nat>)
    ensures r.Some? <==> next.Some? && next.value >= -1
  {
    if next.Some? && next.value >= -1 then Some(next.value + 1) else None
  }

  /** A chosen side is open onto the origin or onto a logged cell. */
  lemma ReturnChoiceOpen(g: Grid, l: Log, x: int, y: int, dir: Dir)
    requires ReturnChoice(g, l, x, y, dir).Some?
    ensures var d := ReturnChoice(g, l, x, y, dir).value; LeadsHome(g, x, y, dir, d) || Candidate(g, l, x, y, dir, d)
  {
    var s := Sides(g, l, x, y, dir);
    var i: int := Scan(s, 0, None).value;
    assert s[i] == SideAt(g, l, x, y, dir, i - 1);
  }

  /** A side open onto (0, 0) is always taken: the choice is the first such side. */
  lemma ReturnChoiceHome(g: Grid, l: Log, x: int, y: int, dir: Dir, d: int)
    requires Left <= d <= Right && LeadsHome(g, x, y, dir, d)
    ensures var r := ReturnChoice(g, l, x, y, dir);
            r.Some? && r.value <= d && LeadsHome(g, x, y, dir, r.value) &&
            forall e :: Left <= e < r.value ==> !LeadsHome(g, x, y, dir, e)
  {
    var s := Sides(g, l, x, y, dir);
    assert s[d + 1].Origin?;
    ScanHome(s, 0, None);
    var i: int := Scan(s, 0, None).value;
    assert s[i] == SideAt(g, l, x, y, dir, i - 1);
    forall e | Left <= e < i - 1 ensures !LeadsHome(g, x, y, dir, e) {
      assert !s[e + 1].Origin?;
    }
  }

  /** With no side open onto (0, 0), there is no choice exactly when no side is a candidate. */
  lemma ReturnChoiceNone(g: Grid, l: Log, x: int, y: int, dir: Dir)
    requires forall d :: Left <= d <= Right ==> !LeadsHome(g, x, y, dir, d)
    ensures ReturnChoice(g, l, x, y, dir).None? <==> forall d :: Left <= d <= Right ==> !Candidate(g, l, x, y, dir, d)
  {
    var s := Sides(g, l, x, y, dir);
    forall j | 0 <= j < 3 ensures !s[j].Origin? {
      assert s[j] == SideAt(g, l, x, y, dir, j - 1);
    }
    ScanNone(s, 0, None);
    if ReturnChoice(g, l, x, y, dir).None? {
      forall d | Left <= d <= Right ensures !Candidate(g, l, x, y, dir, d) {
        assert !s[d + 1].Logged?;
      }
    } else {
      var i: int := Scan(s, 0, None).value;
      assert s[i] == SideAt(g, l, x, y, dir, i - 1);
    }
  }

  /**
   * With no side open onto (0, 0), the choice is a candidate whose entry is
   * no larger than that of any candidate d, and not after d on a tie.
   */
  lemma ReturnChoiceMin(g: Grid, l: Log, x: int, y: int, dir: Dir, d: int)
    requires forall e :: Left <= e <= Right ==> !LeadsHome(g, x, y, dir, e)
    requires Left <= d <= Right && Candidate(g, l, x, y, dir, d)
    ensures var r := ReturnChoice(g, l, x, y, dir);
            r.Some? && Candidate(g, l, x, y, dir, r.value) &&
            (VisitOf(l, x, y, dir, r.value) < VisitOf(l, x, y, dir, d) ||
             (VisitOf(l, x, y, dir, r.value) == VisitOf(l, x, y, dir, d) && r.value <= d))
  {
    var s := Sides(g, l, x, y, dir);
    assert forall j :: 0 <= j < 3 ==> s[j] == SideAt(g, l, x, y, dir, j - 1);
    ScanNone(s, 0, None);
    ScanMin(s, 0, None);
    assert s[d + 1].Logged?;
  }

  /** No side of pose (x, y, dir) is open onto (0, 0) or onto a logged cell. */
  predicate NoSide(g: Grid, l: Log, x: int, y: int, dir: Dir)
  {
    forall d :: Left <= d <= Right ==> !LeadsHome(g, x, y, dir, d) && !Candidate(g, l, x, y, dir, d)
  }

  /**
   * Where the search finds nothing, no side is open onto (0, 0) and no side
   * is a candidate: the case in which the source reuses a stale dir_next.
   */
  lemma StuckMeansNoSide(g: Grid, l: Log, x: int, y: int, dir: Dir)
    requires ReturnChoice(g, l, x, y, dir).None?
    ensures NoSide(g, l, x, y, dir)
  {
    forall d | Left <= d <= Right ensures !LeadsHome(g, x, y, dir, d) {
      if LeadsHome(g, x, y, dir, d) {
        ReturnChoiceHome(g, l, x, y, dir, d);
      }
    }
    ReturnChoiceNone(g, l, x, y, dir);
  }

  /** Cell b is the neighbour of cell a across a side snapshot g does not record as a wall. */
  predicate OpenStep(g: Grid, a: (int, int), b: (int, int))
  {
    InGrid(a.0, a.1) && exists k: Dir :: Neighbor(a.0, a.1, k) == b && GridSlot(g, a.0, a.1, k) != Wall
  }

  /** Cell b is in the grid, and it is the origin or a logged cell. */
  predicate HomeOrLogged(l: Log, b: (int, int))
  {
    InGrid(b.0, b.1) && (b == (0, 0) || LogEntry(l, b.0, b.1) != 0)
  }

  /**
   * One pass of the return from cell a facing h: the search there picks a
   * side, the mouse turns to it, now facing h', and steps onto cell b.
   */
  predicate FollowsChoice(g: Grid, l: Log, a: (int, int), h: Dir, b: (int, int), h': Dir)
  {
    InGrid(a.0, a.1) &&
    var c := ReturnChoice(g, l, a.0, a.1, h);
    c.Some? && h' == CalculateDir(h, c.value) && b == Neighbor(a.0, a.1, h')
  }

  /** Following the search's choice crosses an open side onto the origin or a logged cell. */
  lemma FollowsChoiceOpen(g: Grid, l: Log, a: (int, int), h: Dir, b: (int, int), h': Dir)
    requires FollowsChoice(g, l, a, h, b, h')
    ensures OpenStep(g, a, b) && HomeOrLogged(l, b)
  {
    ReturnChoiceOpen(g, l, a.0, a.1, h);
    assert GridSlot(g, a.0, a.1, h') != Wall && Neighbor(a.0, a.1, h') == b;
  }

  /**
   * One pass of the return, as return_to_init_loc takes it: from cell a,
   * which is not the origin, facing h, the mouse follows the search's choice
   * onto cell b, facing h'.
   */
  predicate ReturnPass(g: Grid, l: Log, a: (int, int), h: Dir, b: (int, int), h': Dir)
  {
    a != (0, 0) && FollowsChoice(g, l, a, h, b, h')
  }

  /** Every consecutive pair of the return trail is a ReturnPass. */
  predicate ReturnRun(g: Grid, l: Log, trail: seq<(int, int)>, headings: seq<Dir>)
    requires |headings| == |trail|
  {
    forall i :: 0 <= i < |trail| - 1 ==> ReturnPass(g, l, trail[i], headings[i], trail[i + 1], headings[i + 1])
  }

  lemma ReturnRunExtend(g: Grid, l: Log, trail: seq<(int, int)>, headings: seq<Dir>, b: (int, int), h': Dir)
    requires 1 <= |headings| == |trail| && ReturnRun(g, l, trail, headings)
    requires ReturnPass(g, l, trail[|trail| - 1], headings[|trail| - 1], b, h')
    ensures ReturnRun(g, l, trail + [b], headings + [h'])
  {
    var t, hs := trail + [b], headings + [h'];
    forall i | 0 <= i < |t| - 1 ensures ReturnPass(g, l, t[i], hs[i], t[i + 1], hs[i + 1]) {
      assert t[i] == trail[i] && hs[i] == headings[i];
    }
  }

  /**
   * A return trail crosses only sides the map records as open, and every
   * cell on it after the first is the origin or a logged cell.
   */
  lemma ReturnRunOpen(g: Grid, l: Log, trail: seq<(int, int)>, headings: seq<Dir>)
    requires |headings| == |trail| && ReturnRun(g, l, trail, headings)
    ensures forall i :: 0 <= i < |trail| - 1 ==> OpenStep(g, trail[i], trail[i + 1])
    ensures forall i :: 0 < i < |trail| ==> HomeOrLogged(l, trail[i])
  {
    forall i | 0 <= i < |trail| - 1 ensures OpenStep(g, trail[i], trail[i + 1]) {
      FollowsChoiceOpen(g, l, trail[i], headings[i], trail[i + 1], headings[i + 1]);
    }
    forall i | 0 < i < |trail| ensures HomeOrLogged(l, trail[i]) {
      FollowsChoiceOpen(g, l, trail[i - 1], headings[i - 1], trail[i], headings[i]);
    }
  }

  class Algorithm {
    /** m_maze: the local map, indexed [y, x] as in the source. */
    const maze: array2<Cell>
    /** m_mouse */
    const mouse: Mouse
    /** m_first_visit: the move count at which each cell was first logged; 0 is "not visited". */
    const firstVisit: array2<nat>

    /** The grid and the visit log are 16 by 16. */
    predicate Dims()
    {
      maze.Length0 == Height && maze.Length1 == Width &&
      firstVisit.Length0 == Height && firstVisit.Length1 == Width
    }

    /** Fixed dimensions, and the mouse stands in the grid. */
    ghost predicate Valid()
      reads mouse
    {
      Dims() && InGrid(mouse.x, mouse.y)
    }

    /** Slot k of cell (x, y) in the local map. */
    ghost function Slot(x: int, y: int, k: Dir): int
      reads maze
      requires Dims() && InGrid(x, y)
    {
      maze[y, x].IsWall(k)
    }

    /** Every outward side of the grid is recorded as a wall. */
    ghost predicate Borders()
      reads maze
      requires Dims()
    {
      forall x: int, y: int, k: Dir | OnBorder(x, y, k) :: Slot(x, y, k) == Wall
    }

    /** Every slot the map knows agrees with the maze. */
    ghost predicate Sound(truth: Truth)
      reads maze
      requires Dims()
    {
      forall x: int, y: int, k: Dir | InGrid(x, y) && Slot(x, y, k) != Unknown ::
        Slot(x, y, k) == B2I(truth(x, y, k))
    }

    /** All four slots of the mouse's cell are known. */
    ghost predicate CurrentKnown()
      reads maze, mouse
      requires Valid()
    {
      forall k: Dir :: Slot(mouse.x, mouse.y, k) != Unknown
    }

    /** A new Algorithm: a new mouse, a map of unknown slots and an all-zero visit log. */
    constructor ()
      ensures Valid() && fresh(maze) && fresh(mouse) && fresh(firstVisit)
      ensures mouse.x == 0 && mouse.y == 0 && mouse.dir == 0 && mouse.moves == 0
      ensures forall x: int, y: int, k: Dir | InGrid(x, y) :: Slot(x, y, k) == Unknown
      ensures forall i, j :: 0 <= i < Height && 0 <= j < Width ==> firstVisit[i, j] == 0
    {
      maze := new Cell[Height, Width]((i, j) => NewCell());
      mouse := new Mouse();
      firstVisit := new nat[Height, Width]((i, j) => 0);
    }

    /**
     * init_maze: logs the origin at move 0 and records a wall on every outward
     * side: south of row 0, north of the top row, west of column 0, east of the
     * last column. Every other slot keeps its value.
     */
    method InitMaze()
      requires Valid()
      modifies maze, firstVisit
      ensures Valid() && Borders()
      ensures forall x: int, y: int, k: Dir | InGrid(x, y) ::
                Slot(x, y, k) == if OnBorder(x, y, k) then Wall else old(Slot(x, y, k))
      ensures firstVisit[0, 0] == 0
      ensures forall i, j :: 0 <= i < Height && 0 <= j < Width && (i, j) != (0, 0) ==>
                firstVisit[i, j] == old(firstVisit[i, j])
    {
      firstVisit[0, 0] := 0;
      for i := 0 to Width
        invariant Valid()
        invariant firstVisit[0, 0] == 0
        invariant forall i, j :: 0 <= i < Height && 0 <= j < Width && (i, j) != (0, 0) ==>
                    firstVisit[i, j] == old(firstVisit[i, j])
        invariant forall x: int, y: int, k: Dir | InGrid(x, y) ::
                    Slot(x, y, k) == if x < i && ((y == 0 && k == 2) || (y == Height - 1 && k == 0))
                                     then Wall else old(Slot(x, y, k))
      {
        label Before:
        maze[0, i] := maze[0, i].SetWall(Dir2Int('s'), true);
        maze[Height - 1, i] := maze[Height - 1, i].SetWall(Dir2Int('n'), true);
        forall x: int, y: int, k: Dir | InGrid(x, y)
          ensures Slot(x, y, k) == if x < i + 1 && ((y == 0 && k == 2) || (y == Height - 1 && k == 0))
                                   then Wall else old(Slot(x, y, k))
        {
          if x != i || (y != 0 && y != Height - 1) {
            assert Slot(x, y, k) == old@Before(Slot(x, y, k));
          }
        }
      }
      for i := 0 to Height
        invariant Valid()
        invariant firstVisit[0, 0] == 0
        invariant forall i, j :: 0 <= i < Height && 0 <= j < Width && (i, j) != (0, 0) ==>
                    firstVisit[i, j] == old(firstVisit[i, j])
        invariant forall x: int, y: int, k: Dir | InGrid(x, y) ::
                    Slot(x, y, k) == if ((y == 0 && k == 2) || (y == Height - 1 && k == 0)) ||
                                        (y < i && ((x == 0 && k == 3) || (x == Width - 1 && k == 1)))
                                     then Wall else old(Slot(x, y, k))
      {
        label Before:
        maze[i, 0] := maze[i, 0].SetWall(Dir2Int('w'), true);
        maze[i, Width - 1] := maze[i, Width - 1].SetWall(Dir2Int('e'), true);
        forall x: int, y: int, k: Dir | InGrid(x, y)
          ensures Slot(x, y, k) == if ((y == 0 && k == 2) || (y == Height - 1 && k == 0)) ||
                                      (y < i + 1 && ((x == 0 && k == 3) || (x == Width - 1 && k == 1)))
                                   then Wall else old(Slot(x, y, k))
        {
          if y != i || (x != 0 && x != Width - 1) || (x == 0 && k != 3) || (x == Width - 1 && k != 1) {
            assert Slot(x, y, k) == old@Before(Slot(x, y, k));
          }
        }
      }
    }

    /**
     * update_first_vist: logs the current move count at the mouse's cell if
     * that entry is 0; a non-zero entry and every other cell are unchanged.
     */
    method UpdateFirstVisit()
      requires Valid()
      modifies firstVisit
      ensures forall i, j :: 0 <= i < Height && 0 <= j < Width ==>
                firstVisit[i, j] == if (j, i) == (mouse.x, mouse.y) && old(firstVisit[i, j]) == 0
                                    then mouse.moves else old(firstVisit[i, j])
    {
      var x := mouse.x;
      var y := mouse.y;
      if firstVisit[y, x] == 0 {
        firstVisit[y, x] := mouse.moves;
      }
    }

    /**
     * check_wall: true iff the map records a wall on side `lfr` (-1 left,
     * 0 front, 1 right) of the mouse's cell. An unknown slot reads as no wall.
     */
    function CheckWall(lfr: int): (r: bool)
      reads mouse, maze
      requires Valid() && Left <= lfr <= Right
      ensures r <==> Slot(mouse.x, mouse.y, CalculateDir(mouse.dir, lfr)) == Wall
      ensures Slot(mouse.x, mouse.y, CalculateDir(mouse.dir, lfr)) == Unknown ==> !r
    {
      var d := CalculateDir(mouse.dir, lfr);
      var check := maze[mouse.y, mouse.x].IsWall(d);
      if check == Wall then true
      else if check == NoWall then false
      else false
    }

    /** On a sound map that knows every side of the mouse's cell, check_wall answers what the maze says. */
    lemma CheckWallIsTruth(truth: Truth, lfr: int)
      requires Valid() && Left <= lfr <= Right && Sound(truth) && CurrentKnown()
      ensures CheckWall(lfr) == truth(mouse.x, mouse.y, CalculateDir(mouse.dir, lfr))
    {
      var k := CalculateDir(mouse.dir, lfr);
      assert Slot(mouse.x, mouse.y, k) != Unknown;
    }

    /**
     * detect_wall_lfr: for the left, front and right sides of heading
     * `currDir` in cell (x, y), a slot the map does not know is filled with the
     * answer of the matching sensor, which reads the side at the same offset
     * from the mouse's own pose. Afterwards those three slots are known; known
     * slots, the back slot and all other cells are unchanged. Called at the
     * mouse's own pose it keeps the map sound and, once the back slot is
     * known too, knows the whole cell.
     */
    method DetectWallLfr(currDir: Dir, x: int, y: int, truth: Truth)
      requires Valid() && InGrid(x, y)
      modifies maze
      ensures forall k: Dir ::
                Slot(x, y, k) ==
                  if Offset(currDir, k) != Reverse && old(Slot(x, y, k)) == Unknown
                  then B2I(truth(mouse.x, mouse.y, CalculateDir(mouse.dir, Offset(currDir, k))))
                  else old(Slot(x, y, k))
      ensures forall i: int, j: int, k: Dir | InGrid(i, j) && (i, j) != (x, y) :: Slot(i, j, k) == old(Slot(i, j, k))
      ensures forall k: Dir | Offset(currDir, k) != Reverse :: Slot(x, y, k) != Unknown
      ensures forall i: int, j: int, k: Dir | InGrid(i, j) && old(Slot(i, j, k)) != Unknown ::
                Slot(i, j, k) == old(Slot(i, j, k))
      ensures old(Borders()) ==> Borders()
      ensures currDir == mouse.dir && x == mouse.x && y == mouse.y && old(Sound(truth)) ==> Sound(truth)
      ensures (currDir == mouse.dir && x == mouse.x && y == mouse.y &&
               old(Slot(x, y, CalculateDir(currDir, Reverse))) != Unknown) ==> CurrentKnown()
    {
      var dirs := [Left, Front, Right];
      for i := 0 to |dirs|
        invariant forall k: Dir ::
                    Slot(x, y, k) ==
                      if Offset(currDir, k) < i - 1 && old(Slot(x, y, k)) == Unknown
                      then B2I(truth(mouse.x, mouse.y, CalculateDir(mouse.dir, Offset(currDir, k))))
                      else old(Slot(x, y, k))
        invariant forall i: int, j: int, k: Dir | InGrid(i, j) && (i, j) != (x, y) :: Slot(i, j, k) == old(Slot(i, j, k))
      {
        var d := dirs[i];
        var d' := CalculateDir(currDir, d);
        OffsetOfTurn(currDir, d);
        var checkResult := false;
        if maze[y, x].IsWall(d') == Unknown {
          if d == Front {
            checkResult := WallFront(truth, mouse.x, mouse.y, mouse.dir);
          } else if d == Left {
            checkResult := WallLeft(truth, mouse.x, mouse.y, mouse.dir);
          } else if d == Right {
            checkResult := WallRight(truth, mouse.x, mouse.y, mouse.dir);
          }
          maze[y, x] := maze[y, x].SetWall(d', checkResult);
        }
      }
      OffsetOfTurn(currDir, Reverse);
    }

    /**
     * update_back_wall: records `isWall` in the slot behind the mouse; every
     * other slot is unchanged. Recording an open side keeps every outward side
     * a wall unless that side faces out, and recording what the maze has keeps
     * the map sound.
     */
    method UpdateBackWall(isWall: bool, ghost truth: Truth)
      requires Valid()
      modifies maze
      ensures Valid()
      ensures Slot(mouse.x, mouse.y, CalculateDir(mouse.dir, Reverse)) == B2I(isWall)
      ensures forall k: Dir | k != CalculateDir(mouse.dir, Reverse) ::
                Slot(mouse.x, mouse.y, k) == old(Slot(mouse.x, mouse.y, k))
      ensures forall i: int, j: int, k: Dir | InGrid(i, j) && (i, j) != (mouse.x, mouse.y) ::
                Slot(i, j, k) == old(Slot(i, j, k))
      ensures old(Borders()) && (isWall || !OnBorder(mouse.x, mouse.y, CalculateDir(mouse.dir, Reverse))) ==>
                Borders()
      ensures old(Sound(truth)) && truth(mouse.x, mouse.y, CalculateDir(mouse.dir, Reverse)) == isWall ==>
                Sound(truth)
    {
      var dirOffset := Reverse;
      maze[mouse.y, mouse.x] := maze[mouse.y, mouse.x].SetWall(CalculateDir(mouse.dir, dirOffset), isWall);
    }

    /** A side the map does not record as a wall never faces out of the grid. */
    lemma StaysInside(x: int, y: int, k: Dir)
      requires Dims() && Borders() && InGrid(x, y) && Slot(x, y, k) != Wall
      ensures InGrid(Neighbor(x, y, k).0, Neighbor(x, y, k).1)
    {
    }

    /**
     * One pass of follow_wall's loop: log the cell, then take the first rule
     * of the ladder that applies (preferred side p open: turn p; front open:
     * no turn; opposite side open: turn -p; else reverse and stay). Unless it
     * reversed, move one cell, record the slot behind the mouse as open and
     * sense the unknown sides of the new cell.
     */
    method FollowWallStep(p: int, truth: Truth) returns (doMove: bool)
      requires Valid() && Borders() && (p == Left || p == Right)
      modifies mouse, maze, firstVisit
      ensures Valid() && Borders()
      ensures forall i, j :: 0 <= i < Height && 0 <= j < Width ==>
                firstVisit[i, j] == if (j, i) == (old(mouse.x), old(mouse.y)) && old(firstVisit[i, j]) == 0
                                    then old(mouse.moves) else old(firstVisit[i, j])
      ensures var t := LadderTurn(p, old(CheckWall(p)), old(CheckWall(Front)), old(CheckWall(-p)));
              mouse.dir == CalculateDir(old(mouse.dir), t) && (doMove <==> t != Reverse)
      ensures doMove ==> (mouse.x, mouse.y) == Neighbor(old(mouse.x), old(mouse.y), mouse.dir) &&
                         mouse.moves == old(mouse.moves) + 1
      ensures !doMove ==> mouse.x == old(mouse.x) && mouse.y == old(mouse.y) && mouse.moves == old(mouse.moves)
      ensures !doMove ==> forall i: int, j: int, k: Dir | InGrid(i, j) :: Slot(i, j, k) == old(Slot(i, j, k))
      ensures doMove ==> Slot(mouse.x, mouse.y, CalculateDir(mouse.dir, Reverse)) == NoWall
      ensures doMove ==> forall k: Dir | k != CalculateDir(mouse.dir, Reverse) ::
                var x, y := mouse.x, mouse.y;
                Slot(x, y, k) == if old(Slot(x, y, k)) == Unknown then B2I(truth(x, y, k)) else old(Slot(x, y, k))
      ensures doMove ==> forall i: int, j: int, k: Dir | InGrid(i, j) && (i, j) != (mouse.x, mouse.y) ::
                Slot(i, j, k) == old(Slot(i, j, k))
      ensures old(Sound(truth)) && old(CurrentKnown()) && Symmetric(truth) ==>
                Sound(truth) && CurrentKnown() && (doMove ==> !truth(old(mouse.x), old(mouse.y), mouse.dir))
      ensures old(Sound(truth)) && old(CurrentKnown()) && Symmetric(truth) ==>
                (mouse.x, mouse.y, mouse.dir) == TruthStep(truth, p, (old(mouse.x), old(mouse.y), old(mouse.dir)))
    {
      ghost var x, y, d := mouse.x, mouse.y, mouse.dir;
      if Sound(truth) && CurrentKnown() {
        CheckWallIsTruth(truth, p);
        CheckWallIsTruth(truth, Front);
        CheckWallIsTruth(truth, -p);
      }
      UpdateFirstVisit();
      doMove := LadderStep(p);
      if doMove {
        AdvanceAndSense(truth);
      }
    }

    /**
     * The turning half of a wall-following step: turn to the first side
     * of preferred, front and opposite the map does not record as a wall,
     * or reverse when all three are walls. Only the heading changes.
     */
    method LadderStep(p: int) returns (doMove: bool)
      requires Valid() && (p == Left || p == Right)
      modifies mouse
      ensures Valid()
      ensures var t := LadderTurn(p, old(CheckWall(p)), old(CheckWall(Front)), old(CheckWall(-p)));
              mouse.dir == CalculateDir(old(mouse.dir), t) && (doMove <==> t != Reverse)
      ensures mouse.x == old(mouse.x) && mouse.y == old(mouse.y) && mouse.moves == old(mouse.moves)
      ensures doMove ==> Slot(mouse.x, mouse.y, mouse.dir) != Wall
    {
      doMove := true;
      if !CheckWall(p) {
        mouse.Turn(p);
      } else if !CheckWall(Front) {
      } else if !CheckWall(-p) {
        mouse.Turn(-p);
      } else {
        mouse.Turn(Reverse);
        doMove := false;
      }
    }

    /**
     * The moving half of a wall-following step: move_forward, then
     * update_back_wall(false) (the mouse cannot have come through a wall), then
     * detect_wall_lfr at the new cell. If the map was sound and knew every side
     * of the old cell, the mouse crossed no real wall and the map stays sound.
     */
    method AdvanceAndSense(truth: Truth)
      requires Valid() && Borders() && Slot(mouse.x, mouse.y, mouse.dir) != Wall
      modifies mouse, maze
      ensures Valid() && Borders()
      ensures (mouse.x, mouse.y) == Neighbor(old(mouse.x), old(mouse.y), mouse.dir)
      ensures mouse.dir == old(mouse.dir) && mouse.moves == old(mouse.moves) + 1
      ensures Slot(mouse.x, mouse.y, CalculateDir(mouse.dir, Reverse)) == NoWall
      ensures forall k: Dir | k != CalculateDir(mouse.dir, Reverse) ::
                var x, y := mouse.x, mouse.y;
                Slot(x, y, k) == if old(Slot(x, y, k)) == Unknown then B2I(truth(x, y, k)) else old(Slot(x, y, k))
      ensures forall i: int, j: int, k: Dir | InGrid(i, j) && (i, j) != (mouse.x, mouse.y) ::
                Slot(i, j, k) == old(Slot(i, j, k))
      ensures old(Sound(truth)) && old(CurrentKnown()) && Symmetric(truth) ==>
                Sound(truth) && CurrentKnown() && !truth(old(mouse.x), old(mouse.y), mouse.dir)
    {
      ghost var x0, y0, d := mouse.x, mouse.y, mouse.dir;
      StaysInside(x0, y0, d);
      ghost var hyp := Sound(truth) && CurrentKnown() && Symmetric(truth);
      assert hyp ==> !truth(x0, y0, d) && SymmetricAt(truth, x0, y0, d);
      mouse.MoveForward();
      StepBack(x0, y0, d);
      UpdateBackWall(false, truth);
      DetectWallLfr(mouse.dir, mouse.x, mouse.y, truth);
    }

    /**
     * One pass of follow_wall's loop together with its trace: the pose and
     * move count after the pass are appended, the move count grows exactly
     * when the pass changes cell, and the log stays update_first_vist folded
     * over the passes taken so far, from the entries of log0.
     */
    method FollowWallPass(p: int, truth: Truth, ghost log0: Log, ghost poses: seq<Pose>, ghost counts: seq<nat>)
      returns (ghost poses': seq<Pose>, ghost counts': seq<nat>)
      requires Valid() && Borders() && (p == Left || p == Right)
      requires 1 <= |poses| == |counts| && MovesRun(poses, counts)
      requires poses[|poses| - 1] == (mouse.x, mouse.y, mouse.dir) && counts[|poses| - 1] == mouse.moves
      requires forall i, j :: 0 <= i < Height && 0 <= j < Width ==>
                 firstVisit[i, j] == LogOf(LogEntry(log0, j, i), poses, counts, |poses| - 1, j, i)
      modifies mouse, maze, firstVisit
      ensures Valid() && Borders()
      ensures poses' == poses + [(mouse.x, mouse.y, mouse.dir)] && counts' == counts + [mouse.moves]
      ensures MovesRun(poses', counts')
      ensures forall i, j :: 0 <= i < Height && 0 <= j < Width ==>
                firstVisit[i, j] == LogOf(LogEntry(log0, j, i), poses', counts', |poses'| - 1, j, i)
      ensures old(Sound(truth)) && old(CurrentKnown()) && Symmetric(truth) ==>
                Sound(truth) && CurrentKnown() && poses'[|poses|] == TruthStep(truth, p, poses[|poses| - 1])
    {
      ghost var x0, y0 := mouse.x, mouse.y;
      label BeforePass:
      var moved := FollowWallStep(p, truth);
      if moved {
        NeighborAdjacent(x0, y0, mouse.dir);
      }
      ghost var q := (mouse.x, mouse.y, mouse.dir);
      MovesRunExtend(poses, counts, q, mouse.moves);
      forall i, j | 0 <= i < Height && 0 <= j < Width
        ensures firstVisit[i, j] == LogOf(LogEntry(log0, j, i), poses + [q], counts + [mouse.moves], |poses|, j, i)
      {
        LogOfStep(LogEntry(log0, j, i), poses, counts, q, mouse.moves, j, i);
        assert old@BeforePass(firstVisit[i, j]) == LogOf(LogEntry(log0, j, i), poses, counts, |poses| - 1, j, i);
      }
      poses', counts' := poses + [q], counts + [mouse.moves];
    }

    /**
     * follow_wall: sense the start cell, then take FollowWallStep passes with
     * the left-hand rule for "left" and the right-hand rule for anything else
     * until the mouse stands on the goal, which is then logged. `fuel` bounds
     * the number of passes and `reached` is false exactly when all of them
     * were spent first. `poses` lists the pose before each pass and the final
     * one, and `moveCounts` the move count at each of them. Every log entry
     * ends as update_first_vist folded over the logged passes (LogOf). When
     * the map starts sound, knows the side behind the mouse and the maze is
     * symmetric, every pass is the TruthStep of the chosen hand.
     */
    method FollowWall(leftRightFollow: string, goalX: int, goalY: int, truth: Truth, fuel: nat)
      returns (reached: bool, ghost poses: seq<Pose>, ghost moveCounts: seq<nat>)
      requires Valid() && Borders()
      modifies mouse, maze, firstVisit
      ensures Valid() && Borders()
      ensures reached <==> mouse.x == goalX && mouse.y == goalY
      ensures 1 <= |poses| <= fuel + 1 && (!reached ==> |poses| == fuel + 1)
      ensures poses[0] == (old(mouse.x), old(mouse.y), old(mouse.dir))
      ensures poses[|poses| - 1] == (mouse.x, mouse.y, mouse.dir)
      ensures AvoidsGoal(poses, goalX, goalY)
      ensures |moveCounts| == |poses| && MovesRun(poses, moveCounts)
      ensures moveCounts[0] == old(mouse.moves) && moveCounts[|poses| - 1] == mouse.moves
      ensures forall i, j :: 0 <= i < Height && 0 <= j < Width ==>
                firstVisit[i, j] == LogOf(old(firstVisit[i, j]), poses, moveCounts, if reached then |poses| else |poses| - 1, j, i)
      ensures forall i, j :: 0 <= i < Height && 0 <= j < Width && old(firstVisit[i, j]) != 0 ==>
                firstVisit[i, j] == old(firstVisit[i, j])
      ensures reached ==>
                firstVisit[goalY, goalX] ==
                if old(firstVisit[goalY, goalX]) == 0 then mouse.moves else old(firstVisit[goalY, goalX])
      ensures (old(Sound(truth)) && old(Slot(mouse.x, mouse.y, CalculateDir(mouse.dir, Reverse))) != Unknown &&
               Symmetric(truth)) ==>
                Sound(truth) && CurrentKnown() &&
                TruthRun(truth, if leftRightFollow == "left" then Left else Right, poses)
    {
      var firstDir := if leftRightFollow == "left" then Left else Right;
      ghost var hyp := Sound(truth) && Slot(mouse.x, mouse.y, CalculateDir(mouse.dir, Reverse)) != Unknown &&
                       Symmetric(truth);
      ghost var log0 := VisitLog();
      forall i, j | 0 <= i < Height && 0 <= j < Width ensures LogEntry(log0, j, i) == firstVisit[i, j] {
        VisitLogAt(j, i);
      }
      DetectWallLfr(mouse.dir, mouse.x, mouse.y, truth);
      poses := [(mouse.x, mouse.y, mouse.dir)];
      moveCounts := [mouse.moves];
      var remaining := fuel;
      while mouse.x != goalX || mouse.y != goalY
        invariant Valid() && Borders()
        invariant 1 <= |poses| == fuel - remaining + 1
        invariant poses[0] == (old(mouse.x), old(mouse.y), old(mouse.dir))
        invariant poses[|poses| - 1] == (mouse.x, mouse.y, mouse.dir)
        invariant AvoidsGoal(poses, goalX, goalY)
        invariant |moveCounts| == |poses| && MovesRun(poses, moveCounts)
        invariant moveCounts[0] == old(mouse.moves) && moveCounts[|poses| - 1] == mouse.moves
        invariant forall i, j :: 0 <= i < Height && 0 <= j < Width ==> LogEntry(log0, j, i) == old(firstVisit[i, j])
        invariant forall i, j :: 0 <= i < Height && 0 <= j < Width ==>
                    firstVisit[i, j] == LogOf(LogEntry(log0, j, i), poses, moveCounts, |poses| - 1, j, i)
        invariant hyp ==> Sound(truth) && CurrentKnown()
        invariant hyp ==> TruthRun(truth, firstDir, poses)
        decreases remaining
      {
        if remaining == 0 {
          break;
        }
        remaining := remaining - 1;
        ghost var before := poses;
        poses, moveCounts := FollowWallPass(firstDir, truth, log0, poses, moveCounts);
        AvoidsGoalExtend(before, poses[|before|], goalX, goalY);
        if hyp {
          TruthRunExtend(truth, firstDir, before, poses[|before|]);
        }
      }
      reached := LogArrival(goalX, goalY, log0, poses, moveCounts);
    }

    /** The end of follow_wall: on the goal, its first visit is logged (the final update_first_vist). */
    method LogArrival(goalX: int, goalY: int, ghost log0: Log, ghost poses: seq<Pose>, ghost moveCounts: seq<nat>)
      returns (reached: bool)
      requires Valid()
      requires 1 <= |poses| == |moveCounts| && poses[|poses| - 1] == (mouse.x, mouse.y, mouse.dir)
      requires moveCounts[|poses| - 1] == mouse.moves && AvoidsGoal(poses, goalX, goalY)
      requires forall i, j :: 0 <= i < Height && 0 <= j < Width ==>
                 firstVisit[i, j] == LogOf(LogEntry(log0, j, i), poses, moveCounts, |poses| - 1, j, i)
      modifies firstVisit
      ensures reached <==> mouse.x == goalX && mouse.y == goalY
      ensures forall i, j :: 0 <= i < Height && 0 <= j < Width ==>
                firstVisit[i, j] == LogOf(LogEntry(log0, j, i), poses, moveCounts, if reached then |poses| else |poses| - 1, j, i)
      ensures forall i, j :: 0 <= i < Height && 0 <= j < Width && LogEntry(log0, j, i) != 0 ==>
                firstVisit[i, j] == LogEntry(log0, j, i)
      ensures reached ==>
                firstVisit[goalY, goalX] ==
                if LogEntry(log0, goalX, goalY) == 0 then mouse.moves else LogEntry(log0, goalX, goalY)
    {
      reached := mouse.x == goalX && mouse.y == goalY;
      ghost var n := if reached then |poses| else |poses| - 1;
      if reached {
        UpdateFirstVisit();
        forall i, j | 0 <= i < Height && 0 <= j < Width
          ensures firstVisit[i, j] == LogOf(LogEntry(log0, j, i), poses, moveCounts, |poses|, j, i)
        {
          assert old(firstVisit[i, j]) == LogOf(LogEntry(log0, j, i), poses, moveCounts, |poses| - 1, j, i);
        }
        LogOfAway(LogEntry(log0, goalX, goalY), poses, moveCounts, |poses| - 1, goalX, goalY);
      }
      forall i, j | 0 <= i < Height && 0 <= j < Width && LogEntry(log0, j, i) != 0
        ensures firstVisit[i, j] == LogEntry(log0, j, i)
      {
        LogOfChanges(LogEntry(log0, j, i), poses, moveCounts, n, j, i);
      }
    }

    /** Row y of the local map, up to column n, as a value. */
    ghost function MazeRow(y: int, n: nat): (r: seq<Cell>)
      reads maze
      requires Dims() && 0 <= y < Height && n <= Width
      ensures |r| == n
    {
      if n == 0 then [] else MazeRow(y, n - 1) + [maze[y, n - 1]]
    }

    /** The first n rows of the local map, as a value. */
    ghost function MazeRows(n: nat): (g: Grid)
      reads maze
      requires Dims() && n <= Height
      ensures |g| == n
    {
      if n == 0 then [] else MazeRows(n - 1) + [MazeRow(n - 1, Width)]
    }

    /** The local map as a value (see CellsAt). */
    ghost function Cells(): Grid
      reads maze
      requires Dims()
    {
      MazeRows(Height)
    }

    lemma {:induction false} MazeRowAt(y: int, n: nat, x: int)
      requires Dims() && 0 <= y < Height && n <= Width && 0 <= x < n
      ensures MazeRow(y, n)[x] == maze[y, x]
    {
      if x < n - 1 {
        MazeRowAt(y, n - 1, x);
      }
    }

    lemma {:induction false} MazeRowsAt(n: nat, y: int)
      requires Dims() && n <= Height && 0 <= y < n
      ensures MazeRows(n)[y] == MazeRow(y, Width)
    {
      if y < n - 1 {
        MazeRowsAt(n - 1, y);
      }
    }

    /** Cells() holds the local map's slots. */
    lemma CellsAt(x: int, y: int)
      requires Dims() && InGrid(x, y)
      ensures forall k: Dir :: GridSlot(Cells(), x, y, k) == Slot(x, y, k)
    {
      MazeRowsAt(Height, y);
      MazeRowAt(y, Width, x);
    }

    /** Row y of the visit log, up to column n, as a value. */
    ghost function LogRow(y: int, n: nat): (r: seq<nat>)
      reads firstVisit
      requires Dims() && 0 <= y < Height && n <= Width
      ensures |r| == n
    {
      if n == 0 then [] else LogRow(y, n - 1) + [firstVisit[y, n - 1]]
    }

    /** The first n rows of the visit log, as a value. */
    ghost function LogRows(n: nat): (l: Log)
      reads firstVisit
      requires Dims() && n <= Height
      ensures |l| == n
    {
      if n == 0 then [] else LogRows(n - 1) + [LogRow(n - 1, Width)]
    }

    /** The visit log as a value (see VisitLogAt). */
    ghost function VisitLog(): Log
      reads firstVisit
      requires Dims()
    {
      LogRows(Height)
    }

    lemma {:induction false} LogRowAt(y: int, n: nat, x: int)
      requires Dims() && 0 <= y < Height && n <= Width && 0 <= x < n
      ensures LogRow(y, n)[x] == firstVisit[y, x]
    {
      if x < n - 1 {
        LogRowAt(y, n - 1, x);
      }
    }

    lemma {:induction false} LogRowsAt(n: nat, y: int)
      requires Dims() && n <= Height && 0 <= y < n
      ensures LogRows(n)[y] == LogRow(y, Width)
    {
      if y < n - 1 {
        LogRowsAt(n - 1, y);
      }
    }

    /** VisitLog() holds the visit log's entries. */
    lemma VisitLogAt(x: int, y: int)
      requires Dims() && InGrid(x, y)
      ensures LogEntry(VisitLog(), x, y) == firstVisit[y, x]
    {
      LogRowsAt(Height, y);
      LogRowAt(y, Width, x);
    }

    /**
     * What the neighbour search sees along relative direction d: a side the
     * map records as a wall, or one leading off the grid, is skipped; a side
     * to (0, 0) is the origin; a side to an unlogged cell is skipped; any
     * other side offers that cell's log entry.
     */
    method LookAt(d: int) returns (side: Side)
      requires Valid() && Left <= d <= Right
      ensures side == SideAt(Cells(), VisitLog(), mouse.x, mouse.y, mouse.dir, d)
    {
      var d' := CalculateDir(mouse.dir, d);
      CellsAt(mouse.x, mouse.y);
      if CheckWall(d) == true {
        return Skip;
      }
      var x', y' := Neighbor(mouse.x, mouse.y, d').0, Neighbor(mouse.x, mouse.y, d').1;
      if 0 <= x' < Width && 0 <= y' < Height {
        VisitLogAt(x', y');
        if y' == 0 && x' == 0 {
          return Origin;
        }
        if firstVisit[y', x'] == 0 {
          return Skip;
        }
        return Logged(firstVisit[y', x']);
      }
      return Skip;
    }

    /**
     * One pass of return_to_init_loc's neighbour search from the mouse at
     * (x, y), over left, front and right in that order (LookAt). An open side
     * to (0, 0) is taken at once. Otherwise the open side to the logged cell
     * with the smallest entry wins, the first one in that order on a tie.
     * None when no side qualifies: the source then keeps the previous pass's
     * dir_next.
     */
    method ChooseReturnDir(x: int, y: int) returns (next: Option<int>)
      requires Valid() && x == mouse.x && y == mouse.y
      ensures next == ReturnChoice(Cells(), VisitLog(), x, y, mouse.dir)
    {
      ghost var sides := Sides(Cells(), VisitLog(), x, y, mouse.dir);
      var lfr := [Left, Front, Right];
      var earlyVisit: int := -1;
      next := None;
      for i := 0 to |lfr|
        invariant next.None? <==> earlyVisit == -1
        invariant next.Some? ==> Left <= next.value < i - 1 && sides[next.value + 1].Logged? && sides[next.value + 1].entry == earlyVisit
        invariant Scan(sides, i, Entry(next)) == Scan(sides, 0, None)
      {
        var d := lfr[i];
        var side := LookAt(d);
        assert d == i - 1 && sides[i] == side;
        match side
        case Skip =>
        case Origin =>
          next := Some(d);
          break;
        case Logged(entry) =>
          if earlyVisit == -1 {
            earlyVisit := entry;
            next := Some(d);
          } else {
            if entry < earlyVisit {
              earlyVisit := entry;
              next := Some(d);
            }
          }
      }
    }

    /**
     * The body of return_to_init_loc's loop: pick a side with
     * ChooseReturnDir, turn to it and move one cell. When nothing qualifies
     * the mouse does not move (the source would reuse a stale dir_next).
     */
    method ReturnStep(x: int, y: int) returns (moved: bool)
      requires Valid() && x == mouse.x && y == mouse.y
      modifies mouse
      ensures Valid()
      ensures moved <==> ReturnChoice(Cells(), VisitLog(), x, y, old(mouse.dir)).Some?
      ensures !moved ==> unchanged(mouse)
      ensures moved ==> FollowsChoice(Cells(), VisitLog(), (x, y), old(mouse.dir), (mouse.x, mouse.y), mouse.dir) &&
                        mouse.moves == old(mouse.moves) + 1
      ensures moved ==> OpenStep(Cells(), (x, y), (mouse.x, mouse.y)) && HomeOrLogged(VisitLog(), (mouse.x, mouse.y))
    {
      ghost var h := mouse.dir;
      var next := ChooseReturnDir(x, y);
      if next.None? {
        return false;
      }
      mouse.Turn(next.value);
      mouse.MoveForward();
      ghost var g, l := Cells(), VisitLog();
      assert FollowsChoice(g, l, (x, y), h, (mouse.x, mouse.y), mouse.dir);
      FollowsChoiceOpen(g, l, (x, y), h, (mouse.x, mouse.y), mouse.dir);
      return true;
    }

    /**
     * return_to_init_loc: turn around, then until the mouse stands on (0, 0)
     * take one ReturnStep. The outcome is Stuck where the source would reuse a
     * stale dir_next, and OutOfFuel when `fuel` passes were not enough.
     * `trail` lists the cells the mouse stood on and `headings` its heading
     * when it searched there: the first is the reversed start heading, and
     * every pass is a ReturnPass. The map and the visit log are left alone.
     */
    method ReturnToInitLoc(fuel: nat)
      returns (outcome: ReturnOutcome, ghost trail: seq<(int, int)>, ghost headings: seq<Dir>)
      requires Valid()
      modifies mouse
      ensures Valid()
      ensures outcome == Home <==> mouse.x == 0 && mouse.y == 0
      ensures 1 <= |trail| <= fuel + 1 && |headings| == |trail|
      ensures trail[0] == (old(mouse.x), old(mouse.y)) && headings[0] == CalculateDir(old(mouse.dir), Reverse)
      ensures trail[|trail| - 1] == (mouse.x, mouse.y) && headings[|trail| - 1] == mouse.dir
      ensures ReturnRun(Cells(), VisitLog(), trail, headings)
      ensures outcome == Stuck ==> ReturnChoice(Cells(), VisitLog(), mouse.x, mouse.y, mouse.dir).None?
      ensures outcome == Stuck ==> NoSide(Cells(), VisitLog(), mouse.x, mouse.y, mouse.dir)
      ensures outcome == OutOfFuel ==> |trail| == fuel + 1
      ensures mouse.moves == old(mouse.moves) + |trail| - 1
      ensures old(mouse.x) == 0 && old(mouse.y) == 0 ==> outcome == Home && |trail| == 1
    {
      ghost var g, l := Cells(), VisitLog();
      var x := mouse.x;
      var y := mouse.y;
      mouse.Turn(Reverse);
      trail := [(x, y)];
      headings := [mouse.dir];
      var remaining := fuel;
      outcome := Home;
      while x != 0 || y != 0
        invariant Valid() && x == mouse.x && y == mouse.y
        invariant g == Cells() && l == VisitLog()
        invariant outcome == Home
        invariant 1 <= |trail| == fuel - remaining + 1 && |headings| == |trail|
        invariant trail[0] == (old(mouse.x), old(mouse.y)) && headings[0] == CalculateDir(old(mouse.dir), Reverse)
        invariant trail[|trail| - 1] == (x, y) && headings[|trail| - 1] == mouse.dir
        invariant old(mouse.x) == 0 && old(mouse.y) == 0 ==> |trail| == 1
        invariant ReturnRun(g, l, trail, headings)
        invariant mouse.moves == old(mouse.moves) + |trail| - 1
        decreases remaining
      {
        if remaining == 0 {
          outcome := OutOfFuel;
          break;
        }
        remaining := remaining - 1;
        var moved := ReturnStep(x, y);
        if !moved {
          StuckMeansNoSide(g, l, x, y, mouse.dir);
          outcome := Stuck;
          break;
        }
        ReturnRunExtend(g, l, trail, headings, (mouse.x, mouse.y), mouse.dir);
        x := mouse.x;
        y := mouse.y;
        trail := trail + [(x, y)];
        headings := headings + [mouse.dir];
      }
    }
  }
}
