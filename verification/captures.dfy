/** Capture resolution (Java `capture`, `captureCheck`, `captureKing`,
    `checkHostileThrone`, `checkBlack`, `checkThrone`).

    Each check reads the grid as it stands at that moment of `makeMove`:
    after the piece was relocated and after the captures of earlier
    directions.  A Java null dereference becomes a `Failure`. */
module Captures {
  import opened Wrappers
  import opened Geometry
  import opened Pieces
  import opened Grids
  import opened Boards

  /** Java `checkBlack`: at least three of the four squares around the
      throne hold attackers. */
  predicate CheckBlack(g: Grid) {
    var n := (if Get(g, NTHRONE) == Black then 1 else 0)
           + (if Get(g, WTHRONE) == Black then 1 else 0)
           + (if Get(g, ETHRONE) == Black then 1 else 0)
           + (if Get(g, STHRONE) == Black then 1 else 0);
    n >= 3
  }

  /** Java `checkThrone`: the king stands on the throne or next to it.  With
      no king on the board, `kingPosition()` is null and this is false. */
  predicate CheckThrone(g: Grid) {
    match KingPosition(g)
    case None => false
    case Some(k) => k == THRONE || k == NTHRONE || k == WTHRONE || k == STHRONE || k == ETHRONE
  }

  /** Java `checkHostileThrone`, reached only for a throne flank. */
  function HostileThrone(g: Grid, sq0: Square, sq2: Square): Result<bool, Fault>
    requires TwoApart(sq0, sq2)
  {
    var sq1 := Between(sq0, sq2);
    if sq2 == THRONE then
      if Get(g, sq1) == Empty then Success(false)
      else match KingPosition(g)
        case None => Failure(MissingKing)
        case Some(k) => Success(k != THRONE || CheckBlack(g))
    else Success(false)
  }

  /** Java `captureCheck`: the ordinary two-sided capture test. */
  function CaptureCheck(g: Grid, sq0: Square, sq2: Square): Result<bool, Fault>
    requires TwoApart(sq0, sq2)
  {
    var p0 := Get(g, sq0);
    var p2 := Get(g, sq2);
    var sq1 := Between(sq0, sq2);
    if Get(g, sq1) == Empty || SideOf(Get(g, sq1)) == SideOf(p0) then Success(false)
    else if sq2 == THRONE then HostileThrone(g, sq0, sq2)
    else Success(sq0 != sq2 && SideOf(p0) == SideOf(p2) && (sq0.col == sq2.col || sq0.row == sq2.row))
  }

  /** The neighbour of k in direction d is an attacker or the throne. */
  predicate HostileNeighbour(g: Grid, k: Square, d: Dir) {
    match RookMove(k, d, 1)
    case None => false
    case Some(n) => Get(g, n) == Black || n == THRONE
  }

  /** The loop of Java `captureKing` over directions d, d+1, ..., 3: false at
      the first neighbour that is neither an attacker nor the throne, a
      failure at the first one off the board. */
  function Surrounded(g: Grid, k: Square, d: nat): (r: Result<bool, Fault>)
    requires d <= 4
    ensures r == Success(true) <==> forall e: Dir :: d <= e ==> HostileNeighbour(g, k, e)
    decreases 4 - d
  {
    if d == 4 then Success(true)
    else match RookMove(k, d, 1)
      case None =>
        assert !HostileNeighbour(g, k, d);
        Failure(OffBoardNeighbour)
      case Some(n) =>
        if Get(g, n) != Black && n != THRONE then
          assert !HostileNeighbour(g, k, d);
          Success(false)
        else Surrounded(g, k, d + 1)
  }

  /** Java `captureKing`: a king on or next to the throne must in addition
      be hemmed in on all four sides. */
  function CaptureKing(g: Grid, sq0: Square, sq2: Square): Result<bool, Fault>
    requires TwoApart(sq0, sq2)
  {
    var sq1 := Between(sq0, sq2);
    if CheckThrone(g) && Get(g, sq1) == King then
      var hemmed :- Surrounded(g, sq1, 0);
      if !hemmed then Success(false) else CaptureCheck(g, sq0, sq2)
    else CaptureCheck(g, sq0, sq2)
  }

  /** What `makeMove` carries through its capture loop. */
  datatype CaptureState = CaptureState(grid: Grid, winner: Option<Side>, saved: seq<Saved>)

  /** The throne counts as a hostile flank: the king is off it, or at least
      three of its neighbours are attackers. */
  predicate ThroneHostile(g: Grid) {
    KingPosition(g) != Some(THRONE) || CheckBlack(g)
  }

  /** The capture rule, stated on its own: the piece between sq0 (where a
      piece just moved) and sq2 is taken iff it is an enemy of the mover,
      the far side is a friend of the mover or a hostile throne, and a king
      on or beside the throne is hemmed in by attackers or the throne on
      all four sides. */
  predicate Capturable(g: Grid, sq0: Square, sq2: Square)
    requires TwoApart(sq0, sq2)
  {
    var p1 := Get(g, Between(sq0, sq2));
    && p1 != Empty
    && SideOf(p1) != SideOf(Get(g, sq0))
    && (if sq2 == THRONE then ThroneHostile(g) else SideOf(Get(g, sq2)) == SideOf(Get(g, sq0)))
    && (p1 == King && CheckThrone(g) ==> forall e: Dir :: HostileNeighbour(g, Between(sq0, sq2), e))
  }

  /** Java `capture`: remove the piece between sq0 and sq2 when the rule
      allows; taking the king makes BLACK the winner. */
  function Capture(st: CaptureState, sq0: Square, sq2: Square): (r: Result<CaptureState, Fault>)
    requires TwoApart(sq0, sq2)
    ensures r.Success? ==> r.value.saved == st.saved
    ensures r.Success? ==> forall s :: s != Between(sq0, sq2) ==> Get(r.value.grid, s) == Get(st.grid, s)
    ensures r.Success? ==>
              var sq1 := Between(sq0, sq2);
              && (Get(r.value.grid, sq1) != Get(st.grid, sq1) <==> Capturable(st.grid, sq0, sq2))
              && (Get(r.value.grid, sq1) != Get(st.grid, sq1) ==> Get(r.value.grid, sq1) == Empty)
              && r.value.winner ==
                   if Get(st.grid, sq1) == King && Get(r.value.grid, sq1) == Empty then Some(Black) else st.winner
  {
    var sq1 := Between(sq0, sq2);
    if Get(st.grid, sq1) == King then
      var taken :- CaptureKing(st.grid, sq0, sq2);
      Success(if taken then st.(winner := Some(Black), grid := Set(st.grid, sq1, Empty)) else st)
    else
      var taken :- CaptureCheck(st.grid, sq0, sq2);
      Success(if taken then st.(grid := Set(st.grid, sq1, Empty)) else st)
  }

  /** A capture attempt faults only where Java dereferences null: a throne
      flank with no king on the board, or a captured square holding a king
      while the king `kingPosition` finds first stands on or beside the
      throne. The neighbour check then runs off the board only when that
      square holds a second king away from the throne. */
  lemma CaptureFaults(st: CaptureState, sq0: Square, sq2: Square)
    requires TwoApart(sq0, sq2)
    requires Capture(st, sq0, sq2).Failure?
    ensures Capture(st, sq0, sq2).error == MissingKing ==> sq2 == THRONE && KingPosition(st.grid).None?
    ensures Capture(st, sq0, sq2).error == OffBoardNeighbour ==>
              Get(st.grid, Between(sq0, sq2)) == King && CheckThrone(st.grid)
  {
  }

  /** s is the neighbour of `to` in direction d or a later one. */
  predicate LaterNeighbour(to: Square, s: Square, d: nat) {
    Adjacent(to, s) && Direction(to, s) >= d
  }

  /** True iff some piece saved after position `start` stood on s. */
  ghost predicate SavedAt(saved: seq<Saved>, start: nat, s: Square) {
    exists k :: start <= k < |saved| && saved[k].square == s
  }

  /** One direction of the capture loop of Java `makeMove`: when the flank
      square two steps from `to` in direction d exists, save the piece
      between, then try a capture if the flank held a piece of the mover
      before the move (`pieces`) or is the throne. */
  function CaptureStep(st: CaptureState, to: Square, pieces: set<Square>, d: Dir): (r: Result<CaptureState, Fault>)
    ensures r.Success? && RookMove(to, d, 2).None? ==> r.value == st
    ensures r.Success? && RookMove(to, d, 2).Some? ==>
              var mid := RookMove(to, d, 1).value;
              && Adjacent(to, mid) && Direction(to, mid) == d
              && r.value.saved == st.saved + [Saved(Get(st.grid, mid), mid)]
              && (forall s :: s != mid ==> Get(r.value.grid, s) == Get(st.grid, s))
              && (Get(r.value.grid, mid) != Get(st.grid, mid) ==> Get(r.value.grid, mid) == Empty)
              && r.value.winner == if Get(st.grid, mid) == King && Get(r.value.grid, mid) == Empty then Some(Black) else st.winner
    ensures r.Success? && RookMove(to, d, 2).Some? ==>
              var mid := RookMove(to, d, 1).value;
              var flank := RookMove(to, d, 2).value;
              Get(r.value.grid, mid) != Get(st.grid, mid) ==>
                && Get(st.grid, mid) != Empty
                && SideOf(Get(st.grid, mid)) != SideOf(Get(st.grid, to))
                && (flank in pieces || flank == THRONE)
  {
    match RookMove(to, d, 2)
    case None => Success(st)
    case Some(flank) =>
      BetweenOfTwoSteps(to, d);
      var mid := Between(to, flank);
      var st1 := st.(saved := st.saved + [Saved(Get(st.grid, mid), mid)]);
      if flank in pieces || flank == THRONE then Capture(st1, to, flank) else Success(st1)
  }

  /** A step tries the capture exactly when the flank square exists and
      held a piece of the mover before the move or is the throne. Then the
      neighbour is removed exactly when the capture rule holds on the grid
      as it stands; otherwise nothing but the saved list changes, and only
      an attempted capture can fail. */
  lemma CaptureStepAttempts(st: CaptureState, to: Square, pieces: set<Square>, d: Dir)
    ensures RookMove(to, d, 2).Some? ==>
              var mid := RookMove(to, d, 1).value;
              var flank := RookMove(to, d, 2).value;
              var r := CaptureStep(st, to, pieces, d);
              && TwoApart(to, flank) && Between(to, flank) == mid
              && ((flank in pieces || flank == THRONE) && r.Success? ==>
                    (Get(r.value.grid, mid) != Get(st.grid, mid) <==> Capturable(st.grid, to, flank)))
              && (!(flank in pieces || flank == THRONE) ==> r.Success? && r.value.grid == st.grid && r.value.winner == st.winner)
    ensures CaptureStep(st, to, pieces, d).Failure? ==>
              RookMove(to, d, 2).Some? && (RookMove(to, d, 2).value in pieces || RookMove(to, d, 2).value == THRONE)
  {
    if RookMove(to, d, 2).Some? {
      BetweenOfTwoSteps(to, d);
    }
  }

  /** A king removed by a step of the capture loop. */
  ghost predicate KingTaken(before: Grid, after: Grid) {
    exists s :: Get(before, s) == King && Get(after, s) == Empty
  }

  /** The capture loop over directions d, ..., 3.  It only appends to the
      saved list, at most one entry per direction. */
  function CaptureLoop(st: CaptureState, to: Square, pieces: set<Square>, d: nat): (r: Result<CaptureState, Fault>)
    requires d <= 4
    ensures r.Success? ==> |st.saved| <= |r.value.saved| <= |st.saved| + 4 - d
    ensures r.Success? ==> r.value.saved[..|st.saved|] == st.saved
    decreases 4 - d
  {
    if d == 4 then Success(st)
    else
      var st2 :- CaptureStep(st, to, pieces, d);
      CaptureLoop(st2, to, pieces, d + 1)
  }

  /** Each entry the capture loop saves holds the piece that stood on a
      neighbour of `to` before the loop. */
  lemma {:induction false} CaptureLoopSaves(st: CaptureState, to: Square, pieces: set<Square>, d: nat)
    requires d <= 4
    requires CaptureLoop(st, to, pieces, d).Success?
    ensures var r := CaptureLoop(st, to, pieces, d).value;
            forall k :: |st.saved| <= k < |r.saved| ==>
              r.saved[k].piece == Get(st.grid, r.saved[k].square) && LaterNeighbour(to, r.saved[k].square, d)
    decreases 4 - d
  {
    var r := CaptureLoop(st, to, pieces, d).value;
    if d < 4 {
      var st2 := CaptureStep(st, to, pieces, d).value;
      assert r == CaptureLoop(st2, to, pieces, d + 1).value;
      CaptureLoopSaves(st2, to, pieces, d + 1);
      if RookMove(to, d, 2).Some? {
        var n := |st.saved|;
        assert r.saved[..n + 1] == st2.saved;
        assert r.saved[n] == st2.saved[n];
        SavesStep(st.grid, st2.grid, n, r.saved, to, RookMove(to, d, 1).value, d);
      }
    }
  }

  /** One step of CaptureLoopSaves: the entry saved for direction d, then
      the later entries, which the step's capture did not disturb. */
  lemma SavesStep(g: Grid, g2: Grid, n: nat, rs: seq<Saved>, to: Square, mid: Square, d: Dir)
    requires forall s :: s != mid ==> Get(g2, s) == Get(g, s)
    requires Adjacent(to, mid) && Direction(to, mid) == d
    requires n < |rs| && rs[n] == Saved(Get(g, mid), mid)
    requires forall k :: n + 1 <= k < |rs| ==> rs[k].piece == Get(g2, rs[k].square) && LaterNeighbour(to, rs[k].square, d + 1)
    ensures forall k :: n <= k < |rs| ==> rs[k].piece == Get(g, rs[k].square) && LaterNeighbour(to, rs[k].square, d)
  {
  }

  /** Every square the capture loop changes becomes empty, and its piece
      was saved beforehand. */
  lemma {:induction false} CaptureLoopClears(st: CaptureState, to: Square, pieces: set<Square>, d: nat)
    requires d <= 4
    requires CaptureLoop(st, to, pieces, d).Success?
    ensures var r := CaptureLoop(st, to, pieces, d).value;
            forall s :: Get(r.grid, s) != Get(st.grid, s) ==> Get(r.grid, s) == Empty && SavedAt(r.saved, |st.saved|, s)
    decreases 4 - d
  {
    var r := CaptureLoop(st, to, pieces, d).value;
    if d < 4 {
      var st2 := CaptureStep(st, to, pieces, d).value;
      assert r == CaptureLoop(st2, to, pieces, d + 1).value;
      CaptureLoopClears(st2, to, pieces, d + 1);
      if RookMove(to, d, 2).Some? {
        var mid := RookMove(to, d, 1).value;
        var n := |st.saved|;
        assert r.saved[..n + 1] == st2.saved;
        assert r.saved[n] == st2.saved[n];
        assert SavedAt(r.saved, n, mid);
        forall s | Get(r.grid, s) != Get(st.grid, s)
          ensures Get(r.grid, s) == Empty && SavedAt(r.saved, n, s)
        {
          if Get(r.grid, s) != Get(st2.grid, s) {
            var k :| n + 1 <= k < |r.saved| && r.saved[k].square == s;
            assert n <= k;
          }
        }
      }
    }
  }

  /** BLACK becomes the winner in the capture loop exactly when a king is
      taken; otherwise the winner is left alone. */
  lemma {:induction false} CaptureLoopWinner(st: CaptureState, to: Square, pieces: set<Square>, d: nat)
    requires d <= 4
    requires CaptureLoop(st, to, pieces, d).Success?
    ensures var r := CaptureLoop(st, to, pieces, d).value;
            r.winner == if KingTaken(st.grid, r.grid) then Some(Black) else st.winner
    decreases 4 - d
  {
    var r := CaptureLoop(st, to, pieces, d).value;
    if d < 4 {
      var st2 := CaptureStep(st, to, pieces, d).value;
      assert r == CaptureLoop(st2, to, pieces, d + 1).value;
      CaptureLoopWinner(st2, to, pieces, d + 1);
      CaptureLoopClears(st2, to, pieces, d + 1);
      if RookMove(to, d, 2).Some? {
        var mid := RookMove(to, d, 1).value;
        assert KingTaken(st.grid, st2.grid) <==> Get(st.grid, mid) == King && Get(st2.grid, mid) == Empty;
        KingTakenStep(st.grid, st2.grid, r.grid, mid);
      } else {
        KingTakenStep(st.grid, st2.grid, r.grid, to);
      }
    }
  }

  /** The capture loop takes only pieces that stood, before the loop, next
      to `to` and opposed to the piece on `to`, and only where the square
      beyond them held one of the mover's pieces before the move or is the
      throne. */
  lemma {:induction false} CaptureLoopTakesEnemies(st: CaptureState, to: Square, pieces: set<Square>, d: nat)
    requires d <= 4
    requires CaptureLoop(st, to, pieces, d).Success?
    ensures var r := CaptureLoop(st, to, pieces, d).value;
            forall s :: Get(r.grid, s) != Get(st.grid, s) ==>
              && Get(st.grid, s) != Empty
              && SideOf(Get(st.grid, s)) != SideOf(Get(st.grid, to))
              && Adjacent(to, s)
              && RookMove(to, Direction(to, s), 2).Some?
              && (RookMove(to, Direction(to, s), 2).value in pieces || RookMove(to, Direction(to, s), 2).value == THRONE)
    decreases 4 - d
  {
    var r := CaptureLoop(st, to, pieces, d).value;
    if d < 4 {
      var st2 := CaptureStep(st, to, pieces, d).value;
      assert r == CaptureLoop(st2, to, pieces, d + 1).value;
      CaptureLoopTakesEnemies(st2, to, pieces, d + 1);
      if RookMove(to, d, 2).Some? {
        var mid := RookMove(to, d, 1).value;
        assert Get(st2.grid, to) == Get(st.grid, to);
        forall s | Get(r.grid, s) != Get(st.grid, s)
          ensures Get(st.grid, s) != Empty && SideOf(Get(st.grid, s)) != SideOf(Get(st.grid, to))
          ensures Adjacent(to, s) && RookMove(to, Direction(to, s), 2).Some?
          ensures RookMove(to, Direction(to, s), 2).value in pieces || RookMove(to, Direction(to, s), 2).value == THRONE
        {
          if Get(st2.grid, s) != Get(st.grid, s) {
            assert s == mid;
          }
        }
      }
    }
  }

  /** Saved entries run in increasing direction, and there is one for each
      direction from d on whose flank square exists, on the neighbour in
      that direction. */
  lemma {:induction false} CaptureLoopOrder(st: CaptureState, to: Square, pieces: set<Square>, d: nat)
    requires d <= 4
    requires CaptureLoop(st, to, pieces, d).Success?
    ensures var r := CaptureLoop(st, to, pieces, d).value;
            forall i, j :: |st.saved| <= i < j < |r.saved| ==> Direction(to, r.saved[i].square) < Direction(to, r.saved[j].square)
    ensures var r := CaptureLoop(st, to, pieces, d).value;
            forall k :: |st.saved| <= k < |r.saved| ==> RookMove(to, Direction(to, r.saved[k].square), 2).Some?
    ensures var r := CaptureLoop(st, to, pieces, d).value;
            forall e: Dir :: d <= e && RookMove(to, e, 2).Some? ==> SavedAt(r.saved, |st.saved|, RookMove(to, e, 1).value)
    decreases 4 - d
  {
    var r := CaptureLoop(st, to, pieces, d).value;
    if d < 4 {
      var st2 := CaptureStep(st, to, pieces, d).value;
      assert r == CaptureLoop(st2, to, pieces, d + 1).value;
      CaptureLoopOrder(st2, to, pieces, d + 1);
      CaptureLoopSaves(st2, to, pieces, d + 1);
      if RookMove(to, d, 2).Some? {
        var mid := RookMove(to, d, 1).value;
        var n := |st.saved|;
        assert r.saved[..n + 1] == st2.saved;
        assert r.saved[n] == st2.saved[n];
        OrderStep(r.saved, n, to, mid, d);
      }
    }
  }

  /** One step of CaptureLoopOrder: the entry for direction d in front of
      the entries of later directions. */
  lemma OrderStep(rs: seq<Saved>, n: nat, to: Square, mid: Square, d: Dir)
    requires n < |rs| && rs[n].square == mid
    requires Adjacent(to, mid) && Direction(to, mid) == d && RookMove(to, d, 2).Some? && RookMove(to, d, 1) == Some(mid)
    requires forall k :: n + 1 <= k < |rs| ==> LaterNeighbour(to, rs[k].square, d + 1)
    requires forall i, j :: n + 1 <= i < j < |rs| ==> Direction(to, rs[i].square) < Direction(to, rs[j].square)
    requires forall k :: n + 1 <= k < |rs| ==> RookMove(to, Direction(to, rs[k].square), 2).Some?
    requires forall e: Dir :: d + 1 <= e && RookMove(to, e, 2).Some? ==> SavedAt(rs, n + 1, RookMove(to, e, 1).value)
    ensures forall i, j :: n <= i < j < |rs| ==> Direction(to, rs[i].square) < Direction(to, rs[j].square)
    ensures forall k :: n <= k < |rs| ==> RookMove(to, Direction(to, rs[k].square), 2).Some?
    ensures forall e: Dir :: d <= e && RookMove(to, e, 2).Some? ==> SavedAt(rs, n, RookMove(to, e, 1).value)
  {
    forall e: Dir | d <= e && RookMove(to, e, 2).Some?
      ensures SavedAt(rs, n, RookMove(to, e, 1).value)
    {
      if e == d {
        assert rs[n].square == RookMove(to, e, 1).value;
      } else {
        var k :| n + 1 <= k < |rs| && rs[k].square == RookMove(to, e, 1).value;
        assert n <= k;
      }
    }
  }

  /** The state the capture loop, started at direction d, has reached when
      it comes to direction e. */
  function LoopStateAt(st: CaptureState, to: Square, pieces: set<Square>, d: nat, e: nat): Result<CaptureState, Fault>
    requires d <= e <= 4
    decreases e - d
  {
    if d == e then Success(st)
    else
      var st2 :- CaptureStep(st, to, pieces, d);
      LoopStateAt(st2, to, pieces, d + 1, e)
  }

  /** For each direction e whose flank square exists, the neighbour of `to`
      in that direction holds, when the loop reaches e, the piece it held
      before the loop. When the flank held a piece of the mover or is the
      throne, the loop removes that neighbour exactly when the capture rule
      holds on the grid as it stands at that point; otherwise the loop
      leaves it alone. */
  lemma {:induction false} CaptureLoopAttempts(st: CaptureState, to: Square, pieces: set<Square>, d: nat, e: Dir)
    requires d <= e
    requires CaptureLoop(st, to, pieces, d).Success?
    ensures LoopStateAt(st, to, pieces, d, e).Success?
    ensures RookMove(to, e, 2).Some? ==>
              var mid := RookMove(to, e, 1).value;
              var flank := RookMove(to, e, 2).value;
              var se := LoopStateAt(st, to, pieces, d, e).value;
              var r := CaptureLoop(st, to, pieces, d).value;
              && TwoApart(to, flank)
              && Get(se.grid, mid) == Get(st.grid, mid)
              && ((flank in pieces || flank == THRONE) ==> (Get(r.grid, mid) != Get(st.grid, mid) <==> Capturable(se.grid, to, flank)))
              && (!(flank in pieces || flank == THRONE) ==> Get(r.grid, mid) == Get(st.grid, mid))
    decreases 4 - d
  {
    var r := CaptureLoop(st, to, pieces, d).value;
    var st2 := CaptureStep(st, to, pieces, d).value;
    assert r == CaptureLoop(st2, to, pieces, d + 1).value;
    if d == e {
      if RookMove(to, e, 2).Some? {
        CaptureStepAttempts(st, to, pieces, d);
        CaptureLoopClears(st2, to, pieces, d + 1);
        CaptureLoopSaves(st2, to, pieces, d + 1);
        LaterStepsKeep(st2.grid, r.grid, r.saved, |st2.saved|, to, RookMove(to, e, 1).value, e);
      }
    } else {
      CaptureLoopAttempts(st2, to, pieces, d + 1, e);
      if RookMove(to, e, 2).Some? {
        OtherDirectionKept(st, st2, to, pieces, d, e);
      }
    }
  }

  /** Steps for directions after e leave the neighbour in direction e alone. */
  lemma LaterStepsKeep(g: Grid, h: Grid, rs: seq<Saved>, n: nat, to: Square, mid: Square, e: Dir)
    requires Direction(to, mid) == e
    requires forall s :: Get(h, s) != Get(g, s) ==> Get(h, s) == Empty && SavedAt(rs, n, s)
    requires forall k :: n <= k < |rs| ==> rs[k].piece == Get(g, rs[k].square) && LaterNeighbour(to, rs[k].square, e + 1)
    ensures Get(h, mid) == Get(g, mid)
  {
  }

  /** The step for direction d leaves the neighbour in another direction e
      alone. */
  lemma OtherDirectionKept(st: CaptureState, st2: CaptureState, to: Square, pieces: set<Square>, d: Dir, e: Dir)
    requires d != e && RookMove(to, e, 1).Some?
    requires CaptureStep(st, to, pieces, d) == Success(st2)
    ensures Get(st2.grid, RookMove(to, e, 1).value) == Get(st.grid, RookMove(to, e, 1).value)
  {
    if RookMove(to, d, 2).Some? {
      assert RookMove(to, d, 1).value != RookMove(to, e, 1).value;
    }
  }

  /** A king is taken over two steps iff it is taken in one of them, when
      the first step changes at most the square m, to empty. */
  lemma KingTakenStep(g0: Grid, g1: Grid, g2: Grid, m: Square)
    requires forall s :: s != m ==> Get(g1, s) == Get(g0, s)
    requires Get(g1, m) != Get(g0, m) ==> Get(g1, m) == Empty
    requires forall s :: Get(g2, s) != Get(g1, s) ==> Get(g2, s) == Empty
    ensures KingTaken(g0, g2) <==> KingTaken(g0, g1) || KingTaken(g1, g2)
  {
  }
}
