/** The step-consuming state machine of Assets/Scripts/GridMovement.cs.

    Each frame Unity calls Update, which runs ClickToMove (lines 40-75): a
    click while the agent stands still sets the absolute target and replaces
    the queue of steps with the Bresenham line to it; then, when the agent
    is heading for a target and not in the middle of a step, one step is
    dequeued and, unless the grid reports it as `None`, the Move coroutine
    starts on it. The coroutine (lines 131-165) interpolates the position in
    floating point over several frames; here only its discrete effects are
    kept: on start `isMoving` is set, and on finish the position becomes the
    step, `isMovingToTarget` is cleared when the step is the target, and
    `isMoving` is cleared.

    The grid lookup gridManager.GetCellTypeInLocation is passed in as
    `classify`; Grid.GridManager.Start proves that after start-up it is the
    pure function Grid.CellTypeAt. */
module Movement {
  import opened Vectors
  import opened Cells
  import opened Line
  import opened Grid

  /** The fields of GridMovement that the logic reads and writes. `target`
      is absoluteargetPos, `next` is nextStepPos, `pos` is the transform's
      position. */
  datatype Motion = Motion(isMoving: bool, isMovingToTarget: bool, steps: seq<Pos>,
                           target: Pos, next: Pos, pos: Pos)

  /** The "Click1" button in one frame, with the clicked cell already
      converted from screen coordinates and rounded. */
  datatype Mouse = NoClick | ClickAt(at: Pos)

  /** What the dequeue part of a frame did. `QueueEmpty` is the
      InvalidOperationException that Queue.Dequeue throws on an empty queue
      (line 60): the frame is abandoned and no field changes. */
  datatype TickOutcome = NoStep | Started(step: Pos) | Discarded(step: Pos) | QueueEmpty

  /** Heading for a target and not in the middle of a step (lines 55-58). */
  predicate Ready(s: Motion)
  {
    s.isMovingToTarget && !s.isMoving
  }

  /** Lines 43-52. A click while moving is ignored; a click on the agent's
      own cell stores it as the target and changes nothing else; any other
      click stores the target, makes the queue the Bresenham line to it and
      sets the target flag. */
  function AfterClick(s: Motion, t: Pos): (r: Motion)
    ensures s.isMoving ==> r == s
    ensures !s.isMoving ==> r.target == t && r.pos == s.pos && !r.isMoving && r.next == s.next
    ensures !s.isMoving && t == s.pos ==> r == s.(target := t)
    ensures !s.isMoving && t != s.pos ==> r.isMovingToTarget && r.steps == Line.Line(s.pos, t)
  {
    if s.isMoving then s
    else if t == s.pos then s.(target := t)
    else s.(target := t, steps := Line.Line(s.pos, t), isMovingToTarget := true)
  }

  /** The queue a fresh click sets up (lines 50-51): a line of touching
      cells from the agent's cell to the clicked cell, as long as their
      Chebyshev distance, ending on the clicked cell and never containing
      the agent's own cell. */
  lemma ClickPath(s: Motion, t: Pos, r: Motion)
    requires !s.isMoving && t != s.pos && r == AfterClick(s, t)
    ensures && Ready(r)
      && IsLine(s.pos, t, r.steps)
      && r.steps != [] && r.steps[|r.steps| - 1] == t
      && s.pos !in r.steps
  {
    LineShape(s.pos, t, r.steps);
  }

  /** What the dequeue part of a frame does (lines 55-68). */
  function TickOutcomeOf(s: Motion, classify: Pos -> CellType): (o: TickOutcome)
    ensures o == NoStep <==> !Ready(s)
    ensures o == QueueEmpty <==> Ready(s) && s.steps == []
    ensures o.Started? ==> Ready(s) && s.steps != [] && o.step == s.steps[0] && classify(o.step) != None
    ensures o.Discarded? ==> Ready(s) && s.steps != [] && o.step == s.steps[0] && classify(o.step) == None
  {
    if !Ready(s) then NoStep
    else if s.steps == [] then QueueEmpty
    else if classify(s.steps[0]) == None then Discarded(s.steps[0])
    else Started(s.steps[0])
  }

  /** The state after the dequeue part of a frame: exactly one step leaves
      the front of the queue and becomes nextStepPos; the move starts unless
      the step is `None`, which is dropped. Nothing else changes. */
  function AfterTick(s: Motion, classify: Pos -> CellType): (r: Motion)
    ensures !Ready(s) || s.steps == [] ==> r == s
    ensures Ready(s) && s.steps != [] ==>
      && [r.next] + r.steps == s.steps
      && (r.isMoving <==> classify(r.next) != None)
      && r.isMovingToTarget && r.pos == s.pos && r.target == s.target
  {
    if Ready(s) && s.steps != [] then
      s.(next := s.steps[0], steps := s.steps[1..], isMoving := classify(s.steps[0]) != None)
    else s
  }

  /** The end of the Move coroutine (lines 154-164): the position is the
      step, the target flag is cleared exactly when the step is the target,
      and the agent stops moving. The position snaps to the step at the end
      whatever the interpolation did; for an anti-diagonal step the
      coroutine's duration |dx + dy| / speed is zero and the snap is
      immediate. */
  function AfterFinish(s: Motion): (r: Motion)
    requires s.isMoving
    ensures r.pos == s.next && !r.isMoving
    ensures r.isMovingToTarget <==> s.isMovingToTarget && s.next != s.target
    ensures r.steps == s.steps && r.target == s.target && r.next == s.next
  {
    s.(pos := s.next, isMovingToTarget := s.isMovingToTarget && s.next != s.target, isMoving := false)
  }

  /** One call of ClickToMove (lines 40-75): the click part, then, unless
      the click was on the agent's own cell and returned early, the dequeue
      part. The final branch (lines 70-74) rounds the position, which on
      whole cells changes nothing. */
  function Frame(s: Motion, mouse: Mouse, classify: Pos -> CellType): (r: (Motion, TickOutcome))
    ensures s.isMoving ==> r == (s, NoStep)
    ensures mouse.ClickAt? && !s.isMoving && mouse.at == s.pos ==> r == (s.(target := s.pos), NoStep)
    ensures mouse.NoClick? ==> r == (AfterTick(s, classify), TickOutcomeOf(s, classify))
  {
    if mouse.ClickAt? && !s.isMoving && mouse.at == s.pos then
      (AfterClick(s, mouse.at), NoStep)
    else
      var c := if mouse.ClickAt? then AfterClick(s, mouse.at) else s;
      (AfterTick(c, classify), TickOutcomeOf(c, classify))
  }

  /** A fresh click dequeues the first cell of the line in the same frame:
      the queue is the rest of the line and the dequeued cell touches the
      agent's cell. */
  lemma ClickFrame(s: Motion, t: Pos, classify: Pos -> CellType, r: (Motion, TickOutcome))
    requires !s.isMoving && t != s.pos && r == Frame(s, ClickAt(t), classify)
    ensures && r.0.target == t
      && [r.0.next] + r.0.steps == Line.Line(s.pos, t)
      && r.1 in {Started(r.0.next), Discarded(r.0.next)}
      && Adjacent(s.pos, r.0.next)
  {
    ClickPath(s, t, AfterClick(s, t));
  }

  /** A frame without a click, followed by the end of the step it started
      (if any) before the next frame: one step of the path. */
  function TakeStep(s: Motion, classify: Pos -> CellType): Motion
  {
    var r := AfterTick(s, classify);
    if r.isMoving then AfterFinish(r) else r
  }

  /** n such steps of the path. */
  function Walked(s: Motion, classify: Pos -> CellType, n: nat): Motion
  {
    if n == 0 then s else TakeStep(Walked(s, classify, n - 1), classify)
  }

  /** Following a path whose first n steps are passable and are not the
      target consumes exactly those steps and leaves the agent on the n-th,
      still heading for the target. */
  lemma {:induction false} WalkedPrefix(s: Motion, classify: Pos -> CellType, n: nat)
    requires Ready(s) && n <= |s.steps|
    requires forall i :: 0 <= i < n ==> classify(s.steps[i]) != None && s.steps[i] != s.target
    ensures Walked(s, classify, n) ==
      if n == 0 then s else s.(steps := s.steps[n..], pos := s.steps[n - 1], next := s.steps[n - 1])
  {
    if n > 0 {
      WalkedPrefix(s, classify, n - 1);
      var w := Walked(s, classify, n - 1);
      assert Ready(w) && w.steps == s.steps[n - 1..];
      assert w.steps[0] == s.steps[n - 1];
      assert w.steps[1..] == s.steps[n..];
    }
  }

  /** A path whose steps are all passable and whose only visit to the target
      is its last step ends on the target with both flags cleared and the
      queue empty; from then on the agent stays put. */
  lemma {:induction false} ReachesTarget(s: Motion, classify: Pos -> CellType)
    requires Ready(s) && s.steps != [] && s.steps[|s.steps| - 1] == s.target
    requires forall i :: 0 <= i < |s.steps| ==> classify(s.steps[i]) != None
    requires forall i :: 0 <= i < |s.steps| - 1 ==> s.steps[i] != s.target
    ensures Walked(s, classify, |s.steps|) ==
      s.(steps := [], pos := s.target, next := s.target, isMovingToTarget := false)
    ensures TakeStep(Walked(s, classify, |s.steps|), classify) == Walked(s, classify, |s.steps|)
  {
    var n := |s.steps| - 1;
    WalkedPrefix(s, classify, n);
    var w := Walked(s, classify, n);
    assert w.steps == [s.target];
  }

  /** When the last step of a path is `None` (an off-grid cell, say) and
      the steps before it are passable and miss the target, the agent
      discards that step, is left with an empty queue while still heading
      for the target, and every later frame's Dequeue throws. */
  lemma {:induction false} NoneLastStepStrands(s: Motion, classify: Pos -> CellType, w: Motion)
    requires Ready(s) && s.steps != []
    requires forall i :: 0 <= i < |s.steps| - 1 ==> classify(s.steps[i]) != None && s.steps[i] != s.target
    requires classify(s.steps[|s.steps| - 1]) == None
    requires w == Walked(s, classify, |s.steps|)
    ensures && Ready(w) && w.steps == []
      && TickOutcomeOf(w, classify) == QueueEmpty
      && TakeStep(w, classify) == w
  {
    var n := |s.steps| - 1;
    WalkedPrefix(s, classify, n);
  }

  /** A click on a cell other than the agent's own, with every cell of the
      line to it passable, brings the agent to that cell in as many steps as
      the Chebyshev distance, with both flags cleared. */
  lemma ClickReachesTarget(s: Motion, t: Pos, classify: Pos -> CellType, w: Motion)
    requires !s.isMoving && t != s.pos
    requires forall i :: 0 <= i < |Line.Line(s.pos, t)| ==> classify(Line.Line(s.pos, t)[i]) != None
    requires w == Walked(AfterClick(s, t), classify, Distance(s.pos, t))
    ensures && w.pos == t && w.target == t && w.steps == []
      && !w.isMoving && !w.isMovingToTarget
  {
    var c := AfterClick(s, t);
    ClickPath(s, t, c);
    var l := c.steps;
    assert forall i :: 0 <= i < |l| - 1 ==> l[i] != t by {
      forall i | 0 <= i < |l| - 1
        ensures l[i] != t
      {
        assert Distance(l[i], t) == |l| - 1 - i;
      }
    }
    ReachesTarget(c, classify);
  }

  /** On the standard grid, where every prefab carries a CellTile that is
      not `None`, a click inside the grid from a cell inside the grid
      brings the agent to the clicked cell: the Bresenham line stays in the
      rectangle spanned by its ends. */
  lemma ClickWithinGridReachesTarget(s: Motion, t: Pos, width: int, height: int,
                                     componentOf: Prefab -> Component)
    requires forall f :: componentOf(f).HasCellTile? && componentOf(f).cellType != None
    requires InGrid(width, height, s.pos) && InGrid(width, height, t)
    requires !s.isMoving && t != s.pos
    ensures Walked(AfterClick(s, t), p => CellTypeAt(width, height, componentOf, p), Distance(s.pos, t)).pos == t
    ensures !Walked(AfterClick(s, t), p => CellTypeAt(width, height, componentOf, p), Distance(s.pos, t)).isMovingToTarget
  {
    var classify := p => CellTypeAt(width, height, componentOf, p);
    var l := Line.Line(s.pos, t);
    LineShape(s.pos, t, l);
    forall i | 0 <= i < |l|
      ensures classify(l[i]) != None
    {
      PassableExactlyInGrid(width, height, componentOf, l[i]);
    }
    ClickReachesTarget(s, t, classify, Walked(AfterClick(s, t), classify, Distance(s.pos, t)));
  }

  /** A click on the agent's own cell in the middle of a path (between two
      steps) does not stop it: line 46 overwrites the target with the
      agent's cell before line 49 returns, the agent then follows the rest
      of the old path, which never comes back to that cell, and ends with an
      empty queue while still heading for a target, so every later frame's
      Dequeue throws. */
  lemma SelfClickStrands(s: Motion, classify: Pos -> CellType, c: Motion, w: Motion)
    requires Ready(s) && s.steps != [] && s.pos !in s.steps
    requires forall i :: 0 <= i < |s.steps| ==> classify(s.steps[i]) != None
    requires c == Frame(s, ClickAt(s.pos), classify).0
    requires w == Walked(c, classify, |s.steps|)
    ensures c == s.(target := s.pos)
    ensures && Ready(w) && w.steps == [] && w.target == s.pos
      && w.pos == s.steps[|s.steps| - 1]
      && TickOutcomeOf(w, classify) == QueueEmpty
  {
    assert forall i :: 0 <= i < |c.steps| ==> c.steps[i] != c.target;
    WalkedPrefix(c, classify, |c.steps|);
  }

  /** The first step after a click at least two cells away leaves the
      agent on the first cell of the line, heading for the clicked cell,
      with the rest of the line queued; its own cell is not in that rest. */
  lemma {:induction false} FirstStepOfClick(s: Motion, t: Pos, classify: Pos -> CellType, s1: Motion)
    requires !s.isMoving && Distance(s.pos, t) >= 2
    requires forall i :: 0 <= i < |Line.Line(s.pos, t)| ==> classify(Line.Line(s.pos, t)[i]) != None
    requires s1 == TakeStep(AfterClick(s, t), classify)
    ensures Ready(s1) && s1.target == t
    ensures [s1.pos] + s1.steps == Line.Line(s.pos, t) && |s1.steps| == Distance(s.pos, t) - 1
    ensures s1.steps[|s1.steps| - 1] == t
    ensures s1.pos !in s1.steps
    ensures forall i :: 0 <= i < |s1.steps| ==> classify(s1.steps[i]) != None
  {
    var c := AfterClick(s, t);
    ClickPath(s, t, c);
    var l := c.steps;
    assert l[0] != t by {
      assert Distance(l[0], t) == |l| - 1;
    }
    WalkedPrefix(c, classify, 1);
    assert s1 == Walked(c, classify, 1);
    assert forall i :: 0 <= i < |s1.steps| ==> s1.steps[i] == l[i + 1];
    forall i | 0 <= i < |s1.steps|
      ensures s1.steps[i] != s1.pos
    {
      assert Distance(l[i + 1], t) < Distance(l[0], t);
    }
  }

  /** The concrete case: a click at least two cells away, one step taken,
      then a click on the agent's own cell. The agent walks the rest of the
      line to the first target and is stranded there. */
  lemma SelfClickAfterOneStep(s: Motion, t: Pos, classify: Pos -> CellType, s1: Motion, s2: Motion, w: Motion)
    requires !s.isMoving && Distance(s.pos, t) >= 2
    requires forall i :: 0 <= i < |Line.Line(s.pos, t)| ==> classify(Line.Line(s.pos, t)[i]) != None
    requires s1 == TakeStep(AfterClick(s, t), classify)
    requires s2 == Frame(s1, ClickAt(s1.pos), classify).0
    requires w == Walked(s2, classify, Distance(s.pos, t) - 1)
    ensures w.pos == t && w.target == s1.pos
    ensures TickOutcomeOf(w, classify) == QueueEmpty
  {
    assert && Ready(s1) && s1.steps != [] && s1.pos !in s1.steps
      && |s1.steps| == Distance(s.pos, t) - 1 && s1.steps[|s1.steps| - 1] == t
      && forall i :: 0 <= i < |s1.steps| ==> classify(s1.steps[i]) != None
    by {
      FirstStepOfClick(s, t, classify, s1);
    }
    SelfClickStrands(s1, classify, s2, w);
  }

  /** The agent. Its fields are those of GridMovement that the movement
      logic reads and writes. */
  class GridMovement {
    var isMoving: bool
    var isMovingToTarget: bool
    var stepsToTarget: seq<Pos>
    var absoluteTarget: Pos
    var nextStepPos: Pos
    var position: Pos

    function State(): Motion
      reads this
    {
      Motion(isMoving, isMovingToTarget, stepsToTarget, absoluteTarget, nextStepPos, position)
    }

    /** A fresh agent on cell `start`: flags clear, queue empty, and the
        two Vector3 fields at their default, the origin. */
    constructor(start: Pos)
      ensures State() == Motion(false, false, [], Pos(0, 0), Pos(0, 0), start)
    {
      isMoving := false;
      isMovingToTarget := false;
      stepsToTarget := [];
      absoluteTarget := Pos(0, 0);
      nextStepPos := Pos(0, 0);
      position := start;
    }

    /** The click part of ClickToMove (lines 43-52). `proceed` is false when
        the method returns early on a click on the agent's own cell. */
    method Click(t: Pos) returns (proceed: bool)
      modifies this
      ensures State() == AfterClick(old(State()), t)
      ensures proceed <==> old(isMoving) || t != old(position)
    {
      proceed := true;
      if !isMoving {
        absoluteTarget := t;
        if t == position {
          proceed := false;
          return;
        }
        stepsToTarget := Bresenham(position, t);
        isMovingToTarget := true;
      }
    }

    /** The dequeue part of ClickToMove (lines 55-74). */
    method Tick(classify: Pos -> CellType) returns (outcome: TickOutcome)
      modifies this
      ensures State() == AfterTick(old(State()), classify)
      ensures outcome == TickOutcomeOf(old(State()), classify)
    {
      outcome := NoStep;
      if isMovingToTarget {
        if !isMoving {
          if stepsToTarget == [] {
            outcome := QueueEmpty;
            return;
          }
          nextStepPos := stepsToTarget[0];
          stepsToTarget := stepsToTarget[1..];
          if classify(nextStepPos) == None {
            outcome := Discarded(nextStepPos);
            return;
          }
          isMoving := true;
          outcome := Started(nextStepPos);
        }
      }
    }

    /** The end of the Move coroutine (lines 154-164). */
    method FinishStep()
      requires isMoving
      modifies this
      ensures State() == AfterFinish(old(State()))
    {
      position := nextStepPos;
      if position == absoluteTarget {
        isMovingToTarget := false;
      }
      isMoving := false;
    }

    /** Update (lines 36-39): one call of ClickToMove. */
    method Update(mouse: Mouse, classify: Pos -> CellType) returns (outcome: TickOutcome)
      modifies this
      ensures (State(), outcome) == Frame(old(State()), mouse, classify)
    {
      if mouse.ClickAt? {
        var proceed := Click(mouse.at);
        if !proceed {
          outcome := NoStep;
          return;
        }
      }
      outcome := Tick(classify);
    }
  }
}
