// The matching and cascade algorithms that work on a grid: neighbour
// queries, the flood fill that finds a match, and the fall and fill that
// restore a column.

/** The directions a neighbour can be asked for. */
datatype Direction = Left | Up | Right | Down | LeftUp | RightUp | RightDown | LeftDown

/** The step from a cell to its neighbour in a direction; rows grow upward. */
function Offset(d: Direction): (int, int)
{
  match d
  case Left => (-1, 0)
  case Up => (0, 1)
  case Right => (1, 0)
  case Down => (0, -1)
  case LeftUp => (-1, 1)
  case RightUp => (1, 1)
  case RightDown => (1, -1)
  case LeftDown => (-1, -1)
}

/** The four directions the flood fill and the fill step ask for, in order. */
const Orthogonal: seq<Direction> := [Left, Up, Right, Down]

/** The neighbours of a cell split into those that extend a match and the
    breakables next to it. */
datatype NeighbourGroups = NeighbourGroups(sameColor: seq<GridPoint>, breakables: seq<GridPoint>)

/** The position one step from the cell in direction d. */
function Target(p: GridPoint, d: Direction): (int, int)
{
  (p.x + Offset(d).0, p.y + Offset(d).1)
}

/** Sorts neighbours, in their order, into same-name Full cells and
    Breakable cells of another name; any other cell is dropped. */
function SplitNeighbours(neighbors: seq<GridPoint>, name: string): (groups: NeighbourGroups)
  reads set q | q in neighbors
  ensures |groups.sameColor| + |groups.breakables| <= |neighbors|
{
  if neighbors == [] then NeighbourGroups([], [])
  else
    var rest := SplitNeighbours(neighbors[..|neighbors| - 1], name);
    var neighbor := neighbors[|neighbors| - 1];
    if neighbor.FullWith(name) then NeighbourGroups(rest.sameColor + [neighbor], rest.breakables)
    else if neighbor.BreakableFor(name) then NeighbourGroups(rest.sameColor, rest.breakables + [neighbor])
    else rest
}

/** A cell is in the first group exactly when it is a neighbour Full with
    the name, and in the second exactly when it is a neighbour Full with a
    Breakable item of another name. */
lemma {:induction false} SplitNeighboursAt(neighbors: seq<GridPoint>, name: string, q: GridPoint)
  ensures var groups := SplitNeighbours(neighbors, name);
          && (q in groups.sameColor <==> q in neighbors && q.FullWith(name))
          && (q in groups.breakables <==> q in neighbors && q.BreakableFor(name))
  decreases |neighbors|
{
  if neighbors != [] {
    var front := neighbors[..|neighbors| - 1];
    SplitNeighboursAt(front, name, q);
    assert neighbors == front + [neighbors[|neighbors| - 1]];
  }
}

datatype Option<T> = None | Some(value: T)

/** What the replacement chooser is shown of a neighbouring cell: its state
    and the model of the item it holds, if any. */
datatype CellView = CellView(state: GridPointState, model: Option<ItemModel>)

/** The views of the given cells, in order. */
function Views(cells: seq<GridPoint>): (views: seq<CellView>)
  reads set q | q in cells
  ensures |views| == |cells|
{
  if cells == [] then []
  else
    var last := cells[|cells| - 1];
    Views(cells[..|cells| - 1]) + [CellView(last.state, if last.item == null then None else Some(last.item.model))]
}

/** The columns the given cells lie in. */
function Columns(cells: set<GridPoint>): set<int>
{
  set p | p in cells :: p.x
}

/** A replacement chooser that only ever picks Color or Breakable models, so
    that every cell it fills becomes Full. */
ghost predicate NeverObstacle(chooser: seq<CellView> -> ItemModel)
{
  forall s :: !chooser(s).itemType.Obstacle?
}

/** What the flood fill knows between two dequeues: the matched cells lie
    inside the match and are either expanded or still queued; a queued cell
    is matched, not yet expanded, and queued only once; an expanded
    cell's same-name neighbours are matched and its breakable neighbours
    collected; and every collected breakable lies next to an expanded cell. */
ghost predicate FloodFillState(origin: GridPoint, matchSet: set<GridPoint>, sameName: set<GridPoint>, breakableCells: set<GridPoint>,
                               expanded: set<GridPoint>, matched: set<GridPoint>, queue: seq<GridPoint>, collected: set<GridPoint>)
{
  && origin in matched && expanded <= matched <= matchSet
  && (forall p :: p in queue ==> p in matched && p !in expanded)
  && (forall i, j :: 0 <= i < j < |queue| ==> queue[i] != queue[j])
  && (forall p :: p in matched ==> p in expanded || p in queue)
  && (forall p, q {:trigger Adjacent(p, q)} :: p in expanded && q in sameName && Adjacent(p, q) ==> q in matched)
  && (forall p, b {:trigger Adjacent(p, b)} :: p in expanded && b in breakableCells && Adjacent(p, b) ==> b in collected)
  && (forall b :: b in collected ==> b in breakableCells && exists p :: p in expanded && Adjacent(p, b))
}

/** The matched set and the queue after offering each of `found` in turn:
    a cell not matched yet is matched and enqueued, a matched one is
    skipped. */
ghost function Enqueued(found: seq<GridPoint>, matched: set<GridPoint>, queue: seq<GridPoint>): (set<GridPoint>, seq<GridPoint>)
  decreases |found|
{
  if found == [] then (matched, queue)
  else
    var (m, q) := Enqueued(found[..|found| - 1], matched, queue);
    var p := found[|found| - 1];
    if p in m then (m, q) else (m + {p}, q + [p])
}

/** Offering cells matches every one of them, enqueues exactly the ones that
    were new, each once, keeps the queue's old entries, and grows the queue
    iff the matched set grows. */
lemma {:induction false} EnqueuedFacts(found: seq<GridPoint>, matched: set<GridPoint>, queue: seq<GridPoint>)
  ensures var (m, q) := Enqueued(found, matched, queue);
    && matched <= m
    && (forall p :: p in found ==> p in m)
    && (forall p :: p in m ==> p in matched || p in found)
    && (forall p :: p in m ==> p in matched || p in q)
    && |queue| <= |q| && q[..|queue|] == queue
    && (forall p :: p in q ==> p in m || p in queue)
    && (forall i :: |queue| <= i < |q| ==> q[i] in m && q[i] !in matched)
    && (forall i, j :: |queue| <= i < j < |q| ==> q[i] != q[j])
    && (m == matched <==> |q| == |queue|)
  decreases |found|
{
  if found != [] {
    var prefix := found[..|found| - 1];
    EnqueuedFacts(prefix, matched, queue);
    var (m, q) := Enqueued(prefix, matched, queue);
    assert forall p :: p in prefix ==> p in found;
    var p := found[|found| - 1];
    if p !in m {
      assert (q + [p])[..|queue|] == q[..|queue|];
      assert forall i :: |queue| <= i < |q| ==> (q + [p])[i] == q[i] != p;
    }
    forall x | x in found
      ensures x in Enqueued(found, matched, queue).0
    {
      if x != p {
        var i :| 0 <= i < |found| && found[i] == x;
        assert prefix[i] == x;
      }
    }
  }
}

/** Offering found[k] after found[..k]. */
ghost predicate EnqueuedNext(found: seq<GridPoint>, k: int, matched: set<GridPoint>, queue: seq<GridPoint>)
  requires 0 <= k < |found|
{
  var (m, q) := Enqueued(found[..k], matched, queue);
  Enqueued(found[..k + 1], matched, queue) == if found[k] in m then (m, q) else (m + {found[k]}, q + [found[k]])
}

lemma EnqueuedStep(found: seq<GridPoint>, k: int, matched: set<GridPoint>, queue: seq<GridPoint>)
  requires 0 <= k < |found|
  ensures EnqueuedNext(found, k, matched, queue)
{
  assert found[..k + 1][..k] == found[..k];
}

/** The collected set after adding each of `found`. */
ghost function Collected(found: seq<GridPoint>, collected: set<GridPoint>): set<GridPoint>
  decreases |found|
{
  if found == [] then collected else Collected(found[..|found| - 1], collected) + {found[|found| - 1]}
}

lemma {:induction false} CollectedFacts(found: seq<GridPoint>, collected: set<GridPoint>)
  ensures forall b :: b in Collected(found, collected) <==> b in collected || b in found
  decreases |found|
{
  if found != [] {
    var prefix := found[..|found| - 1];
    CollectedFacts(prefix, collected);
    assert found == prefix + [found[|found| - 1]];
  }
}

/** Expanding the head of the queue keeps the flood fill's state: its
    same-name neighbours, all inside the match, are matched and queued once,
    and its breakable neighbours are collected. The match only grows, and
    when it does not the queue shrinks. */
lemma FloodFillStep(origin: GridPoint, matchSet: set<GridPoint>, sameName: set<GridPoint>, breakableCells: set<GridPoint>,
                    expanded: set<GridPoint>, matched: set<GridPoint>, queue: seq<GridPoint>, collected: set<GridPoint>,
                    sameColor: seq<GridPoint>, breakables: seq<GridPoint>)
  requires FloodFillState(origin, matchSet, sameName, breakableCells, expanded, matched, queue, collected)
  requires |queue| > 0
  requires forall q :: q in sameColor ==> q in matchSet
  requires forall q :: q in sameName && Adjacent(queue[0], q) ==> q in sameColor
  requires forall b :: b in breakables ==> b in breakableCells && Adjacent(queue[0], b)
  requires forall b :: b in breakableCells && Adjacent(queue[0], b) ==> b in breakables
  ensures var (matched', queue') := Enqueued(sameColor, matched, queue[1..]);
    && FloodFillState(origin, matchSet, sameName, breakableCells, expanded + {queue[0]}, matched', queue', Collected(breakables, collected))
    && matched <= matched' && (matched' == matched ==> |queue'| < |queue|)
{
  var current := queue[0];
  var (matched', queue') := Enqueued(sameColor, matched, queue[1..]);
  var collected' := Collected(breakables, collected);
  EnqueuedFacts(sameColor, matched, queue[1..]);
  CollectedFacts(breakables, collected);
  forall p | p in queue' && p in queue[1..]
    ensures p in matched'
  {
    var i :| 0 <= i < |queue[1..]| && queue[1..][i] == p;
    assert queue[i + 1] == p;
  }
  // Each queued cell is queued once and not yet expanded: the old entries
  // were matched, the appended ones were not.
  forall i, j | 0 <= i < j < |queue'|
    ensures queue'[i] != queue'[j]
  {
    if j < |queue| - 1 {
      assert queue'[i] == queue[i + 1] && queue'[j] == queue[j + 1];
    } else if i < |queue| - 1 {
      assert queue'[i] == queue[i + 1] && queue[i + 1] in matched;
    }
  }
  forall i | 0 <= i < |queue'|
    ensures queue'[i] !in expanded + {current}
  {
    if i < |queue| - 1 {
      assert queue'[i] == queue[i + 1] != queue[0];
    }
  }
  forall p | p in matched'
    ensures p in expanded + {current} || p in queue'
  {
    if p in matched && p !in expanded && p != current {
      assert p in queue && p != queue[0];
      var i :| 0 <= i < |queue| && queue[i] == p;
      assert queue[1..][i - 1] == p;
      assert queue'[..|queue[1..]|][i - 1] == p;
    }
  }
  forall b | b in collected'
    ensures b in breakableCells && exists p :: p in expanded + {current} && Adjacent(p, b)
  {
    if b !in collected {
      assert current in expanded + {current} && Adjacent(current, b);
    }
  }
}

/** Progress of the falling phase of FillAndFall, on column values keyed by
    column index: the columns in `done`, listed once each in `pending`, have
    fallen; every other column is as it was. */
ghost predicate FallPhase(before: map<int, seq<Slot>>, cols: map<int, seq<Slot>>, columns: set<int>,
                          done: set<int>, pending: seq<int>)
{
  && cols.Keys == before.Keys && columns <= before.Keys && done <= columns
  && (forall c :: c in columns ==> (c in done <==> c in pending))
  && (forall i :: 0 <= i < |pending| ==> pending[i] in columns)
  && (forall i, j :: 0 <= i < j < |pending| ==> pending[i] != pending[j])
  && forall c :: c in before ==> if c in pending then Fallen(before[c], cols[c]) else cols[c] == before[c]
}

lemma FallPhaseStep(before: map<int, seq<Slot>>, cols: map<int, seq<Slot>>, columns: set<int>,
                    done: set<int>, pending: seq<int>, column: int, col': seq<Slot>)
  requires FallPhase(before, cols, columns, done, pending)
  requires column in columns && column !in done && Fallen(cols[column], col')
  ensures FallPhase(before, cols[column := col'], columns, done + {column}, pending + [column])
{
}

/** Progress of the filling phase of FillAndFall: the first i pending
    columns have been filled, with items from `newItems`; every other column
    is as it was after the falls. */
ghost predicate FillPhase(fallen: map<int, seq<Slot>>, cols: map<int, seq<Slot>>, pending: seq<int>, i: int,
                          newItems: set<Item?>)
{
  && cols.Keys == fallen.Keys && 0 <= i <= |pending|
  && forall c :: c in fallen ==>
       if c in pending[..i] then FillsEmpty(fallen[c], cols[c]) && FilledItems(fallen[c], cols[c]) <= newItems
       else cols[c] == fallen[c]
}

lemma FillPhaseStep(fallen: map<int, seq<Slot>>, cols: map<int, seq<Slot>>, pending: seq<int>, i: int,
                    newItems: set<Item?>, col': seq<Slot>)
  requires FillPhase(fallen, cols, pending, i, newItems) && i < |pending| && pending[i] in fallen
  requires forall j :: 0 <= j < i ==> pending[j] != pending[i]
  requires FillsEmpty(cols[pending[i]], col')
  ensures FillPhase(fallen, cols[pending[i] := col'], pending, i + 1, newItems + FilledItems(cols[pending[i]], col'))
{
  assert pending[..i + 1] == pending[..i] + [pending[i]];
}

/** After both phases, the columns named by a cleared cell are refilled,
    with every item above their old ones taken from the fills' new items,
    and every other column is unchanged. */
lemma CascadeDone(before: map<int, seq<Slot>>, fallen: map<int, seq<Slot>>, after: map<int, seq<Slot>>,
                  columns: set<int>, pending: seq<int>, newItems: set<Item?>)
  requires FallPhase(before, fallen, columns, columns, pending) && FillPhase(fallen, after, pending, |pending|, newItems)
  ensures after.Keys == before.Keys
  ensures forall c :: c in before ==>
            c in after && if c in columns then Refilled(before[c], after[c]) else after[c] == before[c]
  ensures forall c, k :: c in before && c in columns && |FullItems(before[c])| <= k < |FullItems(after[c])| ==>
            FullItems(after[c])[k] in newItems
{
  forall c | c in before && c in columns
    ensures Refilled(before[c], after[c])
    ensures forall k :: |FullItems(before[c])| <= k < |FullItems(after[c])| ==> FullItems(after[c])[k] in newItems
  {
    assert c in pending[..|pending|];
    FallThenFill(before[c], fallen[c], after[c]);
  }
}

class GridOperations {
  const gridController: GridController

  constructor (gridController: GridController)
    ensures this.gridController == gridController
  {
    this.gridController := gridController;
  }

  /** The cells next to gridPoint in the given directions, in the order the
      directions are given; a direction that leads off the grid adds nothing. */
  function GetPointNeighbours(gridPoint: GridPoint, directions: seq<Direction>): (neighbors: seq<GridPoint>)
    requires gridController.Shape()
    reads gridController`points, gridController.points
    ensures |neighbors| <= |directions|
    ensures forall q :: q in neighbors ==> q in gridController.Cells()
    decreases |directions|
  {
    if directions == [] then []
    else
      var d := directions[|directions| - 1];
      var neighbor := gridController.GetPoint(Target(gridPoint, d).0, Target(gridPoint, d).1);
      GetPointNeighbours(gridPoint, directions[..|directions| - 1]) + (if neighbor != null then [neighbor] else [])
  }

  /** A cell is a neighbour exactly when it is a cell of the grid at the
      position one of the directions leads to. */
  lemma {:induction false} NeighboursAt(gridPoint: GridPoint, directions: seq<Direction>, q: GridPoint)
    requires gridController.Shape()
    ensures q in GetPointNeighbours(gridPoint, directions) <==>
              q in gridController.Cells() && exists d :: d in directions && Target(gridPoint, d) == (q.x, q.y)
    decreases |directions|
  {
    if directions != [] {
      var front := directions[..|directions| - 1];
      NeighboursAt(gridPoint, front, q);
      assert directions == front + [directions[|directions| - 1]];
    }
  }

  /** The neighbours come back in the order the directions are asked: those
      for a list of directions followed by more directions are the first
      list's neighbours followed by the rest's. */
  lemma {:induction false} NeighboursInOrder(gridPoint: GridPoint, first: seq<Direction>, rest: seq<Direction>)
    requires gridController.Shape()
    ensures GetPointNeighbours(gridPoint, first + rest) ==
              GetPointNeighbours(gridPoint, first) + GetPointNeighbours(gridPoint, rest)
    decreases |rest|
  {
    if rest != [] {
      var front := rest[..|rest| - 1];
      NeighboursInOrder(gridPoint, first, front);
      assert (first + rest)[..|first + rest| - 1] == first + front;
    } else {
      assert first + rest == first;
    }
  }

  /** The neighbour a single direction asks for: the grid cell at the
      position it leads to, or nothing off the grid. */
  lemma NeighbourInDirection(gridPoint: GridPoint, d: Direction)
    requires gridController.Shape()
    ensures var (x, y) := Target(gridPoint, d);
            GetPointNeighbours(gridPoint, [d]) ==
              if gridController.InGrid((x, y)) then [gridController.points[x, y]] else []
  {
    assert [d][..0] == [];
  }

  /** Asked for Left, Up, Right and Down, a cell away from the grid's edges
      gets its four neighbours in that order. */
  lemma OrthogonalOrder(gridPoint: GridPoint)
    requires gridController.Shape() && gridPoint in gridController.Cells()
    requires 0 < gridPoint.x < gridController.width - 1 && 0 < gridPoint.y < gridController.height - 1
    ensures var (x, y), points := (gridPoint.x, gridPoint.y), gridController.points;
            GetPointNeighbours(gridPoint, Orthogonal) == [points[x - 1, y], points[x, y + 1], points[x + 1, y], points[x, y - 1]]
  {
    NeighboursInOrder(gridPoint, [Left], [Up]);
    NeighboursInOrder(gridPoint, [Left, Up], [Right]);
    NeighboursInOrder(gridPoint, [Left, Up, Right], [Down]);
    NeighbourInDirection(gridPoint, Left);
    NeighbourInDirection(gridPoint, Up);
    NeighbourInDirection(gridPoint, Right);
    NeighbourInDirection(gridPoint, Down);
    assert [Left] + [Up] + [Right] + [Down] == Orthogonal;
  }

  /** Asked for Left, Up, Right and Down, the neighbours are exactly the grid
      cells orthogonally next to gridPoint. */
  lemma OrthogonalNeighbours(gridPoint: GridPoint, q: GridPoint)
    requires gridController.Shape()
    ensures q in GetPointNeighbours(gridPoint, Orthogonal) <==> q in gridController.Cells() && Adjacent(gridPoint, q)
  {
    NeighboursAt(gridPoint, Orthogonal, q);
    if q in gridController.Cells() && Adjacent(gridPoint, q) {
      var d :| d in Orthogonal && Target(gridPoint, d) == (q.x, q.y) by {
        if q.x == gridPoint.x - 1 {
          assert Target(gridPoint, Left) == (q.x, q.y);
        } else if q.x == gridPoint.x + 1 {
          assert Target(gridPoint, Right) == (q.x, q.y);
        } else if q.y == gridPoint.y + 1 {
          assert Target(gridPoint, Up) == (q.x, q.y);
        } else {
          assert Target(gridPoint, Down) == (q.x, q.y);
        }
      }
    }
  }

  /** The neighbours in the given directions that are Full with gridPoint's
      item name, and the Full Breakable neighbours of another name. */
  function GetSameColorNeighbourPoints(gridPoint: GridPoint, directions: seq<Direction>): (groups: NeighbourGroups)
    requires gridController.Shape() && gridPoint.item != null
    reads gridController`points, gridController.points, gridController.Cells(), gridPoint
    ensures |groups.sameColor| + |groups.breakables| <= |directions|
  {
    SplitNeighbours(GetPointNeighbours(gridPoint, directions), gridPoint.item.model.itemName)
  }

  /** The first group holds exactly the neighbours Full with gridPoint's item
      name, the second exactly the neighbours Full with a Breakable item of
      another name. */
  lemma SameColorNeighboursAt(gridPoint: GridPoint, directions: seq<Direction>, q: GridPoint)
    requires gridController.Shape() && gridPoint.item != null
    ensures var groups, neighbors := GetSameColorNeighbourPoints(gridPoint, directions), GetPointNeighbours(gridPoint, directions);
            && (q in groups.sameColor <==> q in neighbors && q.FullWith(gridPoint.item.model.itemName))
            && (q in groups.breakables <==> q in neighbors && q.BreakableFor(gridPoint.item.model.itemName))
  {
    SplitNeighboursAt(GetPointNeighbours(gridPoint, directions), gridPoint.item.model.itemName, q);
  }

  /** Expanding a cell of origin's match: its neighbours Full with the
      match's name all belong to the match, and the two groups are exactly
      its neighbours of each kind. */
  lemma ExpansionStep(origin: GridPoint, p: GridPoint)
    requires gridController.Shape() && origin in gridController.Cells() && origin.item != null
    requires p in gridController.MatchSet(origin)
    ensures p.item != null && p.item.model.itemName == origin.item.model.itemName
    ensures var groups, name := GetSameColorNeighbourPoints(p, Orthogonal), origin.item.model.itemName;
            && (forall q :: q in groups.sameColor ==> q in gridController.MatchSet(origin))
            && (forall q :: q in gridController.FullCells(name) && Adjacent(p, q) ==> q in groups.sameColor)
            && (forall b :: b in groups.breakables ==> b in gridController.BreakableCells(name) && Adjacent(p, b))
            && (forall b :: b in gridController.BreakableCells(name) && Adjacent(p, b) ==> b in groups.breakables)
  {
    var name := origin.item.model.itemName;
    gridController.MatchSetSameName(origin, p);
    var groups := GetSameColorNeighbourPoints(p, Orthogonal);
    forall q | q in groups.sameColor
      ensures q in gridController.MatchSet(origin)
    {
      SameColorNeighboursAt(p, Orthogonal, q);
      OrthogonalNeighbours(p, q);
      gridController.MatchSetClosed(origin, p, q);
    }
    forall q | Adjacent(p, q)
      ensures q in gridController.FullCells(name) ==> q in groups.sameColor
      ensures q in gridController.BreakableCells(name) ==> q in groups.breakables
    {
      SameColorNeighboursAt(p, Orthogonal, q);
      OrthogonalNeighbours(p, q);
    }
    forall b | b in groups.breakables
      ensures b in gridController.BreakableCells(name) && Adjacent(p, b)
    {
      SameColorNeighboursAt(p, Orthogonal, b);
      OrthogonalNeighbours(p, b);
    }
  }

  /** One turn of the flood fill's loop: dequeuing a cell, offering its
      same-name neighbours and collecting its breakable neighbours keeps the
      flood fill's state, and the match only grows, or else the queue
      shrinks. */
  lemma ExpandHead(origin: GridPoint, matchSet: set<GridPoint>, sameName: set<GridPoint>, breakableCells: set<GridPoint>,
                   expanded: set<GridPoint>, matched: set<GridPoint>, queue: seq<GridPoint>, collected: set<GridPoint>,
                   matched': set<GridPoint>, queue': seq<GridPoint>, collected': set<GridPoint>)
    requires gridController.Shape() && origin in gridController.Cells() && origin.item != null
    requires matchSet == gridController.MatchSet(origin)
    requires sameName == gridController.FullCells(origin.item.model.itemName)
    requires breakableCells == gridController.BreakableCells(origin.item.model.itemName)
    requires FloodFillState(origin, matchSet, sameName, breakableCells, expanded, matched, queue, collected)
    requires |queue| > 0 && queue[0].item != null
    requires (matched', queue') == Enqueued(GetSameColorNeighbourPoints(queue[0], Orthogonal).sameColor, matched, queue[1..])
    requires collected' == Collected(GetSameColorNeighbourPoints(queue[0], Orthogonal).breakables, collected)
    ensures FloodFillState(origin, matchSet, sameName, breakableCells, expanded + {queue[0]}, matched', queue', collected')
    ensures matchSet - matched' < matchSet - matched || (matchSet - matched' == matchSet - matched && |queue'| < |queue|)
  {
    ExpansionStep(origin, queue[0]);
    var groups := GetSameColorNeighbourPoints(queue[0], Orthogonal);
    FloodFillStep(origin, matchSet, sameName, breakableCells, expanded, matched, queue, collected, groups.sameColor, groups.breakables);
    if matched' != matched {
      var p :| p in matched' && p !in matched;
      assert p in matchSet - matched;
    }
  }

  /** The breadth-first flood fill from the selected cell. The first result
      is exactly the match of the selected cell's item name, the second
      exactly the Breakable cells of another name next to the match; the
      breakables are collected but never expanded. */
  method GetMatches(gridPoint: GridPoint) returns (matchedPoints: set<GridPoint>, matchedBreakables: set<GridPoint>)
    requires gridController.Shape()
    requires gridPoint in gridController.Cells() && gridPoint.item != null
    ensures matchedPoints == gridController.MatchSet(gridPoint)
    ensures matchedBreakables == gridController.Fringe(matchedPoints, gridPoint.item.model.itemName)
  {
    var name := gridPoint.item.model.itemName;
    // The flood fill does not change the grid: the sets it is measured
    // against can be taken once.
    ghost var matchSet := gridController.MatchSet(gridPoint);
    ghost var sameName := gridController.FullCells(name);
    ghost var breakableCells := gridController.BreakableCells(name);
    gridController.OriginInMatchSet(gridPoint);
    matchedPoints := {gridPoint};
    matchedBreakables := {};
    var currentQueue := [gridPoint];
    ghost var expanded: set<GridPoint> := {};
    while |currentQueue| > 0
      invariant FloodFillState(gridPoint, matchSet, sameName, breakableCells, expanded, matchedPoints, currentQueue, matchedBreakables)
      decreases matchSet - matchedPoints, |currentQueue|
    {
      ghost var matched0, queue0, collected0, expanded0 := matchedPoints, currentQueue, matchedBreakables, expanded;
      var currentPoint := currentQueue[0];
      currentQueue := currentQueue[1..];
      expanded := expanded + {currentPoint};
      assert currentPoint.item != null && currentPoint.item.model.itemName == name by {
        gridController.MatchSetSameName(gridPoint, currentPoint);
      }
      var neighborGroups := GetSameColorNeighbourPoints(currentPoint, Orthogonal);
      var sameColor, breakables := neighborGroups.sameColor, neighborGroups.breakables;
      ghost var rest := currentQueue;
      for k := 0 to |sameColor|
        invariant (matchedPoints, currentQueue) == Enqueued(sameColor[..k], matched0, rest)
      {
        assert EnqueuedNext(sameColor, k, matched0, rest) by { EnqueuedStep(sameColor, k, matched0, rest); }
        var matchPoint := sameColor[k];
        if matchPoint !in matchedPoints {
          matchedPoints := matchedPoints + {matchPoint};
          currentQueue := currentQueue + [matchPoint];
        }
      }
      for k := 0 to |breakables|
        invariant matchedBreakables == Collected(breakables[..k], collected0)
      {
        assert Collected(breakables[..k + 1], collected0) == Collected(breakables[..k], collected0) + {breakables[k]} by {
          assert breakables[..k + 1][..k] == breakables[..k];
        }
        matchedBreakables := matchedBreakables + {breakables[k]};
      }
      assert sameColor[..|sameColor|] == sameColor && breakables[..|breakables|] == breakables;
      assert FloodFillState(gridPoint, matchSet, sameName, breakableCells, expanded, matchedPoints, currentQueue, matchedBreakables)
          && (matchSet - matchedPoints < matchSet - matched0 || (matchSet - matchedPoints == matchSet - matched0 && |currentQueue| < |queue0|)) by {
        ExpandHead(gridPoint, matchSet, sameName, breakableCells, expanded0, matched0, queue0, collected0,
                   matchedPoints, currentQueue, matchedBreakables);
      }
    }
    // The queue is empty: every matched cell has been expanded.
    gridController.FloodFillComplete(gridPoint, matchedPoints);
    gridController.FringeCollected(matchedPoints, matchedBreakables, name);
  }

  /** The cascade after a match, on the grid as it reads before, `cols`:
      every column holding a cleared cell falls, and then, once the falls are
      done, is filled (the fill is a delayed call, so all falls run before
      any fill). Each such column ends refilled, every item above its old
      ones being one of `newItems`, which did not exist before; every other
      column is untouched, and no item's health changes. */
  method FillAndFall(clearedPoints: set<GridPoint>, chooser: seq<CellView> -> ItemModel, ghost cols: map<int, seq<Slot>>)
    returns (ghost cols': map<int, seq<Slot>>, ghost newItems: set<Item?>)
    requires gridController.Shape() && clearedPoints <= gridController.Cells()
    requires (forall c :: c in cols <==> 0 <= c < gridController.width)
    requires gridController.ReadsAs(cols) && UniqueItems(cols)
    requires NeverObstacle(chooser)
    modifies gridController.Cells()
    ensures unchanged(gridController, gridController.points)
    ensures forall i: Item :: old(allocated(i)) ==> i.currHealth == old(i.currHealth)
    ensures gridController.ReadsAs(cols') && UniqueItems(cols') && cols'.Keys == cols.Keys
    ensures forall c :: c in cols ==>
              c in cols' && if c in Columns(clearedPoints) then Refilled(cols[c], cols'[c]) else cols'[c] == cols[c]
    ensures forall c, k :: c in cols && c in Columns(clearedPoints) && |FullItems(cols[c])| <= k < |FullItems(cols'[c])| ==>
              FullItems(cols'[c])[k] in newItems
    ensures forall it :: it in newItems ==> fresh(it)
  {
    var pending;
    ghost var fallen;
    pending, fallen := FallColumns(clearedPoints, cols);
    cols', newItems := FillColumns(pending, chooser, fallen);
    CascadeDone(cols, fallen, cols', Columns(clearedPoints), pending, newItems);
  }

  /** The first phase of FillAndFall: lets the column of a cleared cell
      fall, drops the cleared cells of that column, and repeats, so that each
      distinct column of the cleared cells falls once, in an order of its
      choosing; returns the columns in the order they fell. Each of them ends
      `Fallen`; every other column is as it was. */
  method FallColumns(clearedPoints: set<GridPoint>, ghost before: map<int, seq<Slot>>)
    returns (pending: seq<int>, ghost cols: map<int, seq<Slot>>)
    requires gridController.Shape() && clearedPoints <= gridController.Cells()
    requires (forall c :: c in before <==> 0 <= c < gridController.width)
    requires gridController.ReadsAs(before) && UniqueItems(before)
    modifies gridController.Cells()
    ensures FallPhase(before, cols, Columns(clearedPoints), Columns(clearedPoints), pending)
    ensures gridController.ReadsAs(cols) && UniqueItems(cols)
  {
    ghost var columns := Columns(clearedPoints);
    cols := before;
    var remaining := clearedPoints;
    ghost var done: set<int> := {};
    pending := [];
    while remaining != {}
      invariant remaining <= clearedPoints
      invariant FallPhase(before, cols, columns, done, pending)
      invariant forall p :: p in clearedPoints ==> (p in remaining <==> p.x !in done)
      invariant gridController.ReadsAs(cols) && UniqueItems(cols)
      decreases remaining
    {
      var point :| point in remaining;
      var column := point.x;
      ghost var cols' := FallColumn(column, cols);
      assert FallPhase(before, cols', columns, done + {column}, pending + [column]) by {
        FallPhaseStep(before, cols, columns, done, pending, column, cols'[column]);
      }
      cols, done := cols', done + {column};
      pending := pending + [column];
      remaining := set p | p in remaining && p.x != column;
    }
  }

  /** The second phase of FillAndFall: fills the columns that fell, in the
      order they fell. Each ends filled with items that did not exist
      before; every other column is as it was. */
  method FillColumns(pending: seq<int>, chooser: seq<CellView> -> ItemModel, ghost fallen: map<int, seq<Slot>>)
    returns (ghost cols: map<int, seq<Slot>>, ghost newItems: set<Item?>)
    requires gridController.Shape() && forall i :: 0 <= i < |pending| ==> 0 <= pending[i] < gridController.width
    requires forall i, j :: 0 <= i < j < |pending| ==> pending[i] != pending[j]
    requires gridController.ReadsAs(fallen) && UniqueItems(fallen)
    requires NeverObstacle(chooser)
    modifies gridController.Cells()
    ensures FillPhase(fallen, cols, pending, |pending|, newItems)
    ensures gridController.ReadsAs(cols) && UniqueItems(cols)
    ensures forall it :: it in newItems ==> fresh(it)
  {
    cols, newItems := fallen, {};
    for i := 0 to |pending|
      invariant FillPhase(fallen, cols, pending, i, newItems)
      invariant gridController.ReadsAs(cols) && UniqueItems(cols)
      invariant forall it :: it in newItems ==> fresh(it)
    {
      ghost var cols' := FillColumn(pending[i], chooser, cols);
      ghost var filled := FilledItems(cols[pending[i]], cols'[pending[i]]);
      assert FillPhase(fallen, cols', pending, i + 1, newItems + filled) by {
        FillPhaseStep(fallen, cols, pending, i, newItems, cols'[pending[i]]);
      }
      cols, newItems := cols', newItems + filled;
    }
  }

  /** Lets the items of a column fall: bottom to top, each Empty cell takes
      the item of the lowest Full cell above it, which becomes Empty. The
      column keeps its items in their order and its obstacles, and ends with
      no Empty cell below a Full one; the other columns are untouched. */
  method FallColumn(column: int, ghost cols: map<int, seq<Slot>>) returns (ghost cols': map<int, seq<Slot>>)
    requires gridController.Shape() && 0 <= column < gridController.width
    requires gridController.ReadsAs(cols) && UniqueItems(cols)
    modifies gridController.ColumnCells(column)
    ensures gridController.ReadsAs(cols') && cols' == cols[column := cols'[column]]
    ensures Fallen(cols[column], cols'[column]) && UniqueItems(cols')
  {
    cols' := cols;
    for y := 0 to gridController.height
      invariant gridController.ReadsAs(cols') && cols' == cols[column := cols'[column]]
      invariant FallingFrom(cols[column], cols'[column], y) && UniqueItems(cols')
    {
      FallStepPasses(cols[column], cols'[column], y);
      cols' := FallInto(column, y, cols');
    }
  }

  /** One turn of FallColumn's loop at row y: if the cell is Empty, the
      lowest Full cell above it, if any, hands its item down and becomes
      Empty; otherwise nothing changes. */
  method FallInto(column: int, y: int, ghost cols: map<int, seq<Slot>>) returns (ghost cols': map<int, seq<Slot>>)
    requires gridController.Shape() && 0 <= column < gridController.width && 0 <= y < gridController.height
    requires gridController.ReadsAs(cols) && UniqueItems(cols)
    modifies gridController.ColumnCells(column)
    ensures gridController.ReadsAs(cols') && UniqueItems(cols')
    ensures cols' == cols[column := FallStep(cols[column], y)]
  {
    cols' := cols;
    ghost var col := cols[column];
    var currPoint := gridController.points[column, y];
    if currPoint != null && currPoint.state == Empty {
      var fullPoint := FindFirstFullPoint(currPoint);
      if fullPoint != null {
        ghost var s := fullPoint.y;
        assert FirstFullFrom(col, y + 1) == s by {
          assert gridController.points[column, s] == fullPoint;
        }
        cols' := MoveDown(currPoint, fullPoint, cols);
      } else {
        assert FirstFullFrom(col, y + 1) == |col|;
      }
    }
  }

  /** The move at the heart of a fall: the Empty cell `currPoint` takes over
      the item of the Full cell `fullPoint` above it, which becomes Empty. */
  method MoveDown(currPoint: GridPoint, fullPoint: GridPoint, ghost cols: map<int, seq<Slot>>)
    returns (ghost cols': map<int, seq<Slot>>)
    requires gridController.Shape() && gridController.ReadsAs(cols) && UniqueItems(cols)
    requires currPoint in gridController.Cells() && fullPoint in gridController.Cells()
    requires fullPoint.x == currPoint.x && currPoint.y < fullPoint.y && fullPoint.state == Full
    modifies currPoint, fullPoint
    ensures gridController.ReadsAs(cols') && UniqueItems(cols')
    ensures var col := cols[currPoint.x];
            cols' == cols[currPoint.x := col[currPoint.y := Slot(Full, col[fullPoint.y].item)][fullPoint.y := Slot(Empty, null)]]
  {
    ghost var column, y, s := currPoint.x, currPoint.y, fullPoint.y;
    ghost var col := cols[column];
    currPoint.AddNewItem(fullPoint.item);
    fullPoint.RemoveItem();
    cols' := cols[column := col[y := Slot(Full, col[s].item)][s := Slot(Empty, null)]];
    forall c, k | 0 <= c < gridController.width && 0 <= k < gridController.height
      ensures gridController.points[c, k].Snapshot() == cols'[c][k] && gridController.points[c, k].Valid()
    {
      if c != column || (k != y && k != s) {
        assert gridController.points[c, k] != currPoint && gridController.points[c, k] != fullPoint;
      }
    }
    MoveKeepsUnique(cols, column, y, s);
  }

  /** Fills a column: bottom to top, each Empty cell gets a new item whose
      model the replacement chooser picks from the cell's orthogonal
      neighbours. Every Empty cell ends Full with a fresh item, every other
      cell is left as it was, and the other columns are untouched. */
  method FillColumn(column: int, chooser: seq<CellView> -> ItemModel, ghost cols: map<int, seq<Slot>>)
    returns (ghost cols': map<int, seq<Slot>>)
    requires gridController.Shape() && 0 <= column < gridController.width
    requires gridController.ReadsAs(cols) && UniqueItems(cols)
    requires NeverObstacle(chooser)
    modifies gridController.ColumnCells(column)
    ensures gridController.ReadsAs(cols') && cols' == cols[column := cols'[column]]
    ensures FillsEmpty(cols[column], cols'[column]) && UniqueItems(cols')
    ensures forall it :: it in FilledItems(cols[column], cols'[column]) ==> fresh(it)
    ensures forall y :: 0 <= y < gridController.height && cols[column][y].state == Empty ==>
              && fresh(gridController.points[column, y].item)
              && gridController.points[column, y].CreatedFrom(gridController.points[column, y].item.model)
  {
    cols' := cols;
    for y := 0 to gridController.height
      invariant gridController.ReadsAs(cols') && cols' == cols[column := cols'[column]]
      invariant FillingFrom(cols[column], cols'[column], y) && UniqueItems(cols')
      invariant forall k :: 0 <= k < y && cols[column][k].state == Empty ==>
                  && fresh(gridController.points[column, k].item)
                  && gridController.points[column, k].CreatedFrom(gridController.points[column, k].item.model)
    {
      cols' := FillInto(column, y, chooser, cols[column], cols');
    }
  }

  /** One turn of FillColumn's loop at row y: an Empty cell gets a new item
      from the chooser's pick, which makes it Full. The fill has then passed
      row y. */
  method FillInto(column: int, y: int, chooser: seq<CellView> -> ItemModel, ghost col0: seq<Slot>, ghost cols: map<int, seq<Slot>>)
    returns (ghost cols': map<int, seq<Slot>>)
    requires gridController.Shape() && 0 <= column < gridController.width && 0 <= y < gridController.height
    requires NeverObstacle(chooser)
    requires gridController.ReadsAs(cols) && FillingFrom(col0, cols[column], y) && UniqueItems(cols)
    modifies gridController.points[column, y]
    ensures gridController.ReadsAs(cols') && cols' == cols[column := cols'[column]]
    ensures FillingFrom(col0, cols'[column], y + 1) && UniqueItems(cols')
    ensures col0[y].state == Empty ==>
              && fresh(gridController.points[column, y].item)
              && gridController.points[column, y].CreatedFrom(
                   chooser(old(Views(GetPointNeighbours(gridController.points[column, y], Orthogonal)))))
  {
    cols' := cols;
    var currPoint := gridController.points[column, y];
    if currPoint != null && currPoint.state == Empty {
      var randomItem := chooser(Views(GetPointNeighbours(currPoint, Orthogonal)));
      currPoint.CreateItem(randomItem);
      cols' := cols[column := cols[column][y := currPoint.Snapshot()]];
      forall c, k | 0 <= c < gridController.width && 0 <= k < gridController.height
        ensures gridController.points[c, k].Snapshot() == cols'[c][k] && gridController.points[c, k].Valid()
      {
        if c != column || k != y {
          assert gridController.points[c, k] != currPoint;
        }
      }
      assert UniqueItems(cols') by {
        // The new item is fresh: no cell held it before.
        assert forall c', y' :: c' in cols && 0 <= y' < |cols[c']| ==> cols[c'][y'].item != currPoint.item;
        AddKeepsUnique(cols, column, y, currPoint.Snapshot());
      }
    }
  }

  /** The lowest Full cell above the given one in its column, skipping
      Empty and Obstacle cells; null when no cell above it is Full. */
  method FindFirstFullPoint(point: GridPoint) returns (fullPoint: GridPoint?)
    requires gridController.Shape() && point in gridController.Cells()
    ensures fullPoint != null ==>
              && fullPoint in gridController.Cells() && fullPoint.state == Full
              && fullPoint.x == point.x && point.y < fullPoint.y
    ensures forall y :: point.y < y < gridController.height && (fullPoint == null || y < fullPoint.y) ==>
              gridController.points[point.x, y].state != Full
  {
    for y := point.y + 1 to gridController.height
      invariant forall y' :: point.y < y' < y ==> gridController.points[point.x, y'].state != Full
    {
      var candidatePoint := gridController.points[point.x, y];
      if candidatePoint != null && candidatePoint.state == Full {
        return candidatePoint;
      }
    }
    return null;
  }
}
