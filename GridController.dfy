// The grid: a width x height array of cells, the bounds-checked lookup, and
// the selection handler that damages a match and cascades its columns.

class GridController {
  const width: nat   // GridSize.x, the number of columns
  const height: nat  // GridSize.y, the number of rows
  var points: array2<GridPoint?>
  var gridOperations: GridOperations?

  /** Whether a position lies inside the grid. */
  predicate InGrid(pos: (int, int))
  {
    0 <= pos.0 < width && 0 <= pos.1 < height
  }

  /** Every index of the grid holds a cell that knows its own position. */
  ghost predicate Shape()
    reads this`points, points
  {
    && points.Length0 == width && points.Length1 == height
    && forall x, y :: 0 <= x < width && 0 <= y < height ==>
         points[x, y] != null && points[x, y].x == x && points[x, y].y == y
  }

  /** The cells of the grid. */
  ghost function Cells(): (cells: set<GridPoint>)
    reads this`points, points
    ensures forall x, y :: 0 <= x < points.Length0 && 0 <= y < points.Length1 && points[x, y] != null ==>
              points[x, y] in cells
    ensures Shape() ==> forall p :: p in cells ==>
              0 <= p.x < width && 0 <= p.y < height && points[p.x, p.y] == p
  {
    set x, y | 0 <= x < points.Length0 && 0 <= y < points.Length1 && points[x, y] != null :: points[x, y] as GridPoint
  }

  /** The items the cells hold. */
  ghost function Items(): set<Item>
    reads this`points, points, Cells()
  {
    set p | p in Cells() && p.item != null :: p.item as Item
  }

  /** Each cell is consistent, and no item is owned by two cells. */
  ghost predicate CellsValid()
    requires Shape()
    reads this`points, points, Cells()
  {
    (forall c :: 0 <= c < width ==> ColumnValid(c)) && UniqueItems(Grid())
  }

  ghost predicate Valid()
    reads this, points, Cells()
  {
    Shape() && CellsValid() && gridOperations != null && gridOperations.gridController == this
  }

  /** The cells of column c. */
  ghost function ColumnCells(c: int): (cells: set<GridPoint>)
    requires Shape() && 0 <= c < width
    reads this`points, points
    ensures forall y :: 0 <= y < height ==> points[c, y] in cells
    ensures forall p :: p in cells ==> p.x == c && 0 <= p.y < height && points[c, p.y] == p
  {
    set y | 0 <= y < height :: points[c, y] as GridPoint
  }

  /** The first n cells of column c, bottom first. */
  ghost function ColumnUpTo(c: int, n: nat): (col: seq<Slot>)
    requires Shape() && 0 <= c < width && n <= height
    reads this`points, points, ColumnCells(c)
    ensures |col| == n
    ensures forall y :: 0 <= y < n ==> col[y] == points[c, y].Snapshot()
  {
    if n == 0 then [] else ColumnUpTo(c, n - 1) + [points[c, n - 1].Snapshot()]
  }

  /** Column c as a value, bottom row first. */
  ghost function Column(c: int): (col: seq<Slot>)
    requires Shape() && 0 <= c < width
    reads this`points, points, ColumnCells(c)
  {
    ColumnUpTo(c, height)
  }

  /** Every cell of column c is consistent. */
  ghost predicate ColumnValid(c: int)
    requires Shape() && 0 <= c < width
    reads this`points, points, ColumnCells(c)
  {
    forall y :: 0 <= y < height ==> points[c, y].Valid()
  }

  /** The grid as column values: column c maps to Column(c). */
  ghost function Grid(): (cols: map<int, seq<Slot>>)
    requires Shape()
    reads this`points, points, Cells()
  {
    map c | 0 <= c < width :: Column(c)
  }

  /** The grid reads as cols: for each column c, cols[c] lists the state and
      item of its cells, bottom first, and each of those cells is
      consistent. */
  ghost predicate ReadsAs(cols: map<int, seq<Slot>>)
    requires Shape()
    reads this`points, points, Cells()
  {
    && (forall c :: 0 <= c < width ==> c in cols && |cols[c]| == height)
    && forall c, y :: 0 <= c < width && 0 <= y < height ==>
         points[c, y].Snapshot() == cols[c][y] && points[c, y].Valid()
  }

  /** A grid of consistent cells reads as its own columns, and a grid that
      reads as cols has the columns of cols, each of consistent cells. */
  lemma ReadsAsGrid()
    requires Shape() && forall c :: 0 <= c < width ==> ColumnValid(c)
    ensures ReadsAs(Grid())
  {
    var cols := Grid();
    forall c, y | 0 <= c < width && 0 <= y < height
      ensures c in cols && |cols[c]| == height && points[c, y].Snapshot() == cols[c][y] && points[c, y].Valid()
    {
      assert cols[c] == Column(c) && ColumnValid(c);
    }
  }

  lemma GridOfReading(cols: map<int, seq<Slot>>)
    requires Shape() && ReadsAs(cols)
    ensures forall c :: 0 <= c < width ==> Column(c) == cols[c] && ColumnValid(c)
  {
    forall c | 0 <= c < width
      ensures Column(c) == cols[c]
    {
    }
  }

  /** A grid that reads as columns with distinct items has distinct items. */
  lemma UniqueOfReading(cols: map<int, seq<Slot>>)
    requires Shape() && ReadsAs(cols) && UniqueItems(cols)
    ensures UniqueItems(Grid())
  {
    GridOfReading(cols);
    var grid := Grid();
    forall c, y, c', y'
      ensures DistinctAt(grid, c, y, c', y')
    {
      assert DistinctAt(cols, c, y, c', y');
    }
  }

  /** CreateGrid, with SetupGridSize: the level's column and row counts fix
      the size, InitializeGridPoints builds a cell for every position from
      the level's item ids, and the grid gets its operations object. The new
      grid is consistent, and each cell holds a new item made from the model
      of its position's id. */
  constructor CreateGrid(columnCount: nat, rowCount: nat, levelGridInfo: (int, int) -> int, getModel: int -> ItemModel)
    ensures width == columnCount && height == rowCount
    ensures Valid() && fresh(points) && fresh(gridOperations)
    ensures forall x, y :: 0 <= x < width && 0 <= y < height ==>
              fresh(points[x, y]) && fresh(points[x, y].item) && points[x, y].CreatedFrom(getModel(levelGridInfo(x, y)))
  {
    width, height := columnCount, rowCount;
    var grid, owner := InitializeGridPoints(columnCount, rowCount, levelGridInfo, getModel);
    points := grid;
    new;
    gridOperations := new GridOperations(this);
    assert Shape();
    forall x, y | 0 <= x < width && 0 <= y < height
      ensures fresh(points[x, y]) && fresh(points[x, y].item) && points[x, y].CreatedFrom(getModel(levelGridInfo(x, y)))
      ensures points[x, y].Valid()
      ensures points[x, y].item != null && points[x, y].item in owner && owner[points[x, y].item] == (x, y)
    {
      assert points[x, y] == grid[x, y];
    }
    assert forall c :: 0 <= c < width ==> ColumnValid(c);
    ReadsAsGrid();
    OwnedItemsUnique(owner);
  }

  /** No two cells hold the same item when each item names its one cell. */
  lemma OwnedItemsUnique(owner: map<Item, (int, int)>)
    requires Shape() && ReadsAs(Grid())
    requires forall x, y :: 0 <= x < width && 0 <= y < height ==>
               points[x, y].item != null && points[x, y].item in owner && owner[points[x, y].item] == (x, y)
    ensures UniqueItems(Grid())
  {
    var cols := Grid();
    forall c, y, c', y'
      ensures DistinctAt(cols, c, y, c', y')
    {
      if c in cols && c' in cols && 0 <= y < |cols[c]| && 0 <= y' < |cols[c']| {
        assert cols[c][y].item == points[c, y].item && cols[c'][y'].item == points[c', y'].item;
      }
    }
  }

  /** The cell at (x, y), or null when (x, y) is outside the grid. */
  function GetPoint(x: int, y: int): (point: GridPoint?)
    requires Shape()
    reads this`points, points
    ensures point != null <==> 0 <= x < width && 0 <= y < height
    ensures point != null ==> point == points[x, y] && point in Cells() && point.x == x && point.y == y
  {
    if 0 <= x < width && 0 <= y < height then points[x, y] else null
  }

  // ---------------------------------------------------------------------
  // The match a selection makes, as a set defined by paths.

  /** Every step of the path moves to an orthogonally neighbouring position
      of the grid whose cell is Full with an item of the given name. */
  ghost predicate MatchSteps(path: seq<(int, int)>, name: string)
    requires Shape()
    reads this`points, points, Cells()
    decreases |path|
  {
    |path| <= 1 ||
    var last := path[|path| - 1];
    && MatchSteps(path[..|path| - 1], name)
    && InGrid(last) && Neighbouring(path[|path| - 2], last) && points[last.0, last.1].FullWith(name)
  }

  /** A chain of orthogonal steps from origin to target through positions of
      the grid whose every cell after the origin is Full with an item of the
      given name. */
  ghost predicate IsMatchPath(path: seq<(int, int)>, origin: GridPoint, target: GridPoint, name: string)
    requires Shape()
    reads this`points, points, Cells()
  {
    && |path| >= 1 && path[0] == (origin.x, origin.y) && path[|path| - 1] == (target.x, target.y)
    && MatchSteps(path, name)
  }

  /** The steps of a path, one index at a time. */
  lemma {:induction false} MatchStepsAt(path: seq<(int, int)>, name: string)
    requires Shape()
    ensures MatchSteps(path, name) <==> forall i :: 1 <= i < |path| ==>
              InGrid(path[i]) && Neighbouring(path[i - 1], path[i]) && points[path[i].0, path[i].1].FullWith(name)
    decreases |path|
  {
    if |path| > 1 {
      var prefix := path[..|path| - 1];
      MatchStepsAt(prefix, name);
      assert forall i :: 0 <= i < |prefix| ==> prefix[i] == path[i];
    }
  }

  /** The cells connected to origin through cells Full with origin's item name:
      the connected group a selection of origin matches. */
  ghost function MatchSet(origin: GridPoint): set<GridPoint>
    requires Shape() && origin in Cells() && origin.item != null
    reads this`points, points, Cells()
  {
    set q | q in Cells() && exists path :: IsMatchPath(path, origin, q, origin.item.model.itemName)
  }

  /** The Breakable cells of another name orthogonally next to some cell of
      the match. */
  ghost function Fringe(matched: set<GridPoint>, name: string): set<GridPoint>
    reads this`points, points, Cells()
  {
    set b | b in Cells() && b.BreakableFor(name) && exists p :: p in matched && Adjacent(p, b)
  }

  /** The selected cell belongs to its own match. */
  lemma OriginInMatchSet(origin: GridPoint)
    requires Shape() && origin in Cells() && origin.item != null
    ensures origin in MatchSet(origin)
  {
    assert IsMatchPath([(origin.x, origin.y)], origin, origin, origin.item.model.itemName);
  }

  /** Every other cell of a match is Full with the selected item's name. */
  lemma MatchSetMembers(origin: GridPoint, p: GridPoint)
    requires Shape() && origin in Cells() && origin.item != null
    requires p in MatchSet(origin) && p != origin
    ensures p.FullWith(origin.item.model.itemName)
  {
    var path :| IsMatchPath(path, origin, p, origin.item.model.itemName);
    assert |path| > 1;
    assert path[|path| - 1] == (p.x, p.y);
  }

  /** Every cell of a match holds an item of the selected item's name. */
  lemma MatchSetSameName(origin: GridPoint, p: GridPoint)
    requires Shape() && origin in Cells() && origin.item != null
    requires p in MatchSet(origin)
    ensures p.item != null && p.item.model.itemName == origin.item.model.itemName
  {
    if p != origin {
      MatchSetMembers(origin, p);
    }
  }

  /** A match is closed: every Full cell of the same name next to one of its
      cells is in it too. */
  lemma MatchSetClosed(origin: GridPoint, p: GridPoint, q: GridPoint)
    requires Shape() && origin in Cells() && origin.item != null
    requires p in MatchSet(origin) && q in Cells() && Adjacent(p, q) && q.FullWith(origin.item.model.itemName)
    ensures q in MatchSet(origin)
  {
    var name := origin.item.model.itemName;
    var path :| IsMatchPath(path, origin, p, name);
    assert IsMatchPath(path + [(q.x, q.y)], origin, q, name);
  }

  /** A set that holds origin and is closed under same-name adjacency holds
      the whole match. */
  lemma ClosedSetHoldsMatchSet(origin: GridPoint, s: set<GridPoint>)
    requires Shape() && origin in Cells() && origin.item != null && origin in s
    requires forall p, q :: p in s && q in Cells() && Adjacent(p, q) && q.FullWith(origin.item.model.itemName) ==> q in s
    ensures MatchSet(origin) <= s
  {
    var name := origin.item.model.itemName;
    forall q | q in MatchSet(origin)
      ensures q in s
    {
      var path :| IsMatchPath(path, origin, q, name);
      PathInClosedSet(path, origin, q, name, s);
    }
  }

  lemma {:induction false} PathInClosedSet(path: seq<(int, int)>, origin: GridPoint, target: GridPoint, name: string, s: set<GridPoint>)
    requires Shape() && origin in Cells() && target in Cells()
    requires IsMatchPath(path, origin, target, name) && origin in s
    requires forall p, q :: p in s && q in Cells() && Adjacent(p, q) && q.FullWith(name) ==> q in s
    ensures target in s
    decreases |path|
  {
    if |path| == 1 {
      assert target == points[origin.x, origin.y] == origin;
    } else {
      var prefix := path[..|path| - 1];
      var before := path[|path| - 2];
      assert InGrid(before) by {
        if |path| > 2 {
          assert MatchSteps(prefix, name);
          assert prefix[|prefix| - 1] == before;
        } else {
          assert before == (origin.x, origin.y);
        }
      }
      var prev := points[before.0, before.1];
      assert IsMatchPath(prefix, origin, prev, name);
      PathInClosedSet(prefix, origin, prev, name, s);
      assert target == points[path[|path| - 1].0, path[|path| - 1].1];
    }
  }

  /** Selecting any cell of a match (from a Full origin) yields the same
      match. */
  lemma MatchSetSymmetric(origin: GridPoint, q: GridPoint)
    requires Shape() && origin in Cells() && origin.item != null && origin.state == Full
    requires q in MatchSet(origin)
    ensures q.item != null && q.item.model.itemName == origin.item.model.itemName
    ensures MatchSet(q) == MatchSet(origin)
  {
    var name := origin.item.model.itemName;
    var toQ :| IsMatchPath(toQ, origin, q, name);
    assert q.FullWith(name) by {
      if q != origin {
        MatchSetMembers(origin, q);
      }
    }
    // q reaches everything origin reaches: back along toQ, then forward.
    var back := Reverse(toQ);
    assert IsMatchPath(back, q, origin, name) by {
      MatchStepsAt(toQ, name);
      forall i | 1 <= i < |back|
        ensures InGrid(back[i]) && Neighbouring(back[i - 1], back[i]) && points[back[i].0, back[i].1].FullWith(name)
      {
        assert back[i] == toQ[|toQ| - 1 - i] && back[i - 1] == toQ[|toQ| - i];
        if i == |back| - 1 {
          assert back[i] == (origin.x, origin.y);
        }
      }
      MatchStepsAt(back, name);
    }
    forall r | r in MatchSet(origin)
      ensures r in MatchSet(q)
    {
      var toR :| IsMatchPath(toR, origin, r, name);
      PathsJoin(back, toR, q, origin, r, name);
    }
    forall r | r in MatchSet(q)
      ensures r in MatchSet(origin)
    {
      var fromQ :| IsMatchPath(fromQ, q, r, name);
      PathsJoin(toQ, fromQ, origin, q, r, name);
    }
  }

  /** The cells Full with an item of the given name. */
  ghost function FullCells(name: string): set<GridPoint>
    reads this`points, points, Cells()
  {
    set q | q in Cells() && q.FullWith(name)
  }

  /** The cells Full with a Breakable item of another name. */
  ghost function BreakableCells(name: string): set<GridPoint>
    reads this`points, points, Cells()
  {
    set q | q in Cells() && q.BreakableFor(name)
  }

  /** Every cell of origin's match other than origin is Full with its name. */
  lemma MatchSetInFullCells(origin: GridPoint)
    requires Shape() && origin in Cells() && origin.item != null
    ensures MatchSet(origin) <= FullCells(origin.item.model.itemName) + {origin}
  {
    forall p | p in MatchSet(origin) && p != origin
      ensures p in FullCells(origin.item.model.itemName)
    {
      MatchSetMembers(origin, p);
    }
  }

  /** A set of cells inside origin's match that holds origin and is closed
      under stepping to a neighbour Full with the same name is the match. */
  lemma FloodFillComplete(origin: GridPoint, matched: set<GridPoint>)
    requires Shape() && origin in Cells() && origin.item != null
    requires origin in matched && matched <= MatchSet(origin)
    requires forall p, q :: p in matched && q in FullCells(origin.item.model.itemName) && Adjacent(p, q) ==> q in matched
    ensures matched == MatchSet(origin)
  {
    ClosedSetHoldsMatchSet(origin, matched);
  }

  /** A set of breakables that holds every breakable next to the match, and
      only such cells, is the match's fringe. */
  lemma FringeCollected(matched: set<GridPoint>, breakables: set<GridPoint>, name: string)
    requires forall p, b :: p in matched && b in BreakableCells(name) && Adjacent(p, b) ==> b in breakables
    requires forall b :: b in breakables ==> b in BreakableCells(name) && exists p :: p in matched && Adjacent(p, b)
    ensures breakables == Fringe(matched, name)
  {
  }

  // ---------------------------------------------------------------------
  // Damaging a match and cascading its columns.

  /** The cells a selection of origin damages: its match and the breakable
      cells next to the match. */
  ghost function Targets(origin: GridPoint): (targets: set<GridPoint>)
    requires Shape() && origin in Cells() && origin.item != null
    reads this`points, points, Cells()
    ensures origin in targets && targets <= Cells()
  {
    OriginInMatchSet(origin);
    MatchSet(origin) + Fringe(MatchSet(origin), origin.item.model.itemName)
  }

  /** A selected cell's handler: the flood fill from the cell, and, when its
      match has at least three cells, the damage of the match and its
      breakable fringe and the cascade of their columns. A smaller match
      changes nothing. */
  method HandleGridPointSelection(selectedPoint: GridPoint, chooser: seq<CellView> -> ItemModel)
    requires Valid() && selectedPoint in Cells() && selectedPoint.item != null
    requires NeverObstacle(chooser)
    modifies Cells(), Items()
    ensures Valid()
    ensures |old(MatchSet(selectedPoint))| < 3 ==> unchanged(Cells()) && unchanged(Items())
    ensures |old(MatchSet(selectedPoint))| >= 3 ==>
              forall p :: p in old(Targets(selectedPoint)) && old(p.item) != null ==>
                old(p.item).currHealth == old(p.item.currHealth) - 1
    ensures forall i: Item :: old(allocated(i)) && i !in old(ItemsOf(Targets(selectedPoint))) ==>
              i.currHealth == old(i.currHealth)
    ensures |old(MatchSet(selectedPoint))| >= 3 ==>
              CascadedFrom(old(Grid()), Grid(), old(DestroyedBy(Targets(selectedPoint))), Columns(old(Targets(selectedPoint))))
    ensures |old(MatchSet(selectedPoint))| >= 3 ==>
              forall it <- Arrivals(old(Grid()), Grid(), old(DestroyedBy(Targets(selectedPoint))),
                                    Columns(old(Targets(selectedPoint)))) :: fresh(it)
    ensures |old(MatchSet(selectedPoint))| >= 3 ==> HeldItems(Grid()) !! old(DestroyedBy(Targets(selectedPoint)))
    ensures forall it <- HeldItems(Grid()) :: it in old(HeldItems(Grid())) || fresh(it)
  {
    var matchPoints, breakablePoints := gridOperations.GetMatches(selectedPoint);
    assert unchanged(this, points) && unchanged(Cells()) && unchanged(Items());
    SelectionKept(selectedPoint);
    if |matchPoints| >= 3 {
      ProcessMatchedPoints(matchPoints, breakablePoints, chooser);
    }
  }

  /** Between two states that agree on the grid, its cells and its items (as
      before and after GetMatches, which changes nothing), the grid stays
      valid and the targets of a tap, the columns and the items' health are
      those of the earlier state. */
  twostate lemma SelectionKept(selectedPoint: GridPoint)
    requires old(Valid()) && old(selectedPoint in Cells()) && old(selectedPoint.item) != null
    requires unchanged(this, old(points)) && unchanged(old(Cells())) && unchanged(old(Items()))
    ensures Valid() && Cells() == old(Cells())
    ensures MatchSet(selectedPoint) + Fringe(MatchSet(selectedPoint), selectedPoint.item.model.itemName) == old(Targets(selectedPoint))
    ensures forall c :: 0 <= c < width ==> Column(c) == old(Column(c))
    ensures DestroyedBy(Targets(selectedPoint)) == old(DestroyedBy(Targets(selectedPoint)))
    ensures ItemsOf(Targets(selectedPoint)) == old(ItemsOf(Targets(selectedPoint))) && Grid() == old(Grid())
    ensures forall p :: p in Cells() ==> p.item == old(p.item) && (p.item != null ==> p.item.currHealth == old(p.item.currHealth))
  {
  }

  /** The items of the given cells that one more hit destroys: those at one
      health or less. */
  ghost function DestroyedBy(targets: set<GridPoint>): (gone: set<Item?>)
    requires Shape() && targets <= Cells()
    reads this`points, points, Cells(), Items()
    ensures null !in gone
  {
    set p | p in targets && p.item != null && p.item.currHealth <= 1 :: p.item
  }

  /** The items the given cells hold. */
  ghost function ItemsOf(cells: set<GridPoint>): (items: set<Item?>)
    reads cells
    ensures forall p :: p in cells ==> p.item in items
  {
    set p | p in cells :: p.item
  }

  /** Damages every matched and breakable cell's item once, empties the cells
      whose item that destroys, and then lets the columns of all those cells
      fall and refill. Each column holding such a cell ends refilled from its
      cleared self, with new items above its surviving ones; every other
      column is unchanged; no cell still holds a destroyed item; and no other
      item's health changes. */
  method ProcessMatchedPoints(matchPoints: set<GridPoint>, breakablePoints: set<GridPoint>, chooser: seq<CellView> -> ItemModel)
    requires Valid() && matchPoints + breakablePoints <= Cells()
    requires NeverObstacle(chooser)
    modifies Cells(), Items()
    ensures Valid()
    ensures forall p :: p in matchPoints + breakablePoints && old(p.item) != null ==>
              old(p.item).currHealth == old(p.item.currHealth) - 1
    ensures forall i: Item :: old(allocated(i)) && i !in old(ItemsOf(matchPoints + breakablePoints)) ==>
              i.currHealth == old(i.currHealth)
    ensures CascadedFrom(old(Grid()), Grid(), old(DestroyedBy(matchPoints + breakablePoints)), Columns(matchPoints + breakablePoints))
    ensures forall it <- Arrivals(old(Grid()), Grid(), old(DestroyedBy(matchPoints + breakablePoints)),
                                  Columns(matchPoints + breakablePoints)) :: fresh(it)
    ensures HeldItems(Grid()) !! old(DestroyedBy(matchPoints + breakablePoints))
    ensures forall it <- HeldItems(Grid()) :: it in old(HeldItems(Grid())) || fresh(it)
  {
    var allPoints := matchPoints + breakablePoints;
    var operations := gridOperations;
    ghost var gone := DestroyedBy(allPoints);
    ghost var before := Grid();
    ghost var cols := HitTargets(allPoints);
    label damaged:
    ghost var after, newItems := operations.FillAndFall(allPoints, chooser, cols);
    GridOfReading(after);
    UniqueOfReading(after);
    assert Grid() == after;
    forall p | p in allPoints && old(p.item) != null
      ensures old(p.item).currHealth == old(p.item.currHealth) - 1
    {
      ghost var hit := old(p.item);
      assert hit.currHealth == old@damaged(hit.currHealth);
    }
    forall i: Item | old(allocated(i)) && i !in old(ItemsOf(allPoints))
      ensures i.currHealth == old(i.currHealth)
    {
      assert i.currHealth == old@damaged(i.currHealth);
    }
    assert newItems !! gone by {
      forall it | it in gone
        ensures old@damaged(allocated(it))
      {
      }
    }
    CascadeOutcome(before, cols, after, gone, newItems, Columns(allPoints));
    CascadedItems(before, after, gone, Columns(allPoints));
  }

  /** The first part of ProcessMatchedPoints: damages the item of every
      given cell once and empties the cells whose item that hit destroys.
      The grid then reads as `cols`: each column cleared of the destroyed
      items, so that a column without a given cell is as it was. */
  method HitTargets(allPoints: set<GridPoint>) returns (ghost cols: map<int, seq<Slot>>)
    requires Valid() && allPoints <= Cells()
    modifies allPoints, ItemsOf(allPoints)
    ensures unchanged(this, points)
    ensures (forall c :: c in cols <==> 0 <= c < width) && ReadsAs(cols) && UniqueItems(cols)
    ensures forall c :: 0 <= c < width ==> cols[c] == ClearItems(old(Column(c)), old(DestroyedBy(allPoints)))
    ensures forall c :: 0 <= c < width && c !in Columns(allPoints) ==> cols[c] == old(Column(c))
    ensures forall p :: p in allPoints && old(p.item) != null ==> old(p.item).currHealth == old(p.item.currHealth) - 1
    ensures forall i: Item :: old(allocated(i)) && i !in old(ItemsOf(allPoints)) ==> i.currHealth == old(i.currHealth)
  {
    ghost var gone := DestroyedBy(allPoints);
    ghost var before := Grid();
    ReadsAsGrid();
    ghost var held: map<GridPoint, Item?> := map p | p in allPoints :: p.item;
    ghost var health: map<GridPoint, int> := map p | p in allPoints :: if p.item != null then p.item.currHealth else 0;
    assert forall p :: p in allPoints ==> held[p] == p.item && (p.item != null ==> health[p] == p.item.currHealth);
    DamageTargets(allPoints, held, health, gone, before);
    TargetsApart(allPoints, held);
    GoneOnlyAtTargets(allPoints, gone, before);
    cols := DamageAll(allPoints, before, held, health, gone, ItemsOf(allPoints));
    ClearDone(before, cols, Positions(allPoints), gone);
    PositionsInColumns(allPoints);
    ClearOutside(before, cols, Positions(allPoints), Columns(allPoints), gone);
    ClearKeepsUnique(before, cols, gone);
  }

  /** The loop of ProcessMatchedPoints, over the targets in any order: each
      target cell with an item damages it once and releases it if the hit
      destroys it. The grid, which read as `before`, ends with the target
      cells whose item is in `gone` emptied. */
  method DamageAll(allPoints: set<GridPoint>, ghost before: map<int, seq<Slot>>, ghost held: map<GridPoint, Item?>,
                   ghost health: map<GridPoint, int>, ghost gone: set<Item?>, ghost items: set<Item?>)
    returns (ghost cols: map<int, seq<Slot>>)
    requires Shape() && allPoints <= Cells() && ReadsAs(before) && (forall c :: c in before <==> 0 <= c < width)
    requires forall p :: p in allPoints ==>
               && p in held && p in health && p.x in before && 0 <= p.y < |before[p.x]|
               && held[p] == before[p.x][p.y].item
               && (held[p] != null ==> held[p].currHealth == health[p])
               && (held[p] in gone <==> held[p] != null && health[p] <= 1)
    requires forall p, q :: HeldApart(held, p, q)
    requires forall p :: p in allPoints ==> held[p] in items
    modifies allPoints, items
    ensures unchanged(this, points) && ReadsAs(cols) && ClearedAt(before, cols, Positions(allPoints), gone)
    ensures forall p :: p in allPoints && held[p] != null ==> held[p].currHealth == health[p] - 1
    ensures forall i: Item :: old(allocated(i)) && i !in items ==> i.currHealth == old(i.currHealth)
  {
    cols := before;
    ghost var done: set<(int, int)> := {};
    var remaining := allPoints;
    while remaining != {}
      invariant remaining <= allPoints
      invariant ReadsAs(cols) && ClearedAt(before, cols, done, gone)
      invariant Untouched(allPoints, remaining, done)
      invariant done <= Positions(allPoints)
      invariant forall p :: p in allPoints && held[p] != null ==>
                  held[p].currHealth == health[p] - (if p in remaining then 0 else 1)
      decreases remaining
    {
      var point :| point in remaining;
      ghost var hit := point.item;
      assert hit == held[point] by {
        assert cols[point.x][point.y] == before[point.x][point.y];
      }
      assert forall p :: p in allPoints && p != point ==>
               (p.x, p.y) != (point.x, point.y) && (held[p] != null ==> held[p] != hit) by {
        forall p | p in allPoints && p != point
          ensures (p.x, p.y) != (point.x, point.y) && (held[p] != null ==> held[p] != hit)
        {
          assert HeldApart(held, p, point);
        }
      }
      ghost var cols' := DamagePoint(point, cols, allPoints, held, health, remaining);
      assert ClearedAt(before, cols', done + {(point.x, point.y)}, gone) by {
        ClearStep(before, cols, done, gone, point.x, point.y, cols');
      }
      assert Untouched(allPoints, remaining - {point}, done + {(point.x, point.y)}) by {
        UntouchedStep(allPoints, remaining, done, point);
      }
      cols, done := cols', done + {(point.x, point.y)};
      assert remaining - {point} < remaining;
      remaining := remaining - {point};
    }
    assert done == Positions(allPoints);
  }

  /** What ProcessMatchedPoints knows of its targets before the first hit:
      each holds the item its column lists, at the health it recorded, and
      the destroyed items are those at one health or less. */
  lemma DamageTargets(allPoints: set<GridPoint>, held: map<GridPoint, Item?>, health: map<GridPoint, int>,
                      gone: set<Item?>, before: map<int, seq<Slot>>)
    requires Shape() && allPoints <= Cells()
    requires held == map p | p in allPoints :: p.item
    requires health == map p | p in allPoints :: if p.item != null then p.item.currHealth else 0
    requires gone == DestroyedBy(allPoints) && before == Grid()
    ensures (forall c :: c in before <==> 0 <= c < width)
    ensures forall p :: p in allPoints ==>
              && p in held && p in health && p.x in before && 0 <= p.y < |before[p.x]|
              && held[p] == before[p.x][p.y].item
              && (held[p] != null ==> held[p].currHealth == health[p])
              && (held[p] in gone <==> held[p] != null && health[p] <= 1)
  {
    forall p | p in allPoints
      ensures p.x in before && 0 <= p.y < |before[p.x]| && held[p] == before[p.x][p.y].item
    {
      assert before[p.x] == Column(p.x);
    }
  }

  /** No two targets sit at one position or held the same item. */
  lemma TargetsApart(allPoints: set<GridPoint>, held: map<GridPoint, Item?>)
    requires Shape() && UniqueItems(Grid()) && allPoints <= Cells()
    requires held == map p | p in allPoints :: p.item
    ensures forall p, q :: HeldApart(held, p, q)
  {
    var before := Grid();
    forall p: GridPoint, q: GridPoint
      ensures HeldApart(held, p, q)
    {
      if p in held && q in held && p != q {
        assert DistinctAt(before, p.x, p.y, q.x, q.y);
      }
    }
  }

  /** Every cell holding an item the hits destroy is a target: items are
      unique, so the item marks its target's position. */
  lemma GoneOnlyAtTargets(allPoints: set<GridPoint>, gone: set<Item?>, before: map<int, seq<Slot>>)
    requires Shape() && UniqueItems(Grid()) && allPoints <= Cells()
    requires gone == DestroyedBy(allPoints) && before == Grid()
    ensures forall c, y :: c in before && 0 <= y < |before[c]| && before[c][y].item in gone ==>
              (c, y) in Positions(allPoints)
  {
    forall c, y | c in before && 0 <= y < |before[c]| && before[c][y].item in gone
      ensures (c, y) in Positions(allPoints)
    {
      var p :| p in allPoints && p.item != null && p.item.currHealth <= 1 && p.item == before[c][y].item;
      assert DistinctAt(before, c, y, p.x, p.y);
    }
  }

  /** One turn of ProcessMatchedPoints' loop: a cell with an item damages it
      once, and releases it if the hit destroys it. Of the items that the
      targets `allPoints` held, only this cell's loses health, so the count
      of hits each has taken moves `point` out of `remaining`. */
  method DamagePoint(point: GridPoint, ghost cols: map<int, seq<Slot>>, ghost allPoints: set<GridPoint>,
                     ghost held: map<GridPoint, Item?>, ghost health: map<GridPoint, int>, ghost remaining: set<GridPoint>)
    returns (ghost cols': map<int, seq<Slot>>)
    requires Shape() && point in Cells() && ReadsAs(cols)
    requires point in remaining && remaining <= allPoints
    requires forall p :: p in allPoints ==> p in held && p in health
    requires held[point] == point.item
    requires forall p :: p in allPoints && p != point && held[p] != null ==> held[p] != point.item
    requires forall p :: p in allPoints && held[p] != null ==>
               held[p].currHealth == health[p] - (if p in remaining then 0 else 1)
    modifies point, point.item
    ensures Shape() && ReadsAs(cols')
    ensures old(point.item) != null ==> old(point.item).currHealth == old(point.item.currHealth) - 1
    ensures forall p :: p in allPoints && held[p] != null ==>
              held[p].currHealth == health[p] - (if p in remaining - {point} then 0 else 1)
    ensures cols' == if old(point.item) != null && old(point.item.currHealth) <= 1
                     then cols[point.x := cols[point.x][point.y := Slot(Empty, null)]] else cols
  {
    cols' := cols;
    if point.item != null {
      var destroyed := point.item.Damaged();
      if destroyed {
        point.RemoveItem();
        cols' := cols[point.x := cols[point.x][point.y := Slot(Empty, null)]];
      }
      forall c, y | 0 <= c < width && 0 <= y < height
        ensures points[c, y].Snapshot() == cols'[c][y] && points[c, y].Valid()
      {
        if c != point.x || y != point.y {
          assert points[c, y] != point;
        }
      }
    }
  }

  lemma PathsJoin(first: seq<(int, int)>, second: seq<(int, int)>, a: GridPoint, b: GridPoint, c: GridPoint, name: string)
    requires Shape()
    requires IsMatchPath(first, a, b, name) && IsMatchPath(second, b, c, name)
    ensures IsMatchPath(first + second[1..], a, c, name)
  {
    var joined := first + second[1..];
    MatchStepsAt(first, name);
    MatchStepsAt(second, name);
    forall i | 1 <= i < |joined|
      ensures InGrid(joined[i]) && Neighbouring(joined[i - 1], joined[i]) && points[joined[i].0, joined[i].1].FullWith(name)
    {
      if i >= |first| {
        assert joined[i] == second[i - |first| + 1];
        assert joined[i - 1] == second[i - |first|];
      }
    }
    MatchStepsAt(joined, name);
  }
}

/** Whether (x', y') comes before (x, y) when a grid is built row by row,
    bottom row first, left to right within a row. */
predicate BuiltBefore(x': int, y': int, x: int, y: int)
{
  y' < y || (y' == y && x' < x)
}

/** InitializeGridPoints: for each row from the bottom, for each column from
    the left, a new cell at that position with a new item made from the
    model of the position's id. The ghost map `owner` names the one cell of
    each item. */
method InitializeGridPoints(columnCount: nat, rowCount: nat, levelGridInfo: (int, int) -> int, getModel: int -> ItemModel)
  returns (grid: array2<GridPoint?>, ghost owner: map<Item, (int, int)>)
  ensures fresh(grid) && grid.Length0 == columnCount && grid.Length1 == rowCount
  ensures forall x, y :: 0 <= x < columnCount && 0 <= y < rowCount ==>
            && grid[x, y] != null && fresh(grid[x, y]) && grid[x, y].x == x && grid[x, y].y == y
            && grid[x, y].Valid() && grid[x, y].CreatedFrom(getModel(levelGridInfo(x, y))) && fresh(grid[x, y].item)
            && grid[x, y].item in owner && owner[grid[x, y].item] == (x, y)
{
  grid := new GridPoint?[columnCount, rowCount]((x, y) => null);
  owner := map[];
  for y := 0 to rowCount
    invariant forall i, j :: 0 <= i < columnCount && 0 <= j < rowCount ==>
                if j < y then
                  && grid[i, j] != null && fresh(grid[i, j]) && grid[i, j].x == i && grid[i, j].y == j
                  && grid[i, j].Valid() && grid[i, j].CreatedFrom(getModel(levelGridInfo(i, j))) && fresh(grid[i, j].item)
                  && grid[i, j].item in owner && owner[grid[i, j].item] == (i, j)
                else grid[i, j] == null
  {
    for x := 0 to columnCount
      invariant forall i, j :: 0 <= i < columnCount && 0 <= j < rowCount ==>
                  if BuiltBefore(i, j, x, y) then
                    && grid[i, j] != null && fresh(grid[i, j]) && grid[i, j].x == i && grid[i, j].y == j
                    && grid[i, j].Valid() && grid[i, j].CreatedFrom(getModel(levelGridInfo(i, j))) && fresh(grid[i, j].item)
                    && grid[i, j].item in owner && owner[grid[i, j].item] == (i, j)
                  else grid[i, j] == null
    {
      var newPoint := new GridPoint.SetPoint(x, y, getModel(levelGridInfo(x, y)));
      grid[x, y] := newPoint;
      owner := owner[newPoint.item := (x, y)];
    }
  }
}

/** The sequence in reverse order. */
function Reverse<T>(s: seq<T>): (r: seq<T>)
  ensures |r| == |s|
  ensures forall i :: 0 <= i < |s| ==> r[i] == s[|s| - 1 - i]
{
  if s == [] then [] else Reverse(s[1..]) + [s[0]]
}

/** The grid `before` with the cells at the positions in `done` whose item is
    in `gone` emptied, every other cell as it was. */
ghost predicate ClearedAt(before: map<int, seq<Slot>>, cols: map<int, seq<Slot>>, done: set<(int, int)>, gone: set<Item?>)
{
  && cols.Keys == before.Keys
  && forall c :: c in before ==>
       |cols[c]| == |before[c]| &&
       forall y :: 0 <= y < |before[c]| ==>
         cols[c][y] == if (c, y) in done && before[c][y].item in gone then Slot(Empty, null) else before[c][y]
}

lemma ClearStep(before: map<int, seq<Slot>>, cols: map<int, seq<Slot>>, done: set<(int, int)>, gone: set<Item?>,
                x: int, y: int, cols': map<int, seq<Slot>>)
  requires ClearedAt(before, cols, done, gone) && (x, y) !in done && x in before && 0 <= y < |before[x]|
  requires cols' == if before[x][y].item in gone then cols[x := cols[x][y := Slot(Empty, null)]] else cols
  ensures ClearedAt(before, cols', done + {(x, y)}, gone)
{
}

/** Two different cells of `held` sit at different positions and did not
    hold the same item. */
ghost predicate HeldApart(held: map<GridPoint, Item?>, p: GridPoint, q: GridPoint)
{
  p in held && q in held && p != q ==> (p.x, p.y) != (q.x, q.y) && (held[p] != null ==> held[p] != held[q])
}

/** The cells of `cells` not yet visited are those whose position is not
    yet done. */
ghost predicate Untouched(cells: set<GridPoint>, remaining: set<GridPoint>, done: set<(int, int)>)
{
  forall p :: p in cells ==> (p in remaining <==> (p.x, p.y) !in done)
}

lemma UntouchedStep(cells: set<GridPoint>, remaining: set<GridPoint>, done: set<(int, int)>, point: GridPoint)
  requires Untouched(cells, remaining, done) && point in remaining && remaining <= cells
  requires forall p :: p in cells && p != point ==> (p.x, p.y) != (point.x, point.y)
  ensures Untouched(cells, remaining - {point}, done + {(point.x, point.y)})
{
}

/** The grid positions of the given cells. */
function Positions(cells: set<GridPoint>): set<(int, int)>
{
  set p | p in cells :: (p.x, p.y)
}

/** Once every position holding an item of `gone` is done, each column is
    its `before` self with the items of `gone` cleared. */
lemma ClearDone(before: map<int, seq<Slot>>, cols: map<int, seq<Slot>>, done: set<(int, int)>, gone: set<Item?>)
  requires ClearedAt(before, cols, done, gone)
  requires forall c, y :: c in before && 0 <= y < |before[c]| && before[c][y].item in gone ==> (c, y) in done
  ensures forall c :: c in before ==> cols[c] == ClearItems(before[c], gone)
{
  forall c | c in before
    ensures cols[c] == ClearItems(before[c], gone)
  {
  }
}

/** Each position of the given cells lies in one of their columns. */
lemma PositionsInColumns(cells: set<GridPoint>)
  ensures forall c, y :: (c, y) in Positions(cells) ==> c in Columns(cells)
{
  forall c, y | (c, y) in Positions(cells) ensures c in Columns(cells) {
    var p :| p in cells && (p.x, p.y) == (c, y);
  }
}

/** Clearing items that only sit in the given columns leaves every other
    column as it was. */
lemma ClearOutside(before: map<int, seq<Slot>>, cols: map<int, seq<Slot>>, positions: set<(int, int)>,
                   columns: set<int>, gone: set<Item?>)
  requires forall c :: c in before ==> c in cols && cols[c] == ClearItems(before[c], gone)
  requires forall c, y :: c in before && 0 <= y < |before[c]| && before[c][y].item in gone ==> (c, y) in positions
  requires forall c, y :: (c, y) in positions ==> c in columns
  ensures forall c :: c in before && c !in columns ==> cols[c] == before[c]
{
}
