// The player's tap: the filter that decides whether a tapped cell starts a
// match, and the GRID_POINT_SELECTED action that hands it to the grid.

/** The tap filter: a Full cell holding a Color item. */
predicate Selectable(gridPoint: GridPoint)
  reads gridPoint
{
  gridPoint.state == Full && gridPoint.item != null && gridPoint.item.model.itemType.Color?
}

/** A tap on a cell selects it only when the cell is Full with a Color item;
    the selection is then handled by the grid (the action manager routes the
    GRID_POINT_SELECTED action to GridController.HandleGridPointSelection).
    Taps on Empty, Obstacle and Breakable-item cells change nothing, and so
    do taps whose match has fewer than three cells; otherwise the grid
    cascades as HandleGridPointSelection states. */
method ProcessGridPointSelection(grid: GridController, gridPoint: GridPoint, chooser: seq<CellView> -> ItemModel)
  requires grid.Valid() && gridPoint in grid.Cells()
  requires NeverObstacle(chooser)
  modifies grid.Cells(), grid.Items()
  ensures grid.Valid()
  ensures !old(Selectable(gridPoint)) ==> unchanged(grid.Cells()) && unchanged(grid.Items())
  ensures old(Selectable(gridPoint)) && |old(grid.MatchSet(gridPoint))| < 3 ==>
            unchanged(grid.Cells()) && unchanged(grid.Items())
  ensures old(Selectable(gridPoint)) && |old(grid.MatchSet(gridPoint))| >= 3 ==>
            forall p :: p in old(grid.Targets(gridPoint)) && old(p.item) != null ==>
              old(p.item).currHealth == old(p.item.currHealth) - 1
  ensures old(Selectable(gridPoint)) ==>
            forall i: Item :: old(allocated(i)) && i !in old(grid.ItemsOf(grid.Targets(gridPoint))) ==>
              i.currHealth == old(i.currHealth)
  ensures old(Selectable(gridPoint)) && |old(grid.MatchSet(gridPoint))| >= 3 ==>
            CascadedFrom(old(grid.Grid()), grid.Grid(), old(grid.DestroyedBy(grid.Targets(gridPoint))),
                         Columns(old(grid.Targets(gridPoint))))
  ensures old(Selectable(gridPoint)) && |old(grid.MatchSet(gridPoint))| >= 3 ==>
            forall it <- Arrivals(old(grid.Grid()), grid.Grid(), old(grid.DestroyedBy(grid.Targets(gridPoint))),
                                  Columns(old(grid.Targets(gridPoint)))) :: fresh(it)
  ensures old(Selectable(gridPoint)) && |old(grid.MatchSet(gridPoint))| >= 3 ==>
            HeldItems(grid.Grid()) !! old(grid.DestroyedBy(grid.Targets(gridPoint)))
  ensures forall it <- HeldItems(grid.Grid()) :: it in old(HeldItems(grid.Grid())) || fresh(it)
{
  if Selectable(gridPoint) {
    grid.HandleGridPointSelection(gridPoint, chooser);
  }
}
