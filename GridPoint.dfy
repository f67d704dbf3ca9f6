// A cell of the grid: a fixed position, a state and the item it owns.

/** The states a cell can be in. `Breakable` exists in the source's enum but
    no code ever assigns it. */
datatype GridPointState = Empty | Full | Obstacle | Breakable

class GridPoint {
  // The grid position has a private setter assigned only by SetPoint.
  const x: int
  const y: int
  var state: GridPointState
  var item: Item?

  /** A cell holds an item exactly when it is not Empty, and it is never in
      the unused Breakable state. */
  ghost predicate Valid()
    reads this
  {
    !state.Breakable? && (state == Empty <==> item == null)
  }

  /** Full with an item of the given name: a cell the flood fill joins to a
      match of that name. */
  predicate FullWith(name: string)
    reads this
  {
    state == Full && item != null && item.model.itemName == name
  }

  /** Full with a Breakable item of another name: a cell a match of that name
      damages without spreading through it. */
  predicate BreakableFor(name: string)
    reads this
  {
    state == Full && item != null && item.model.itemName != name && item.model.itemType.Breakable?
  }

  /** The cell's state and item as a value. */
  function Snapshot(): Slot
    reads this
  {
    Slot(state, item)
  }

  /** The cell as CreateItem leaves it for the given model. */
  ghost predicate CreatedFrom(itemModel: ItemModel)
    reads this, item
  {
    && item != null && item.model == itemModel
    && item.maxHealth == itemModel.itemHealth && item.currHealth == item.maxHealth
    && (state.Full? <==> itemModel.itemType.Color? || itemModel.itemType.Breakable?)
    && (state.Obstacle? <==> itemModel.itemType.Obstacle?)
  }

  /** Instantiating a cell and calling SetPoint on it: the position is fixed
      and the cell's first item is created from the level's model. */
  constructor SetPoint(gridX: int, gridY: int, itemModel: ItemModel)
    ensures x == gridX && y == gridY
    ensures Valid() && CreatedFrom(itemModel) && fresh(item)
  {
    x, y := gridX, gridY;
    state, item := Empty, null;
    new;
    CreateItem(itemModel);
  }

  /** Creates a new item from the model. Color and Breakable items make the
      cell Full, an Obstacle item makes it an Obstacle; either way the cell
      owns the new item. */
  method CreateItem(itemModel: ItemModel)
    modifies this
    ensures Valid() && CreatedFrom(itemModel) && fresh(item)
  {
    item := new Item.SetItem(itemModel);
    if itemModel.itemType.Color? || itemModel.itemType.Breakable? {
      state := Full;
    } else if itemModel.itemType.Obstacle? {
      state := GridPointState.Obstacle;
    }
  }

  /** Releases the item: the cell becomes Empty. */
  method RemoveItem()
    modifies this
    ensures item == null && state == Empty && Valid()
  {
    item := null;
    state := Empty;
  }

  /** Takes over an item moved from another cell: the cell becomes Full,
      whatever it was before. */
  method AddNewItem(newItem: Item)
    modifies this
    ensures item == newItem && state == Full && Valid()
  {
    item := newItem;
    state := Full;
  }
}

/** Orthogonally neighbouring positions: one step left, right, up or down. */
predicate Neighbouring(a: (int, int), b: (int, int))
{
  (a.0 == b.0 && (a.1 - b.1 == 1 || b.1 - a.1 == 1)) ||
  (a.1 == b.1 && (a.0 - b.0 == 1 || b.0 - a.0 == 1))
}

/** Cells at orthogonally neighbouring positions. */
predicate Adjacent(p: GridPoint, q: GridPoint)
{
  Neighbouring((p.x, p.y), (q.x, q.y))
}
