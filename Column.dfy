// A value-level view of one column of the grid, bottom row first, and the
// properties that falling and filling a column are specified by.

/** A snapshot of one cell: its state and the item it holds. */
datatype Slot = Slot(state: GridPointState, item: Item?)

/** A cell that falling and filling never touch: neither Empty nor Full (in a
    valid grid, an Obstacle). */
predicate IsFixed(s: Slot)
{
  s.state != Empty && s.state != Full
}

/** The items held by the Full cells of a column, bottom to top. */
function FullItems(col: seq<Slot>): (items: seq<Item?>)
  ensures |items| <= |col|
{
  if col == [] then []
  else (if col[0].state == Full then [col[0].item] else []) + FullItems(col[1..])
}

/** No Empty cell lies below a Full cell. */
ghost predicate Settled(col: seq<Slot>)
{
  forall i, j :: 0 <= i < j < |col| && col[j].state == Full ==> col[i].state != Empty
}

/** The fixed cells of the two columns are the same cells with the same
    contents. */
ghost predicate KeepsObstacles(col: seq<Slot>, col': seq<Slot>)
{
  |col'| == |col| &&
  forall i :: 0 <= i < |col| && (IsFixed(col[i]) || IsFixed(col'[i])) ==> col'[i] == col[i]
}

/** What filling does to a column: each Empty cell becomes Full with an item,
    every other cell stays as it was. */
ghost predicate FillsEmpty(col: seq<Slot>, col': seq<Slot>)
{
  |col'| == |col| &&
  forall i :: 0 <= i < |col| ==>
    if col[i].state == Empty then col'[i].state == Full && col'[i].item != null
    else col'[i] == col[i]
}

/** The state of a fill that has passed the cells below row y: those that
    were Empty are Full with an item, every other cell is as it was. */
ghost predicate FillingFrom(col0: seq<Slot>, col: seq<Slot>, y: int)
{
  |col| == |col0| &&
  forall i :: 0 <= i < |col0| ==>
    if i < y && col0[i].state == Empty then col[i].state == Full && col[i].item != null
    else col[i] == col0[i]
}

/** The items that filling put into the column. */
ghost function FilledItems(col: seq<Slot>, col': seq<Slot>): set<Item?>
{
  set i | 0 <= i < |col| && i < |col'| && col[i].state == Empty :: col'[i].item
}

/** What a fall followed by a fill makes of a column: no Empty cell is left,
    the obstacles are untouched, and the items the column held are still at
    its bottom, in their order. */
ghost predicate Refilled(col: seq<Slot>, col': seq<Slot>)
{
  && KeepsObstacles(col, col')
  && (forall i :: 0 <= i < |col'| ==> col'[i].state != Empty)
  && FullItems(col) <= FullItems(col')
}

/** The cells at (c, y) and (c', y') of a grid given as its columns, when
    both exist and are two cells, do not hold the same item. */
ghost predicate DistinctAt(cols: map<int, seq<Slot>>, c: int, y: int, c': int, y': int)
{
  c in cols && c' in cols && 0 <= y < |cols[c]| && 0 <= y' < |cols[c']| && (c, y) != (c', y') && cols[c][y].item != null ==>
    cols[c][y].item != cols[c'][y'].item
}

/** No item is held by two cells of the grid. */
ghost predicate UniqueItems(cols: map<int, seq<Slot>>)
{
  forall c, y, c', y' :: DistinctAt(cols, c, y, c', y')
}

/** The column with every cell whose item is in `gone` emptied. */
ghost function ClearItems(col: seq<Slot>, gone: set<Item?>): seq<Slot>
{
  seq(|col|, i requires 0 <= i < |col| => if col[i].item in gone then Slot(Empty, null) else col[i])
}

/** The items not in `gone`, in their order. */
ghost function Without(items: seq<Item?>, gone: set<Item?>): seq<Item?>
{
  if items == [] then []
  else (if items[0] in gone then [] else [items[0]]) + Without(items[1..], gone)
}

lemma {:induction false} FullItemsConcat(a: seq<Slot>, b: seq<Slot>)
  ensures FullItems(a + b) == FullItems(a) + FullItems(b)
{
  if a != [] {
    assert (a + b)[1..] == a[1..] + b;
    FullItemsConcat(a[1..], b);
  } else {
    assert a + b == b;
  }
}

lemma {:induction false} NoFullNoItems(col: seq<Slot>)
  requires forall i :: 0 <= i < |col| ==> col[i].state != Full
  ensures FullItems(col) == []
{
  if col != [] {
    NoFullNoItems(col[1..]);
  }
}

/** Every item listed by FullItems is held by a Full cell of the column. */
lemma {:induction false} FullItemsHeld(col: seq<Slot>, k: nat)
  requires k < |FullItems(col)|
  ensures exists i :: 0 <= i < |col| && col[i].state == Full && col[i].item == FullItems(col)[k]
{
  if col[0].state == Full {
    if k > 0 {
      FullItemsHeld(col[1..], k - 1);
      var i :| 0 <= i < |col[1..]| && col[1..][i].state == Full && col[1..][i].item == FullItems(col[1..])[k - 1];
      assert col[i + 1] == col[1..][i];
    } else {
      assert col[0].item == FullItems(col)[0];
    }
  } else {
    FullItemsHeld(col[1..], k);
    var i :| 0 <= i < |col[1..]| && col[1..][i].state == Full && col[1..][i].item == FullItems(col[1..])[k];
    assert col[i + 1] == col[1..][i];
  }
}

/** A block of cells none of which is Full, between two single cells,
    contributes only the items of those two cells. */
lemma BlockItems(first: Slot, b: seq<Slot>, last: Slot)
  requires forall i :: 0 <= i < |b| ==> b[i].state != Full
  ensures FullItems([first] + b + [last]) == FullItems([first]) + FullItems([last])
{
  NoFullNoItems(b);
  FullItemsConcat([first] + b, [last]);
  FullItemsConcat([first], b);
}

/** One step of the fall: moving the lowest Full cell above an Empty cell
    down into it, past cells that are not Full, keeps the column's items in
    their order. */
lemma MoveDownKeepsItems(col: seq<Slot>, y: nat, s: nat)
  requires y < s < |col| && col[y].state == Empty && col[s].state == Full
  requires forall k :: y < k < s ==> col[k].state != Full
  ensures FullItems(col[y := Slot(Full, col[s].item)][s := Slot(Empty, null)]) == FullItems(col)
{
  var moved := col[y := Slot(Full, col[s].item)][s := Slot(Empty, null)];
  var a, b, c := col[..y], col[y + 1..s], col[s + 1..];
  assert forall i :: 0 <= i < |b| ==> b[i] == col[y + 1 + i];
  var mid, mid' := [col[y]] + b + [col[s]], [Slot(Full, col[s].item)] + b + [Slot(Empty, null)];
  assert col == a + mid + c;
  assert moved == a + mid' + c by {
    var r := a + mid' + c;
    forall i | 0 <= i < |col|
      ensures moved[i] == r[i]
    {
      if i < y {
        assert r[i] == a[i];
      } else if i <= s {
        assert r[i] == mid'[i - y];
      } else {
        assert r[i] == c[i - s - 1];
      }
    }
  }
  assert FullItems(mid) == FullItems(mid') by {
    BlockItems(col[y], b, col[s]);
    BlockItems(Slot(Full, col[s].item), b, Slot(Empty, null));
  }
  ThreeParts(a, mid, c);
  ThreeParts(a, mid', c);
}

lemma ThreeParts(a: seq<Slot>, b: seq<Slot>, c: seq<Slot>)
  ensures FullItems(a + b + c) == FullItems(a) + FullItems(b) + FullItems(c)
{
  FullItemsConcat(a + b, c);
  FullItemsConcat(a, b);
}

/** The state of a fall that has passed the cells below row y: the items and
    obstacles of col0 are kept, and no cell below y is Empty under a Full
    one. */
ghost predicate FallingFrom(col0: seq<Slot>, col: seq<Slot>, y: int)
{
  && FullItems(col) == FullItems(col0) && KeepsObstacles(col0, col)
  && forall i, j :: 0 <= i < y && i < j < |col| && col[j].state == Full ==> col[i].state != Empty
}

/** What a finished fall makes of a column: the same items in the same order,
    the same obstacles, and no Empty cell below a Full one. */
ghost predicate Fallen(col: seq<Slot>, col': seq<Slot>)
{
  FullItems(col') == FullItems(col) && KeepsObstacles(col, col') && Settled(col')
}

/** Passing row y: a cell that is not Empty, or that has no Full cell above
    it, is left alone; otherwise the lowest Full cell above moves down into
    it. Either way the fall has passed row y. */
lemma FallPastRow(col0: seq<Slot>, col: seq<Slot>, y: nat, s: int)
  requires FallingFrom(col0, col, y) && y < |col|
  requires col[y].state == Empty && y < s < |col| && col[s].state == Full
  requires forall k :: y < k < s ==> col[k].state != Full
  ensures FallingFrom(col0, col[y := Slot(Full, col[s].item)][s := Slot(Empty, null)], y + 1)
{
  MoveDownKeepsItems(col, y, s);
}

/** A row that is not Empty, or has no Full cell above it, needs no move. */
lemma FallSkipsRow(col0: seq<Slot>, col: seq<Slot>, y: nat)
  requires FallingFrom(col0, col, y) && y < |col|
  requires col[y].state != Empty || forall k :: y < k < |col| ==> col[k].state != Full
  ensures FallingFrom(col0, col, y + 1)
{
}

/** The row of the lowest Full cell at or above row `from`, skipping every
    cell that is not Full; |col| when there is none. */
function FirstFullFrom(col: seq<Slot>, from: nat): (s: nat)
  requires from <= |col|
  ensures from <= s <= |col|
  ensures s < |col| ==> col[s].state == Full
  ensures forall k :: from <= k < s ==> col[k].state != Full
  decreases |col| - from
{
  if from == |col| then |col|
  else if col[from].state == Full then from
  else FirstFullFrom(col, from + 1)
}

/** One turn of a column's fall at row y: an Empty cell takes the item of
    the lowest Full cell above it, which becomes Empty; a cell that is not
    Empty, or has no Full cell above it, changes nothing. */
ghost function FallStep(col: seq<Slot>, y: nat): seq<Slot>
  requires y < |col|
{
  var s := FirstFullFrom(col, y + 1);
  if col[y].state == Empty && s < |col| then col[y := Slot(Full, col[s].item)][s := Slot(Empty, null)]
  else col
}

/** A fall step at row y carries the fall past row y: it keeps the
    column's items in their order and its obstacles, and leaves no Empty
    cell at or below y under a Full one. */
lemma FallStepPasses(col0: seq<Slot>, col: seq<Slot>, y: nat)
  requires FallingFrom(col0, col, y) && y < |col|
  ensures FallingFrom(col0, FallStep(col, y), y + 1)
{
  var s := FirstFullFrom(col, y + 1);
  if col[y].state == Empty && s < |col| {
    FallPastRow(col0, col, y, s);
  } else {
    FallSkipsRow(col0, col, y);
  }
}

/** Filling a settled column leaves its items at the bottom, in order, and
    everything above them is an item the fill put there. */
lemma {:induction false} FillAfterSettle(col: seq<Slot>, col': seq<Slot>)
  requires Settled(col) && FillsEmpty(col, col')
  ensures FullItems(col) <= FullItems(col')
  ensures forall k :: |FullItems(col)| <= k < |FullItems(col')| ==> FullItems(col')[k] in FilledItems(col, col')
{
  if col == [] {
    return;
  }
  if col[0].state == Empty {
    NoFullNoItems(col);
    forall k | 0 <= k < |FullItems(col')|
      ensures FullItems(col')[k] in FilledItems(col, col')
    {
      FullItemsHeld(col', k);
      var i :| 0 <= i < |col'| && col'[i].state == Full && col'[i].item == FullItems(col')[k];
      assert col[i].state == Empty;
    }
  } else {
    assert Settled(col[1..]) && FillsEmpty(col[1..], col'[1..]);
    FillAfterSettle(col[1..], col'[1..]);
    FilledItemsTail(col, col');
    var head := if col[0].state == Full then [col[0].item] else [];
    assert FullItems(col) == head + FullItems(col[1..]);
    assert FullItems(col') == head + FullItems(col'[1..]);
  }
}

/** A cell that filling leaves alone adds no filled item: the items filled
    into the rest of the column are all those filled into the column. */
lemma FilledItemsTail(col: seq<Slot>, col': seq<Slot>)
  requires col != [] && col[0].state != Empty && FillsEmpty(col, col')
  ensures col'[0] == col[0]
  ensures FilledItems(col[1..], col'[1..]) == FilledItems(col, col')
{
  forall it | it in FilledItems(col[1..], col'[1..])
    ensures it in FilledItems(col, col')
  {
    var i :| 0 <= i < |col[1..]| && i < |col'[1..]| && col[1..][i].state == Empty && col'[1..][i].item == it;
    assert col[i + 1].state == Empty && col'[i + 1].item == it;
  }
  forall it | it in FilledItems(col, col')
    ensures it in FilledItems(col[1..], col'[1..])
  {
    var i :| 0 <= i < |col| && i < |col'| && col[i].state == Empty && col'[i].item == it;
    assert col[1..][i - 1].state == Empty && col'[1..][i - 1].item == it;
  }
}

/** A fall followed by a fill refills the column: no cell is left Empty,
    the obstacles are untouched, the column's items are still at its bottom
    in their order, and every item above them is one the fill put there. */
lemma FallThenFill(col: seq<Slot>, fallen: seq<Slot>, filled: seq<Slot>)
  requires FullItems(fallen) == FullItems(col) && KeepsObstacles(col, fallen) && Settled(fallen)
  requires FillsEmpty(fallen, filled)
  ensures Refilled(col, filled)
  ensures forall k :: |FullItems(col)| <= k < |FullItems(filled)| ==> FullItems(filled)[k] in FilledItems(fallen, filled)
{
  FillAfterSettle(fallen, filled);
  forall i | 0 <= i < |col| && (IsFixed(col[i]) || IsFixed(filled[i]))
    ensures filled[i] == col[i]
  {
    if IsFixed(col[i]) {
      assert fallen[i] == col[i];
    } else {
      assert filled[i] == fallen[i];
    }
  }
}

/** Emptying the cells that hold items of `gone` removes exactly those items
    from the column's list, keeping the order of the rest. */
lemma {:induction false} ClearItemsFullItems(col: seq<Slot>, gone: set<Item?>)
  requires null !in gone
  ensures FullItems(ClearItems(col, gone)) == Without(FullItems(col), gone)
{
  if col != [] {
    var cleared := ClearItems(col, gone);
    assert cleared[1..] == ClearItems(col[1..], gone);
    ClearItemsFullItems(col[1..], gone);
    var rest := FullItems(col[1..]);
    if col[0].state == Full {
      assert FullItems(col) == [col[0].item] + rest;
      assert ([col[0].item] + rest)[1..] == rest;
      assert Without(FullItems(col), gone) == (if col[0].item in gone then [] else [col[0].item]) + Without(rest, gone);
    } else {
      assert FullItems(col) == rest;
    }
    if col[0].item in gone {
      assert cleared[0] == Slot(Empty, null);
    } else {
      assert cleared[0] == col[0];
    }
    assert FullItems(cleared) == (if cleared[0].state == Full then [cleared[0].item] else []) + FullItems(cleared[1..]);
  }
}

/** A column cleared of the items in `gone` and then refilled holds the
    items that survived, in their order, at its bottom. */
lemma SurvivorsAtBottom(col: seq<Slot>, gone: set<Item?>, col': seq<Slot>)
  requires null !in gone && Refilled(ClearItems(col, gone), col')
  ensures Without(FullItems(col), gone) <= FullItems(col')
{
  ClearItemsFullItems(col, gone);
}

/** The item of a Full cell is in the column's list of items. */
lemma {:induction false} FullItemListed(col: seq<Slot>, i: nat)
  requires i < |col| && col[i].state == Full
  ensures col[i].item in FullItems(col)
{
  if i > 0 {
    FullItemListed(col[1..], i - 1);
    assert col[1..][i - 1] == col[i];
  }
}

/** A column cleared of the items in `gone` and then refilled, every item
    above the survivors being one of `newItems` and none of those in `gone`,
    holds no item of `gone` in any cell. */
lemma NoneReturns(col: seq<Slot>, gone: set<Item?>, col': seq<Slot>, newItems: set<Item?>)
  requires null !in gone && newItems !! gone
  requires Refilled(ClearItems(col, gone), col')
  requires forall k :: |FullItems(ClearItems(col, gone))| <= k < |FullItems(col')| ==> FullItems(col')[k] in newItems
  ensures forall y :: 0 <= y < |col'| ==> col'[y].item !in gone
{
  var cleared := ClearItems(col, gone);
  forall y | 0 <= y < |col'|
    ensures col'[y].item !in gone
  {
    if col'[y].state == Full {
      FullItemListed(col', y);
      var k :| 0 <= k < |FullItems(col')| && FullItems(col')[k] == col'[y].item;
      if k < |FullItems(cleared)| {
        assert FullItems(col')[k] == FullItems(cleared)[k];
        FullItemsHeld(cleared, k);
      }
    } else {
      assert col'[y] == cleared[y];
    }
  }
}

/** What a match does to a grid, given as its columns: each column in
    `columns` ends refilled from itself cleared of the items of `gone`; every
    other column is as it was. */
ghost predicate CascadedFrom(before: map<int, seq<Slot>>, after: map<int, seq<Slot>>, gone: set<Item?>, columns: set<int>)
{
  && after.Keys == before.Keys
  && forall c :: c in before ==>
       if c in columns then Refilled(ClearItems(before[c], gone), after[c]) else after[c] == before[c]
}

/** The items that a cascade put above the surviving items of the columns
    in `columns`. */
ghost function Arrivals(before: map<int, seq<Slot>>, after: map<int, seq<Slot>>, gone: set<Item?>, columns: set<int>): set<Item?>
{
  set c, k | c in before && c in columns && c in after && |FullItems(ClearItems(before[c], gone))| <= k < |FullItems(after[c])|
    :: FullItems(after[c])[k]
}

/** The items held by the cells of a grid given as its columns. */
ghost function HeldItems(cols: map<int, seq<Slot>>): set<Item?>
{
  set c, y | c in cols && 0 <= y < |cols[c]| :: cols[c][y].item
}

/** The grid, as it reads before a match (`before`), after its targets are
    cleared of the items in `gone` (`cols`), and after the cascade
    (`after`): the grid has cascaded from `before`, every item above the
    survivors is one of `newItems`, and, as none of those is in `gone`, no
    cell holds an item of `gone`. */
lemma CascadeOutcome(before: map<int, seq<Slot>>, cols: map<int, seq<Slot>>, after: map<int, seq<Slot>>,
                     gone: set<Item?>, newItems: set<Item?>, columns: set<int>)
  requires null !in gone && newItems !! gone
  requires after.Keys == cols.Keys == before.Keys
  requires forall c :: c in before ==> cols[c] == ClearItems(before[c], gone)
  requires forall c :: c in before && c !in columns ==> cols[c] == before[c]
  requires forall c :: c in cols ==> if c in columns then Refilled(cols[c], after[c]) else after[c] == cols[c]
  requires forall c, k :: c in cols && c in columns && |FullItems(cols[c])| <= k < |FullItems(after[c])| ==>
             FullItems(after[c])[k] in newItems
  ensures CascadedFrom(before, after, gone, columns)
  ensures Arrivals(before, after, gone, columns) <= newItems
  ensures HeldItems(after) !! gone
{
  forall it | it in HeldItems(after)
    ensures it !in gone
  {
    var c, y :| c in after && 0 <= y < |after[c]| && after[c][y].item == it;
    if c in columns {
      NoneReturns(before[c], gone, after[c], newItems);
    }
  }
}

/** After a cascade, every item a cell holds was held before, or is one
    that the cascade put above the survivors. */
lemma CascadedItems(before: map<int, seq<Slot>>, after: map<int, seq<Slot>>, gone: set<Item?>, columns: set<int>)
  requires CascadedFrom(before, after, gone, columns)
  ensures forall it :: it in HeldItems(after) ==> it in HeldItems(before) || it in Arrivals(before, after, gone, columns)
{
  forall it | it in HeldItems(after)
    ensures it in HeldItems(before) || it in Arrivals(before, after, gone, columns)
  {
    var c, y :| c in after && 0 <= y < |after[c]| && after[c][y].item == it;
    var cleared := ClearItems(before[c], gone);
    if c !in columns {
      assert before[c][y].item == it;
    } else if after[c][y].state == Full {
      FullItemListed(after[c], y);
      var k :| 0 <= k < |FullItems(after[c])| && FullItems(after[c])[k] == it;
      if k < |FullItems(cleared)| {
        FullItemsHeld(cleared, k);
        var i :| 0 <= i < |cleared| && cleared[i].state == Full && cleared[i].item == FullItems(cleared)[k];
        assert before[c][i].item == it;
      }
    } else {
      assert after[c][y] == cleared[y] == before[c][y];
    }
  }
}

/** Emptying the cells that hold items of `gone` keeps the grid's items
    distinct. */
lemma ClearKeepsUnique(cols: map<int, seq<Slot>>, cleared: map<int, seq<Slot>>, gone: set<Item?>)
  requires UniqueItems(cols) && cleared.Keys == cols.Keys
  requires forall c :: c in cols ==> cleared[c] == ClearItems(cols[c], gone)
  ensures UniqueItems(cleared)
{
  forall c, y, c', y'
    ensures DistinctAt(cleared, c, y, c', y')
  {
    assert DistinctAt(cols, c, y, c', y');
  }
}

/** Moving the item of cell s of a column into its cell y, and emptying
    cell s, keeps the grid's items distinct. */
lemma MoveKeepsUnique(cols: map<int, seq<Slot>>, c: int, y: int, s: int)
  requires UniqueItems(cols) && c in cols && 0 <= y < |cols[c]| && 0 <= s < |cols[c]| && y != s
  ensures UniqueItems(cols[c := cols[c][y := Slot(Full, cols[c][s].item)][s := Slot(Empty, null)]])
{
  var moved := cols[c := cols[c][y := Slot(Full, cols[c][s].item)][s := Slot(Empty, null)]];
  forall c1, y1, c2, y2
    ensures DistinctAt(moved, c1, y1, c2, y2)
  {
    // Each cell of `moved` holds the item cols has at its source position.
    var (d1, z1) := if (c1, y1) == (c, y) then (c, s) else (c1, y1);
    var (d2, z2) := if (c2, y2) == (c, y) then (c, s) else (c2, y2);
    assert DistinctAt(cols, d1, z1, d2, z2);
  }
}

/** Putting an item that no cell holds into a cell keeps the grid's items
    distinct. */
lemma AddKeepsUnique(cols: map<int, seq<Slot>>, c: int, y: int, slot: Slot)
  requires UniqueItems(cols) && c in cols && 0 <= y < |cols[c]|
  requires forall c', y' :: c' in cols && 0 <= y' < |cols[c']| ==> cols[c'][y'].item != slot.item
  ensures UniqueItems(cols[c := cols[c][y := slot]])
{
  var added := cols[c := cols[c][y := slot]];
  forall c1, y1, c2, y2
    ensures DistinctAt(added, c1, y1, c2, y2)
  {
    assert DistinctAt(cols, c1, y1, c2, y2);
  }
}
