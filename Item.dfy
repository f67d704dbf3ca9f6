// The entity that occupies a grid cell: its model (name, type, starting
// health) and its remaining health.

/** The kinds of item a level can hold. */
datatype ItemType = Color | Breakable | Obstacle

/** The level-editor description of an item: its name (two items match when
    their names are equal), its type and the health it starts with. Sprites
    are presentation only and are not modelled. */
datatype ItemModel = ItemModel(itemName: string, itemType: ItemType, itemHealth: int)

class Item {
  // Both have private setters in the source and are assigned only by SetItem,
  // which is why they are constants here.
  const model: ItemModel
  const maxHealth: int
  var currHealth: int

  /** Health never rises above the starting health. */
  ghost predicate Valid()
    reads this
  {
    currHealth <= maxHealth
  }

  /** Instantiating an item and calling SetItem on it, which the grid always
      does back to back: the item takes the model's health as both its
      maximum and its current health. */
  constructor SetItem(itemModel: ItemModel)
    ensures model == itemModel
    ensures maxHealth == itemModel.itemHealth && currHealth == maxHealth
    ensures Valid() && AppearanceIndex() == 0
  {
    model := itemModel;
    maxHealth := itemModel.itemHealth;
    currHealth := itemModel.itemHealth;
  }

  /** The index of the sprite UpdateAppearance shows: how many hits the item
      has taken. For a valid item that is still alive it is a valid index into
      a list of maxHealth sprites. */
  function AppearanceIndex(): (diff: int)
    reads this
    ensures Valid() && currHealth > 0 ==> 0 <= diff < maxHealth
  {
    maxHealth - currHealth
  }

  /** One hit: health drops by exactly one, and the result says whether the
      item is destroyed (health at or below zero). */
  method Damaged() returns (destroyed: bool)
    modifies this
    ensures currHealth == old(currHealth) - 1
    ensures destroyed <==> currHealth <= 0
    ensures old(Valid()) ==> Valid()
    ensures old(Valid()) && !destroyed ==> 1 <= AppearanceIndex() < maxHealth
  {
    currHealth := currHealth - 1;
    destroyed := currHealth <= 0;
  }
}

/** The results of `hits` consecutive calls of Damaged on an item whose
    current health is `health`: the i-th entry is what the (i+1)-th call
    returns. */
function DamageResults(health: int, hits: nat): (results: seq<bool>)
  decreases hits
  ensures |results| == hits
  ensures hits > 0 ==> results[0] == (health <= 1)
{
  if hits == 0 then [] else [health - 1 <= 0] + DamageResults(health - 1, hits - 1)
}

/** An item set up with health h >= 1 survives its first h - 1 hits and
    reports destroyed on its h-th. */
lemma {:induction false} DestroyedOnHthHit(health: int)
  requires health >= 1
  ensures DamageResults(health, health)[health - 1]
  ensures forall i :: 0 <= i < health - 1 ==> !DamageResults(health, health)[i]
{
  if health > 1 {
    DestroyedOnHthHit(health - 1);
    var rest := DamageResults(health - 1, health - 1);
    assert DamageResults(health, health) == [false] + rest;
  }
}

/** One more hit extends the list of results at its end: the (k+1)-th hit
    finds health reduced by k. */
lemma {:induction false} DamageResultsSnoc(health: int, hits: nat)
  ensures DamageResults(health, hits + 1) == DamageResults(health, hits) + [health - hits - 1 <= 0]
  decreases hits
{
  if hits > 0 {
    DamageResultsSnoc(health - 1, hits - 1);
  }
}

/** Hits an item `hits` times in a row through Damaged, collecting what each
    call returns: the results are those DamageResults lists, so an item
    whose health was h >= 1 reports destroyed on the h-th call and on no
    earlier one. */
method DamageRepeatedly(item: Item, hits: nat) returns (results: seq<bool>)
  modifies item
  ensures results == DamageResults(old(item.currHealth), hits)
  ensures item.currHealth == old(item.currHealth) - hits
  ensures 1 <= old(item.currHealth) == hits ==>
            results[hits - 1] && forall i :: 0 <= i < hits - 1 ==> !results[i]
{
  results := [];
  for k := 0 to hits
    invariant item.currHealth == old(item.currHealth) - k
    invariant results == DamageResults(old(item.currHealth), k)
  {
    DamageResultsSnoc(old(item.currHealth), k);
    var destroyed := item.Damaged();
    results := results + [destroyed];
  }
  if 1 <= old(item.currHealth) == hits {
    DestroyedOnHthHit(hits);
  }
}
