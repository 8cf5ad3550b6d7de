/** The record stored by the Item model (schemas/items.schema.js). */
module ItemSchema {
  import opened Outcome
  import opened Keys

  /** The nested item_stat path: two optional numbers. */
  datatype ItemStat = ItemStat(health: Option<int>, power: Option<int>)

  /** One item document; code and name are always present, item_stat may be empty. */
  datatype Item = Item(item_code: int, item_name: string, item_stat: ItemStat)

  /** What the item listing projects each document to. */
  datatype ItemSummary = ItemSummary(item_code: int, item_name: string)

  function ItemCode(it: Item): int { it.item_code }

  function ItemName(it: Item): string { it.item_name }

  function SummaryCode(s: ItemSummary): int { s.item_code }

  /** The item_code column, in table order: a code is in it exactly when some stored item carries it. */
  function Codes(items: seq<Item>): (codes: seq<int>)
    ensures |codes| == |items|
    ensures forall i :: 0 <= i < |items| ==> codes[i] == items[i].item_code
    ensures forall k :: k in codes <==> exists i :: 0 <= i < |items| && items[i].item_code == k
  {
    seq(|items|, i requires 0 <= i < |items| => items[i].item_code)
  }

  /** The two unique indexes of the schema: on item_code and on item_name. */
  predicate UniqueIndexes(items: seq<Item>) {
    Unique(items, ItemCode) && Unique(items, ItemName)
  }

  /** Some stored item is named `name`. */
  predicate NameTaken(items: seq<Item>, name: string) {
    exists j :: 0 <= j < |items| && items[j].item_name == name
  }

  /** Some stored item whose code is not `code` is named `name`. */
  predicate NameTakenByOther(items: seq<Item>, name: string, code: int) {
    exists j :: 0 <= j < |items| && items[j].item_name == name && items[j].item_code != code
  }

  /** `save()` of a new document: refused when either unique index already holds its value. */
  function SaveNew(items: seq<Item>, it: Item): (r: Result<seq<Item>>)
    ensures r.Success? <==> it.item_code !in Codes(items) && !NameTaken(items, it.item_name)
    ensures r.Success? ==> r.value == items + [it]
    ensures r.Failure? ==> r.error == DuplicateKey
    ensures UniqueIndexes(items) && r.Success? ==> UniqueIndexes(r.value)
  {
    if it.item_code in Codes(items) || NameTaken(items, it.item_name)
    then Failure(DuplicateKey)
    else Success(items + [it])
  }

  /**
   * `save()` of the fetched document at `i` after its fields were changed:
   * its code is kept, so only the name index can refuse it, when another
   * document holds that name.
   */
  function SaveExisting(items: seq<Item>, i: nat, it: Item): (r: Result<seq<Item>>)
    requires i < |items| && it.item_code == items[i].item_code
    ensures r.Success? <==> !NameTakenByOther(items, it.item_name, it.item_code)
    ensures r.Success? ==> r.value == items[i := it]
    ensures r.Failure? ==> r.error == DuplicateKey
    ensures UniqueIndexes(items) && r.Success? ==> UniqueIndexes(r.value)
  {
    if NameTakenByOther(items, it.item_name, it.item_code)
    then Failure(DuplicateKey)
    else Success(items[i := it])
  }
}
