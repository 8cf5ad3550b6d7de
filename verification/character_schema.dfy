/** The record stored by the myCharacter model (schemas/characters.schema.js). */
module CharacterSchema {
  import opened Outcome
  import opened Keys

  /**
   * One character document. `equip` is an untyped required array in the
   * schema; the model holds item codes there, and no route writes it.
   */
  datatype Character = Character(
    character_id: int,
    name: string,
    health: int,
    power: int,
    equip: seq<int>)

  function CharacterId(c: Character): int { c.character_id }

  function CharacterName(c: Character): string { c.name }

  /** The character_id column, in table order: an id is in it exactly when some stored character carries it. */
  function Ids(rows: seq<Character>): (ids: seq<int>)
    ensures |ids| == |rows|
    ensures forall i :: 0 <= i < |rows| ==> ids[i] == rows[i].character_id
    ensures forall k :: k in ids <==> exists i :: 0 <= i < |rows| && rows[i].character_id == k
  {
    seq(|rows|, i requires 0 <= i < |rows| => rows[i].character_id)
  }

  /** The two unique indexes of the schema: on character_id and on name. */
  predicate UniqueIndexes(rows: seq<Character>) {
    Unique(rows, CharacterId) && Unique(rows, CharacterName)
  }

  /** Some stored character already carries `name`. */
  predicate NameTaken(rows: seq<Character>, name: string) {
    exists i :: 0 <= i < |rows| && rows[i].name == name
  }

  /** `save()` of a new document: refused when either unique index already holds its value. */
  function SaveNew(rows: seq<Character>, c: Character): (r: Result<seq<Character>>)
    ensures r.Success? <==> c.character_id !in Ids(rows) && !NameTaken(rows, c.name)
    ensures r.Success? ==> r.value == rows + [c]
    ensures r.Failure? ==> r.error == DuplicateKey
    ensures UniqueIndexes(rows) && r.Success? ==> UniqueIndexes(r.value)
  {
    if c.character_id in Ids(rows) || NameTaken(rows, c.name)
    then Failure(DuplicateKey)
    else Success(rows + [c])
  }
}
