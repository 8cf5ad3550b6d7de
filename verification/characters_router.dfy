/**
 * The character routes (routes/characters.router.js) over an in-memory
 * myCharacter collection: create, delete by id, list, get by id.
 */
module CharactersRouter {
  import opened Outcome
  import opened Keys
  import opened CharacterSchema
  import opened Joi

  /** Body of POST /myCharacters; a field the client left out is None. */
  datatype CharacterBody = CharacterBody(name: Option<string>, health: Option<int>, power: Option<int>)

  /** The fields createCharacterSchema lets through. */
  datatype NewCharacter = NewCharacter(name: string, health: int, power: int)

  const MaxNameLength := 10

  /**
   * createCharacterSchema.validateAsync: name a string of 1 to 10 UTF-16 units,
   * health and power numbers from 1 up to the safe-integer bound, all required.
   */
  function ValidateCharacter(body: CharacterBody): (r: Result<NewCharacter>)
    ensures r.Success? <==>
      && body.name.Some? && 1 <= Utf16Length(body.name.value) <= MaxNameLength
      && body.health.Some? && 1 <= body.health.value <= MaxSafeInteger
      && body.power.Some? && 1 <= body.power.value <= MaxSafeInteger
    ensures r.Success? ==> r.value == NewCharacter(body.name.value, body.health.value, body.power.value)
    ensures r.Failure? ==> r.error == ValidationError
  {
    match body
    case CharacterBody(Some(name), Some(health), Some(power)) =>
      if 1 <= Utf16Length(name) <= MaxNameLength && 1 <= health && SafeInteger(health) && 1 <= power && SafeInteger(power)
      then Success(NewCharacter(name, health, power))
      else Failure(ValidationError)
    case _ => Failure(ValidationError)
  }

  /** A stored record the create route could have produced. */
  predicate Admissible(c: Character) {
    && c.character_id >= 1
    && ValidateCharacter(CharacterBody(Some(c.name), Some(c.health), Some(c.power))).Success?
    && c.equip == []
  }

  class CharacterTable {
    var rows: seq<Character>

    /** Unique ids and names, and every record as the create route stores it. */
    ghost predicate Valid()
      reads this
    {
      UniqueIndexes(rows) && forall i :: 0 <= i < |rows| ==> Admissible(rows[i])
    }

    constructor ()
      ensures Valid() && rows == []
    {
      rows := [];
    }

    /** POST /myCharacters: validate, number the record max + 1 (or 1), save. */
    method Create(body: CharacterBody) returns (res: Result<Character>)
      requires Valid()
      modifies this
      ensures Valid()
      ensures res.Success? <==> ValidateCharacter(body).Success? && !NameTaken(old(rows), body.name.value)
      ensures ValidateCharacter(body).Failure? ==> res == Failure(ValidationError) && rows == old(rows)
      ensures ValidateCharacter(body).Success? && NameTaken(old(rows), body.name.value) ==>
        res == Failure(DuplicateKey) && rows == old(rows)
      ensures res.Success? ==>
        && res.value == Character(NextKey(Ids(old(rows))), body.name.value, body.health.value, body.power.value, [])
        && rows == old(rows) + [res.value]
        && (forall i :: 0 <= i < |old(rows)| ==> old(rows)[i].character_id < res.value.character_id)
    {
      match ValidateCharacter(body)
      case Failure(e) =>
        return Failure(e);
      case Success(v) =>
        var id := NextKey(Ids(rows));
        var c := Character(id, v.name, v.health, v.power, []);
        match SaveNew(rows, c)
        case Failure(e) =>
          return Failure(e);
        case Success(saved) =>
          rows := saved;
          return Success(c);
    }

    /** DELETE /myCharacters/:character_id: 404 when absent, otherwise remove that one record. */
    method Delete(id: int) returns (res: Result<()>)
      requires Valid()
      modifies this
      ensures Valid()
      ensures res.Success? <==> id in Ids(old(rows))
      ensures res.Failure? ==> res.error == NotFound && rows == old(rows)
      ensures res.Success? ==> |rows| == |old(rows)| - 1
      ensures forall c :: c in rows <==> c in old(rows) && c.character_id != id
    {
      match IndexOfKey(rows, CharacterId, id)
      case None =>
        assert id !in Ids(rows);
        return Failure(NotFound);
      case Some(i) =>
        assert Ids(rows)[i] == id;
        RemovedAt(rows, i, rows[..i] + rows[i + 1..]);
        rows := rows[..i] + rows[i + 1..];
        return Success(());
    }

    /** GET /myCharacters: every character, largest character_id first. */
    method List() returns (r: seq<Character>)
      requires Valid()
      ensures multiset(r) == multiset(rows)
      ensures StrictlyDescending(r, CharacterId)
    {
      r := SortDesc(rows, CharacterId);
    }

    /** GET /myCharacters/:character_id: the record with that id, or 404. */
    method Get(id: int) returns (res: Result<Character>)
      ensures res.Success? <==> id in Ids(rows)
      ensures res.Success? ==> res.value in rows && res.value.character_id == id
      ensures res.Failure? ==> res.error == NotFound
    {
      match IndexOfKey(rows, CharacterId, id)
      case None =>
        return Failure(NotFound);
      case Some(i) =>
        return Success(rows[i]);
    }
  }

  /** Dropping the record at `i` of a valid table leaves a valid table holding every other record. */
  lemma RemovedAt(rows: seq<Character>, i: nat, r: seq<Character>)
    requires i < |rows| && UniqueIndexes(rows) && forall j :: 0 <= j < |rows| ==> Admissible(rows[j])
    requires r == rows[..i] + rows[i + 1..]
    ensures UniqueIndexes(r) && forall j :: 0 <= j < |r| ==> Admissible(r[j])
    ensures forall c :: c in r <==> c in rows && c.character_id != rows[i].character_id
  {
    UniqueWithout(rows, i, CharacterId);
    UniqueWithout(rows, i, CharacterName);
    forall j | 0 <= j < |r| ensures r[j] == rows[if j < i then j else j + 1] && Admissible(r[j]) {
    }
    forall c ensures c in r <==> c in rows && c.character_id != rows[i].character_id {
      if c in r {
        var j :| 0 <= j < |r| && r[j] == c;
        var k := if j < i then j else j + 1;
        assert rows[k] == c && k != i;
        assert CharacterId(rows[k]) != CharacterId(rows[i]);
      }
      if c in rows && c.character_id != rows[i].character_id {
        var k :| 0 <= k < |rows| && rows[k] == c;
        assert r[if k < i then k else k - 1] == c;
      }
    }
  }

  /**
   * Deleting the character with the largest id `m` and creating again gives
   * the new record an id no larger than `m`; it is `m` itself exactly when
   * `m - 1` is still stored, or when the table became empty and `m` was 1.
   */
  lemma NextIdAfterDeletingHighest(rows: seq<Character>, rest: seq<Character>)
    requires rows != []
    requires forall i :: 0 <= i < |rows| ==> rows[i].character_id >= 1
    requires forall j :: 0 <= j < |rest| ==> rest[j] in rows && rest[j].character_id != Max(Ids(rows))
    ensures NextKey(Ids(rest)) <= Max(Ids(rows))
    ensures NextKey(Ids(rest)) == Max(Ids(rows)) <==>
      (Max(Ids(rows)) - 1 in Ids(rest) || (rest == [] && Max(Ids(rows)) == 1))
  {
    var ids, left := Ids(rows), Ids(rest);
    forall j | 0 <= j < |left| ensures left[j] in ids && left[j] != Max(ids) {
      var p :| 0 <= p < |rows| && rows[p] == rest[j];
      assert left[j] == ids[p];
    }
    NextKeyWithoutMax(ids, left);
  }
}
