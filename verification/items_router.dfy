/**
 * The item routes (routes/items.router.js) over an in-memory Item
 * collection: create, patch by code, list, get by code.
 */
module ItemsRouter {
  import opened Outcome
  import opened Keys
  import opened ItemSchema
  import opened Joi

  /** Body of POST /items and PATCH /items/:item_code; a field the client left out is None. */
  datatype ItemBody = ItemBody(item_name: Option<string>, item_stat: Option<ItemStat>)

  /** The fields createItemSchema lets through. */
  datatype ValidItemBody = ValidItemBody(item_name: string, item_stat: Option<ItemStat>)

  const MaxItemNameLength := 15

  /** createItemSchema.validateAsync: item_name a required string of 1 to 15 UTF-16 units, item_stat an optional object. */
  function ValidateItem(body: ItemBody): (r: Result<ValidItemBody>)
    ensures r.Success? <==> body.item_name.Some? && 1 <= Utf16Length(body.item_name.value) <= MaxItemNameLength
    ensures r.Success? ==> r.value == ValidItemBody(body.item_name.value, body.item_stat)
    ensures r.Failure? ==> r.error == ValidationError
  {
    match body.item_name
    case Some(name) =>
      if 1 <= Utf16Length(name) <= MaxItemNameLength
      then Success(ValidItemBody(name, body.item_stat))
      else Failure(ValidationError)
    case None => Failure(ValidationError)
  }

  /** A stored record the create and patch routes could have produced. */
  predicate Admissible(it: Item) {
    it.item_code >= 1 && ValidateItem(ItemBody(Some(it.item_name), None)).Success?
  }

  /** The code and name of one document, as `select('item_code item_name')` keeps them. */
  function Summarize(it: Item): ItemSummary {
    ItemSummary(it.item_code, it.item_name)
  }

  /** The listing of the given documents: one summary per document, in the same order, so codes keep their order. */
  function Summaries(items: seq<Item>): (r: seq<ItemSummary>)
    ensures |r| == |items| && forall j :: 0 <= j < |items| ==> r[j] == Summarize(items[j])
    ensures StrictlyDescending(items, ItemCode) ==> StrictlyDescending(r, SummaryCode)
  {
    var r := seq(|items|, i requires 0 <= i < |items| => Summarize(items[i]));
    assert StrictlyDescending(items, ItemCode) ==> StrictlyDescending(r, SummaryCode) by {
      if StrictlyDescending(items, ItemCode) {
        forall a, b | 0 <= a < b < |r| ensures SummaryCode(r[a]) > SummaryCode(r[b]) {
          assert ItemCode(items[a]) > ItemCode(items[b]);
        }
      }
    }
    r
  }

  class ItemTable {
    var items: seq<Item>

    /** Unique codes and names, and every record as the routes store it. */
    ghost predicate Valid()
      reads this
    {
      UniqueIndexes(items) && forall i :: 0 <= i < |items| ==> Admissible(items[i])
    }

    constructor ()
      ensures Valid() && items == []
    {
      items := [];
    }

    /** POST /items: validate, insist on item_stat, number the record max + 1 (or 1), save. */
    method Create(body: ItemBody) returns (res: Result<Item>)
      requires Valid()
      modifies this
      ensures Valid()
      ensures res.Success? <==>
        ValidateItem(body).Success? && body.item_stat.Some? && !NameTaken(old(items), body.item_name.value)
      ensures ValidateItem(body).Failure? ==> res == Failure(ValidationError) && items == old(items)
      ensures ValidateItem(body).Success? && body.item_stat.None? ==> res == Failure(MissingItemStat) && items == old(items)
      ensures ValidateItem(body).Success? && body.item_stat.Some? && NameTaken(old(items), body.item_name.value) ==>
        res == Failure(DuplicateKey) && items == old(items)
      ensures res.Success? ==>
        && res.value == Item(NextKey(Codes(old(items))), body.item_name.value, body.item_stat.value)
        && items == old(items) + [res.value]
        && (forall i :: 0 <= i < |old(items)| ==> old(items)[i].item_code < res.value.item_code)
    {
      match ValidateItem(body)
      case Failure(e) =>
        return Failure(e);
      case Success(v) =>
        if v.item_stat.None? {
          return Failure(MissingItemStat);
        }
        var code := NextKey(Codes(items));
        var it := Item(code, v.item_name, v.item_stat.value);
        match SaveNew(items, it)
        case Failure(e) =>
          return Failure(e);
        case Success(saved) =>
          items := saved;
          return Success(it);
    }

    /**
     * PATCH /items/:item_code: validate the body with the create schema, then
     * look the code up (400 when absent), then overwrite the name and, when
     * one was sent, the stats of that one record, and save.
     */
    method Patch(code: int, body: ItemBody) returns (res: Result<()>)
      requires Valid()
      modifies this
      ensures Valid()
      ensures res.Success? <==>
        ValidateItem(body).Success? && code in Codes(old(items)) && !NameTakenByOther(old(items), body.item_name.value, code)
      ensures ValidateItem(body).Failure? ==> res == Failure(ValidationError)
      ensures ValidateItem(body).Success? && code !in Codes(old(items)) ==> res == Failure(UnknownItemCode)
      ensures ValidateItem(body).Success? && code in Codes(old(items)) && NameTakenByOther(old(items), body.item_name.value, code) ==>
        res == Failure(DuplicateKey)
      ensures res.Failure? ==> items == old(items)
      ensures res.Success? ==>
        && |items| == |old(items)|
        && forall i :: 0 <= i < |items| ==>
             if old(items)[i].item_code == code then
               && items[i].item_code == code
               && items[i].item_name == body.item_name.value
               && items[i].item_stat == (if body.item_stat.Some? then body.item_stat.value else old(items)[i].item_stat)
             else items[i] == old(items)[i]
    {
      match ValidateItem(body)
      case Failure(e) =>
        return Failure(e);
      case Success(v) =>
        match IndexOfKey(items, ItemCode, code)
        case None =>
          return Failure(UnknownItemCode);
        case Some(i) =>
          var current := items[i];
          current := current.(item_name := v.item_name);
          if v.item_stat.Some? {
            current := current.(item_stat := v.item_stat.value);
          }
          match SaveExisting(items, i, current)
          case Failure(e) =>
            return Failure(e);
          case Success(saved) =>
            items := saved;
            return Success(());
    }

    /** GET /items: code and name of every item, largest code first. */
    method List() returns (r: seq<ItemSummary>)
      requires Valid()
      ensures |r| == |items|
      ensures StrictlyDescending(r, SummaryCode)
      ensures forall i :: 0 <= i < |r| ==> exists j :: 0 <= j < |items| && r[i] == Summarize(items[j])
      ensures forall j :: 0 <= j < |items| ==> Summarize(items[j]) in r
    {
      var sorted := SortDesc(items, ItemCode);
      r := Summaries(sorted);
      forall i | 0 <= i < |r|
        ensures exists j :: 0 <= j < |items| && r[i] == Summarize(items[j])
      {
        assert sorted[i] in multiset(items);
        var j :| 0 <= j < |items| && items[j] == sorted[i];
      }
      forall j | 0 <= j < |items| ensures Summarize(items[j]) in r {
        assert items[j] in multiset(sorted);
        var k :| 0 <= k < |sorted| && sorted[k] == items[j];
        assert r[k] == Summarize(items[j]);
      }
    }

    /** GET /items/:item_code: the full record with that code, or 404. */
    method Get(code: int) returns (res: Result<Item>)
      ensures res.Success? <==> code in Codes(items)
      ensures res.Success? ==> res.value in items && res.value.item_code == code
      ensures res.Failure? ==> res.error == NotFound
    {
      match IndexOfKey(items, ItemCode, code)
      case None =>
        return Failure(NotFound);
      case Some(i) =>
        return Success(items[i]);
    }
  }

  /** A client of the table: numbering from an empty table, and item_stat demanded on create. */
  method CreateScenario()
  {
    var t := new ItemTable();
    assert Utf16Length("Sword") == 5 && Utf16Length("Shield") == 6;
    var sword := t.Create(ItemBody(Some("Sword"), Some(ItemStat(None, Some(50)))));
    assert sword == Success(Item(1, "Sword", ItemStat(None, Some(50))));
    var bare := t.Create(ItemBody(Some("Shield"), None));
    assert bare == Failure(MissingItemStat);
  }

  /** A client of the table: validation comes ahead of the code lookup. */
  method PatchOrderScenario()
  {
    var t := new ItemTable();
    t.items := [Item(1, "Sword", ItemStat(None, Some(50)))];
    assert Utf16Length("Sword") == 5 && Utf16Length("Axe") == 3;
    assert t.Valid();
    var invalid := t.Patch(9, ItemBody(None, None));
    assert invalid == Failure(ValidationError);
    assert Codes(t.items) == [1];
    var unknown := t.Patch(9, ItemBody(Some("Axe"), None));
    assert unknown == Failure(UnknownItemCode);
  }
}
