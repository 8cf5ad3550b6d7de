# Game item simulator: character and item tables

A Dafny model of the two record tables of the Game-Item-Simulator service and
of the route handlers that read and change them.

- The **character table** is served by `routes/characters.router.js` and holds
  `myCharacter` documents (`schemas/characters.schema.js`). Create validates
  the body (name of 1 to 10 UTF-16 code units, health and power at least 1
  and no larger than `Number.MAX_SAFE_INTEGER`, all required). It then numbers the record one past the largest `character_id`,
  or 1 when the table is empty, and saves it. Delete and get by id answer
  not-found for an absent id. List returns every character, largest id first.
- The **item table** is served by `routes/items.router.js` and holds `Item`
  documents (`schemas/items.schema.js`). Create validates `item_name` (1 to 15
  UTF-16 code units, required). It also refuses a body without `item_stat`, even
  though the Joi schema marks that field optional. It numbers `item_code` the
  same way as character ids. Patch validates the body with the create schema
  first, so the name is required. It then looks the code up, and an unknown
  code answers 400 (`UnknownItemCode`), not 404. It always overwrites the
  name and replaces the stats only when some were sent. List returns only code and
  name, largest code first. Get by code returns the record or not-found.
- Both schemas declare **unique indexes**: on `character_id` and `name`, and
  on `item_code` and `item_name`. A `save()` that would break one is refused
  (`DuplicateKey`) and stores nothing.

Layout:

- `joi.dfy` (module `Joi`): what Joi measures, namely string length in UTF-16
  code units and the safe-integer range of `number()`.
- `outcome.dfy` (module `Outcome`): `Option`, the error variants and `Result`.
- `keys.dfy` (module `Keys`): the key handling both routers share.
  - Largest key and the next key (`findOne().sort('-key')` followed by
    `max ? max + 1 : 1`).
  - Lookup by key (`findOne({ key })`).
  - Listing in descending key order (`find().sort('-key')`), as an insertion
    sort proved to be a permutation.
  - The unique-index predicate.
- `character_schema.dfy`, `item_schema.dfy`: the record datatypes and `save()`
  against the unique indexes.
- `characters_router.dfy`, `items_router.dfy`: each table is a class. Its
  `seq` field is the collection. It has one method per route, and `Valid()`
  is the table invariant (unique indexes, every record as the create route
  stores it). `items_router.dfy` ends with two small client methods, which
  show what a caller can conclude from the Create and Patch contracts alone.

Deleting the highest id and creating again reuses that id only in part of
the cases. `NextIdAfterDeletingHighest` proves the exact
rule: the new id is at most the deleted id `m`. It equals `m` exactly when
`m - 1` is still stored, or when the table became empty and `m` was 1. With
ids 1, 2, 5 stored, deleting 5 makes the next id 3.

## Model

| member | source | states |
|---|---|---|
| Joi.Utf16Length | routes/characters.router.js:27 | the length Joi checks lies between the number of characters and twice that, and equals the number of characters iff every character lies in the Basic Multilingual Plane |
| Keys.Max | routes/characters.router.js:64-67 | the largest key of a non-empty table is one of its keys and no key exceeds it |
| Keys.NextKey | routes/characters.router.js:70-72 | the new key is 1 for an empty table; otherwise it is one more than a stored key and larger than every stored key |
| Keys.NextKeyOfSequence | routes/characters.router.js:70-72 | with keys 1..n stored in creation order, the next key is n + 1, so creation without deletion numbers 1, 2, 3, ... |
| Keys.NextKeyWithoutMax | routes/characters.router.js:64-72 | after the largest key m is dropped, the next key is at most m, and equals m iff m - 1 remains or nothing remains and m is 1 |
| Keys.IndexOfKey | routes/characters.router.js:124-126 | finds a position holding the requested key, and reports none exactly when no record carries it |
| Keys.InsertDesc | routes/characters.router.js:112 | inserting a record into a descending sequence adds exactly that record and keeps keys non-increasing |
| Keys.InsertDescStrict | routes/characters.router.js:112 | inserting a record with a new key into a strictly descending sequence keeps it strictly descending |
| Keys.SortDesc | routes/characters.router.js:112 | the sorted listing has the same records with the same multiplicities, keys non-increasing, and strictly decreasing when keys are unique |
| Keys.UniqueWithout | schemas/characters.schema.js:10-19 | removing one record from a table keeps any unique field unique |
| CharacterSchema.SaveNew | schemas/characters.schema.js:10-19 | saving a new character succeeds iff its id is not among the stored ids and no stored record has its name; success appends it and keeps both indexes unique, failure is DuplicateKey |
| ItemSchema.SaveNew | schemas/items.schema.js:5-14 | saving a new item succeeds iff its code is not among the stored codes and no stored item has its name; success appends it and keeps both indexes unique, failure is DuplicateKey |
| ItemSchema.SaveExisting | schemas/items.schema.js:5-14 | saving a changed item whose code is kept succeeds iff no item with another code holds its name; success replaces only that record and keeps both indexes unique, failure is DuplicateKey |
| CharactersRouter.ValidateCharacter | routes/characters.router.js:26-30 | the body passes iff name is present with 1 to 10 UTF-16 code units and health and power are present, at least 1 and at most 2^53 - 1; otherwise ValidationError |
| CharactersRouter.CharacterTable.Create | routes/characters.router.js:37-79 | an invalid body gives ValidationError and a taken name gives DuplicateKey, both with the table unchanged; success appends exactly one record with id max + 1 (or 1), the given fields and an empty equip, its id above every earlier id, and keeps the invariant |
| CharactersRouter.CharacterTable.Delete | routes/characters.router.js:89-106 | an absent id gives NotFound with the table unchanged; a present id removes exactly the record with that id and no other, and keeps the invariant |
| CharactersRouter.CharacterTable.List | routes/characters.router.js:110-116 | the listing holds every stored character exactly once, ids strictly decreasing |
| CharactersRouter.CharacterTable.Get | routes/characters.router.js:119-137 | answers the stored record with that id iff one exists, otherwise NotFound; the table is not modified |
| CharactersRouter.NextIdAfterDeletingHighest | routes/characters.router.js:64-106 | after the highest-id character is deleted, the next create's id is at most that id, and equals it iff id - 1 is still stored or the table emptied and the id was 1 |
| ItemsRouter.ValidateItem | routes/items.router.js:18-21 | the body passes iff item_name is present with 1 to 15 UTF-16 code units; item_stat passes through as given; otherwise ValidationError |
| ItemsRouter.ItemTable.Create | routes/items.router.js:28-57 | an invalid body gives ValidationError, a missing item_stat gives MissingItemStat, a taken name gives DuplicateKey, all with the table unchanged; success appends exactly one item with code max + 1 (or 1), above every earlier code |
| ItemsRouter.ItemTable.Patch | routes/items.router.js:68-95 | validation comes first (ValidationError even for an unknown code), then an unknown code gives UnknownItemCode, then a name clash gives DuplicateKey, all with the table unchanged; success sets the name, replaces the stats only when given, keeps the code and leaves every other item unchanged |
| ItemsRouter.ItemTable.List | routes/items.router.js:102-111 | the listing has one (code, name) pair per stored item and only those, codes strictly decreasing |
| ItemsRouter.ItemTable.Get | routes/items.router.js:116-129 | answers the stored item with that code iff one exists, otherwise NotFound; the table is not modified |

## Left out

- HTTP plumbing (`app.js`, Express routing, status codes in responses, JSON bodies and the Korean error messages): the handlers' outcomes are the `Error` variants; `MissingItemStat` and `UnknownItemCode` stand for the 400 answers, `NotFound` for the 404 answers.
- The error-handler middleware that receives `next(err)`: `middlewares/error-handler.middleware.js` is not part of this model, so the answer to a forwarded `ValidationError` or `DuplicateKey` is not modelled.
- The MongoDB connection, reconnection and `async`/`await` suspension (`config/dbConnect.js`): the collections are in-memory sequences and every handler runs to completion alone, so the read-then-write race on max + 1 numbering is not modelled.
- Joi's type checks, conversions and unknown-key rejection: bodies are typed records whose fields can only be absent or of the right type, and no unknown keys can be sent.
- Non-integer numbers: health, power and stat values are `int`, although `joi.number()` accepts floats. The safe-integer bound of `joi.number()` is modelled for health and power; stat values are not validated by the service.
- Casting of route parameters (`${character_id}`, `${item_code}`) and its failures for non-numeric ids: the character delete and get routes and the item get route do not catch it; item patch forwards it with `next(err)`. Ids and codes are `int`.
- `timestamps` and the generated `_id`: they depend on the clock and on the database.
- The schema defaults (health 500, power 100): validation requires both fields, so `save()` never falls back to them.
- The router's own `!name`, `!health`, `!power`, `!item_name` checks: validation already guarantees a non-empty name and values of at least 1, so they never fire.
- The contents of `equip`: the schema declares it as an untyped required array. The model holds item codes and creates it empty, which Mongoose 5 and later accept for a required array. No route of the service writes it.
- Mongoose's casting inside `item_stat`: the stored stats are two optional integers, so a non-numeric stat value and the keys that strict mode drops are not modelled.
