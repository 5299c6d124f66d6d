/**
 * The shared in-memory array behind the `/users` and `/books` routers, and
 * the four handlers both routers implement over it in the same way: get by
 * id, create, update and delete.  Each handler answers with the status code
 * and JSON envelope the router sends.
 */
module RecordStore {
  import opened Records

  /** The JSON envelope `{success, message?, data?}` with the HTTP status it is sent with. */
  datatype Response<T> = Response(status: nat, success: bool, message: Option<string>, data: Option<T>)

  function Failure<T>(status: nat, message: string): Response<T> {
    Response(status, false, Some(message), None)
  }

  /** What distinguishes the two routers: the noun in their messages and the fields required on create. */
  datatype Entity = Entity(noun: string, fields: seq<string>)

  /** An entity whose required fields include the key `id`. */
  type Schema = e: Entity | Id in e.fields witness Entity("", [Id])

  /** `fields.join(', ')` */
  function Join(fields: seq<string>): string {
    if |fields| == 0 then ""
    else if |fields| == 1 then fields[0]
    else fields[0] + ", " + Join(fields[1..])
  }

  function NotFoundMessage(e: Entity, id: string): string {
    e.noun + " not found for id: " + id
  }

  function RequiredMessage(e: Entity): string {
    "All fields are required: " + Join(e.fields)
  }

  function ConflictMessage(e: Entity, id: string): string {
    e.noun + " already exists with id: " + id
  }

  const DataRequiredMessage := "Data field is required in the request body"

  /** One of the two module-level arrays, updated in place by the handlers. */
  class Store {
    const schema: Schema
    var records: seq<Record>

    /** The array as loaded from the JSON data file at startup. */
    constructor (schema: Schema, initial: seq<Record>)
      ensures this.schema == schema && records == initial
    {
      this.schema := schema;
      records := initial;
    }

    /** `GET /:id` — the first record with that id, or 404. */
    method Get(id: string) returns (res: Response<Record>)
      ensures res.status == 200 || res.status == 404
      ensures res.success <==> exists i :: 0 <= i < |records| && HasId(records[i], id)
      ensures res.success ==> res.status == 200 && res.message.None? && res.data.Some?
      ensures res.success ==> exists i :: (0 <= i < |records| && res.data == Some(records[i]) &&
        HasId(records[i], id) && forall j :: 0 <= j < i ==> !HasId(records[j], id))
      ensures !res.success ==> res == Failure(404, NotFoundMessage(schema, id))
    {
      var found := FindIndex(records, id);
      match found
      case Some(i) =>
        res := Response(200, true, None, Some(records[i]));
      case None =>
        res := Failure(404, NotFoundMessage(schema, id));
    }

    /**
     * `POST /` — 400 unless every required field is truthy, then 409 if the
     * id is taken; otherwise appends a record of exactly the required
     * fields and answers 201 with it.
     */
    method Create(body: Record) returns (res: Response<Record>)
      modifies this
      ensures !AllPresent(body, schema.fields) ==>
        res == Failure(400, RequiredMessage(schema)) && records == old(records)
      ensures AllPresent(body, schema.fields) && FindIndex(old(records), body[Id]).Some? ==>
        res == Failure(409, ConflictMessage(schema, body[Id])) && records == old(records)
      ensures AllPresent(body, schema.fields) && FindIndex(old(records), body[Id]).None? ==>
        && records == old(records) + [Project(body, schema.fields)]
        && res == Response(201, true, Some(schema.noun + " created successfully"), Some(Project(body, schema.fields)))
        && FindIndex(records, body[Id]) == Some(|old(records)|)
        && (UniqueIds(old(records)) ==> UniqueIds(records))
    {
      if !AllPresent(body, schema.fields) {
        return Failure(400, RequiredMessage(schema));
      }
      var id := body[Id];
      var existing := FindIndex(records, id);
      if existing.Some? {
        res := Failure(409, ConflictMessage(schema, id));
      } else {
        var created := Project(body, schema.fields);
        assert HasId(created, id);
        FindAfterAppend(records, created, id);
        ghost var before := records;
        if UniqueIds(before) {
          AppendKeepsUnique(before, created, id);
        }
        records := records + [created];
        res := Response(201, true, Some(schema.noun + " created successfully"), Some(created));
      }
    }

    /**
     * `PUT /:id` with body `{data}` — 400 when `data` is missing, 404 when no
     * record has the id; otherwise every record with the id becomes
     * `{...rec, ...data}`, and the whole updated array is answered.
     */
    method Update(id: string, data: Option<Record>) returns (res: Response<seq<Record>>)
      modifies this
      ensures data.None? ==> res == Failure(400, DataRequiredMessage) && records == old(records)
      ensures data.Some? && FindIndex(old(records), id).None? ==>
        res == Failure(404, NotFoundMessage(schema, id)) && records == old(records)
      ensures data.Some? && FindIndex(old(records), id).Some? ==>
        && records == MergeMatching(old(records), id, data.value)
        && res == Response(200, true, Some(schema.noun + " updated successfully"), Some(records))
    {
      if data.None? {
        return Failure(400, DataRequiredMessage);
      }
      var found := FindIndex(records, id);
      if found.None? {
        res := Failure(404, NotFoundMessage(schema, id));
      } else {
        var updated := MergeMatching(records, id, data.value);
        records := updated;
        res := Response(200, true, Some(schema.noun + " updated successfully"), Some(updated));
      }
    }

    /**
     * `DELETE /:id` — 404 when no record has the id; otherwise removes the
     * first record with it (`splice(indexOf(found), 1)`) and answers the
     * remaining array.
     */
    method Delete(id: string) returns (res: Response<seq<Record>>)
      modifies this
      ensures FindIndex(old(records), id).None? ==>
        res == Failure(404, NotFoundMessage(schema, id)) && records == old(records)
      ensures FindIndex(old(records), id).Some? ==>
        && records == RemoveAt(old(records), FindIndex(old(records), id).value)
        && |records| == |old(records)| - 1
        && res == Response(200, true, Some(schema.noun + " deleted successfully"), Some(records))
        && (UniqueIds(old(records)) ==> UniqueIds(records) && FindIndex(records, id).None?)
    {
      var found := FindIndex(records, id);
      match found
      case None =>
        res := Failure(404, NotFoundMessage(schema, id));
      case Some(i) =>
        ghost var before := records;
        if UniqueIds(before) {
          RemoveKeepsUnique(before, i);
          FindAfterRemove(before, id);
        }
        records := RemoveAt(records, i);
        res := Response(200, true, Some(schema.noun + " deleted successfully"), Some(records));
    }
  }
}
