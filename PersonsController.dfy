/** The persons endpoints (Controllers/PersonsController.cs) over a record
    store keyed by id, and the bulk import of a CSV object from the blob store. */
module PersonsController {
  import opened Wrappers
  import opened Calendar
  import opened PersonModel

  /** What an action returns to the HTTP layer. */
  datatype Response =
    | Ok(person: Person)
    | Created(person: Person)
    | NoContent
    | NotFound
    | BadRequest(message: Option<string>)
    | ServerError

  const NoValidRecordsMessage := "No valid records found in the specified file"

  const Bucket := "sample-dotnet-webapi-bucket"

  /** The life of a presigned upload link, in seconds (ten minutes). */
  const UploadExpirySeconds := 60 * 10 * 1

  /** The arguments of the presigned PUT request made for an upload slot. */
  datatype PresignedPutArgs = PresignedPutArgs(bucket: string, objectName: string, expirySeconds: nat)

  /** GetPersonsCsv: the presign request for a freshly generated object name. */
  function UploadSlotArgs(objectName: string): (args: PresignedPutArgs)
    ensures args.objectName == objectName && args.bucket == Bucket
    ensures args.expirySeconds == 600
  {
    PresignedPutArgs(Bucket, objectName, UploadExpirySeconds)
  }

  /** An object of the blob store as the import sees it: whether it exists, and
      the records CsvHelper decodes from it, in file order. */
  datatype BlobObject = BlobObject(present: bool, records: seq<CsvRecord>)

  /** The persons an import stages, in stream order: each decoded record that
      passes validation. */
  function ValidRecords(records: seq<CsvRecord>, today: DateOnly): (ps: seq<Person>)
    requires IsClock(today)
    ensures |ps| <= |records|
  {
    if records == [] then []
    else
      var p := PersonMapRead(records[0]);
      var rest := ValidRecords(records[1..], today);
      if TryValidateObject(p, today) then [p] + rest else rest
  }

  /** Exactly the valid records are staged: everything staged passes full
      validation, and every record that passes it is staged. */
  lemma {:induction false} ValidRecordsMembers(records: seq<CsvRecord>, today: DateOnly)
    requires IsClock(today)
    ensures forall p :: p in ValidRecords(records, today) ==> TryValidateObject(p, today)
    ensures forall i :: 0 <= i < |records| && TryValidateObject(PersonMapRead(records[i]), today) ==>
              PersonMapRead(records[i]) in ValidRecords(records, today)
  {
    if records != [] {
      ValidRecordsMembers(records[1..], today);
      assert forall i :: 1 <= i < |records| ==> records[i] == records[1..][i - 1];
    }
  }

  /** Filtering keeps the stream order: the valid records of a concatenation
      are those of the first part followed by those of the second. */
  lemma {:induction false} ValidRecordsAppend(a: seq<CsvRecord>, b: seq<CsvRecord>, today: DateOnly)
    requires IsClock(today)
    ensures ValidRecords(a + b, today) == ValidRecords(a, today) + ValidRecords(b, today)
  {
    if a != [] {
      assert (a + b)[1..] == a[1..] + b;
      ValidRecordsAppend(a[1..], b, today);
    } else {
      assert a + b == b;
    }
  }

  /** One step of the import loop: the record at position i is staged after
      those before it exactly when it is valid. */
  lemma ValidRecordsStep(records: seq<CsvRecord>, i: int, today: DateOnly)
    requires IsClock(today) && 0 <= i < |records|
    ensures var p := PersonMapRead(records[i]);
      ValidRecords(records[..i + 1], today) ==
        ValidRecords(records[..i], today) + (if TryValidateObject(p, today) then [p] else [])
    ensures |ValidRecords(records[..i], today)| <= i
  {
    assert records[..i + 1] == records[..i] + [records[i]];
    ValidRecordsAppend(records[..i], [records[i]], today);
    assert [records[i]][1..] == [];
  }

  /** Nothing is staged exactly when every record fails validation. */
  lemma {:induction false} NoValidRecords(records: seq<CsvRecord>, today: DateOnly)
    requires IsClock(today)
    ensures ValidRecords(records, today) == [] <==>
              forall i :: 0 <= i < |records| ==> !TryValidateObject(PersonMapRead(records[i]), today)
  {
    if records != [] {
      NoValidRecords(records[1..], today);
      assert forall i :: 1 <= i < |records| ==> records[i] == records[1..][i - 1];
    }
  }

  /** The ids an import may hand out: distinct, and none of them already a key of the store. */
  predicate FreshIds(ids: seq<Guid>, store: map<Guid, Person>)
  {
    (forall i, j :: 0 <= i < j < |ids| ==> ids[i] != ids[j]) &&
    (forall i :: 0 <= i < |ids| ==> ids[i] !in store)
  }

  /** The entries the change tracker adds for staged persons: the k-th staged
      person is stored under the k-th generated id, with that id as its PersonId. */
  function Batch(ps: seq<Person>, ids: seq<Guid>): map<Guid, Person>
    requires |ps| <= |ids|
    decreases |ps|
  {
    if ps == [] then map[]
    else
      var n := |ps| - 1;
      Batch(ps[..n], ids)[ids[n] := ps[n].(personId := ids[n])]
  }

  /** The batch holds exactly the staged persons: one entry per person, keyed by
      its generated id, which is also its PersonId. */
  lemma {:induction false} BatchContents(ps: seq<Person>, ids: seq<Guid>)
    requires |ps| <= |ids|
    requires forall i, j :: 0 <= i < j < |ids| ==> ids[i] != ids[j]
    ensures Batch(ps, ids).Keys == set i | 0 <= i < |ps| :: ids[i]
    ensures |Batch(ps, ids)| == |ps|
    ensures forall i :: 0 <= i < |ps| ==> Batch(ps, ids)[ids[i]] == ps[i].(personId := ids[i])
    decreases |ps|
  {
    if ps != [] {
      var n := |ps| - 1;
      BatchContents(ps[..n], ids);
      assert ids[n] !in Batch(ps[..n], ids);
      assert (set i | 0 <= i < |ps| :: ids[i]) == (set i | 0 <= i < n :: ids[i]) + {ids[n]};
    }
  }

  /** Staging one more person adds one entry under the next generated id. */
  lemma BatchStep(ps: seq<Person>, p: Person, ids: seq<Guid>)
    requires |ps| < |ids|
    requires forall i, j :: 0 <= i < j < |ids| ==> ids[i] != ids[j]
    ensures |Batch(ps, ids)| == |ps|
    ensures Batch(ps + [p], ids) == Batch(ps, ids)[ids[|ps|] := p.(personId := ids[|ps|])]
  {
    BatchContents(ps, ids);
    assert (ps + [p])[..|ps|] == ps;
  }

  /** One step of the import loop on the staged entries: the record at
      position i adds one entry under the next generated id when it is valid,
      and none otherwise. */
  lemma StageStep(records: seq<CsvRecord>, i: int, today: DateOnly, ids: seq<Guid>)
    requires IsClock(today) && 0 <= i < |records| <= |ids|
    requires forall i, j :: 0 <= i < j < |ids| ==> ids[i] != ids[j]
    ensures var p, s, s' := PersonMapRead(records[i]), ValidRecords(records[..i], today), ValidRecords(records[..i + 1], today);
      |s| < |ids| && |Batch(s, ids)| == |s| &&
      (s' == [] <==> s == [] && !TryValidateObject(p, today)) &&
      Batch(s', ids) == if TryValidateObject(p, today) then Batch(s, ids)[ids[|s|] := p.(personId := ids[|s|])] else Batch(s, ids)
  {
    var p, s := PersonMapRead(records[i]), ValidRecords(records[..i], today);
    ValidRecordsStep(records, i, today);
    BatchStep(s, p, ids);
    if TryValidateObject(p, today) {
      assert ValidRecords(records[..i + 1], today) == s + [p];
    } else {
      assert ValidRecords(records[..i + 1], today) == s;
    }
  }

  /** Every entry of a batch is stored under its own PersonId. */
  lemma {:induction false} BatchIds(ps: seq<Person>, ids: seq<Guid>)
    requires |ps| <= |ids|
    ensures forall k :: k in Batch(ps, ids) ==> Batch(ps, ids)[k].personId == k
    decreases |ps|
  {
    if ps != [] {
      BatchIds(ps[..|ps| - 1], ids);
    }
  }

  /** Committing the batch adds exactly one record per staged person to a store
      that holds none of the generated ids. */
  lemma CommitGrowsByBatch(store: map<Guid, Person>, ps: seq<Person>, ids: seq<Guid>)
    requires |ps| <= |ids|
    requires FreshIds(ids, store)
    ensures |store + Batch(ps, ids)| == |store| + |ps|
    ensures forall k :: k in store ==> (store + Batch(ps, ids))[k] == store[k]
  {
    BatchContents(ps, ids);
    var b := Batch(ps, ids);
    assert store.Keys * b.Keys == {};
    assert (store + b).Keys == store.Keys + b.Keys;
  }

  /** The stream callback of PostPersonsCsv: reads every decoded record,
      discards the invalid ones and stages each valid one under the next
      generated id. The flag stays set while nothing has been staged. */
  method StageRecords(records: seq<CsvRecord>, today: DateOnly, ids: seq<Guid>)
    returns (added: map<Guid, Person>, emptyFlag: bool)
    requires IsClock(today)
    requires |records| <= |ids| && forall i, j :: 0 <= i < j < |ids| ==> ids[i] != ids[j]
    ensures added == Batch(ValidRecords(records, today), ids)
    ensures emptyFlag <==> ValidRecords(records, today) == []
  {
    emptyFlag := true;
    added := map[];
    var i := 0;
    while i < |records|
      invariant 0 <= i <= |records|
      invariant added == Batch(ValidRecords(records[..i], today), ids)
      invariant emptyFlag <==> ValidRecords(records[..i], today) == []
    {
      var person := PersonMapRead(records[i]);
      StageStep(records, i, today, ids);
      var isValid := TryValidateObject(person, today);
      if !isValid {
        i := i + 1;
        continue;
      }
      emptyFlag := false;
      var k := |added|;
      added := added[ids[k] := person.(personId := ids[k])];
      i := i + 1;
    }
    assert records[..i] == records;
  }

  /** The controller over its store of persons, keyed by PersonId. */
  class PersonsController {
    var persons: map<Guid, Person>

    /** Every person is stored under its own id. */
    ghost predicate Valid()
      reads this
    {
      forall id :: id in persons ==> persons[id].personId == id
    }

    constructor (initial: map<Guid, Person>)
      requires forall id :: id in initial ==> initial[id].personId == id
      ensures Valid() && persons == initial
    {
      persons := initial;
    }

    /** PersonExists: some stored person has this id. */
    predicate PersonExists(id: Guid)
      reads this
    {
      exists k :: k in persons && persons[k].personId == id
    }

    /** In a valid store a person with the id exists exactly when the id is a key. */
    lemma PersonExistsIsKey(id: Guid)
      requires Valid()
      ensures PersonExists(id) <==> id in persons
    {
    }

    /** GetPerson: the stored person, or NotFound. */
    method GetPerson(id: Guid) returns (r: Response)
      ensures id in persons ==> r == Ok(persons[id])
      ensures id !in persons ==> r == NotFound
    {
      if id !in persons {
        return NotFound;
      }
      r := Ok(persons[id]);
    }

    /** PutPerson: a path id that differs from the body's is a BadRequest; an id
      that is not stored makes the update affect no row, which is a NotFound;
      otherwise the entry is replaced and nothing else changes. */
    method PutPerson(id: Guid, person: Person) returns (r: Response)
      requires Valid()
      modifies this
      ensures Valid()
      ensures id != person.personId ==> r == BadRequest(None) && persons == old(persons)
      ensures id == person.personId && id !in old(persons) ==> r == NotFound && persons == old(persons)
      ensures id == person.personId && id in old(persons) ==>
                r == NoContent && persons == old(persons)[id := person]
    {
      if id != person.personId {
        return BadRequest(None);
      }
      if id !in persons {
        PersonExistsIsKey(id);
        assert !PersonExists(id);
        return NotFound;
      }
      persons := persons[id := person];
      r := NoContent;
    }

    /** PostPerson: the person is stored under its own id, or under the
      generated one when its id is Guid.Empty; storing under a key that is
      already taken fails and leaves the store as it was. */
    method PostPerson(person: Person, generated: Guid) returns (r: Response)
      requires Valid()
      requires generated != EmptyGuid && generated !in persons
      modifies this
      ensures Valid()
      ensures person.personId == EmptyGuid ==>
                r == Created(person.(personId := generated)) && persons == old(persons)[generated := r.person]
      ensures person.personId != EmptyGuid && person.personId in old(persons) ==>
                r == ServerError && persons == old(persons)
      ensures person.personId != EmptyGuid && person.personId !in old(persons) ==>
                r == Created(person) && persons == old(persons)[person.personId := person]
    {
      var stored := if person.personId == EmptyGuid then person.(personId := generated) else person;
      if stored.personId in persons {
        return ServerError;
      }
      persons := persons[stored.personId := stored];
      r := Created(stored);
    }

    /** DeletePerson: NotFound when the id is not stored, otherwise that entry
      alone is removed. */
    method DeletePerson(id: Guid) returns (r: Response)
      requires Valid()
      modifies this
      ensures Valid()
      ensures id !in old(persons) ==> r == NotFound && persons == old(persons)
      ensures id in old(persons) ==> r == NoContent && persons == old(persons) - {id}
    {
      if id !in persons {
        return NotFound;
      }
      persons := persons - {id};
      r := NoContent;
    }

    /** PostPersonsCsv: a missing object is a NotFound and nothing is saved;
      otherwise every decoded record is validated, the invalid ones are skipped,
      the valid ones are staged under generated ids, and one save commits them.
      The result is a BadRequest when nothing was valid, NoContent otherwise. */
    method PostPersonsCsv(obj: BlobObject, today: DateOnly, ids: seq<Guid>) returns (r: Response)
      requires Valid() && IsClock(today)
      requires |obj.records| <= |ids| && FreshIds(ids, persons)
      modifies this
      ensures Valid()
      ensures !obj.present ==> r == NotFound && persons == old(persons)
      ensures obj.present && ValidRecords(obj.records, today) == [] ==>
                r == BadRequest(Some(NoValidRecordsMessage)) && persons == old(persons)
      ensures obj.present && ValidRecords(obj.records, today) != [] ==>
                r == NoContent && persons == old(persons) + Batch(ValidRecords(obj.records, today), ids)
    {
      var emptyFlag := true;
      if !obj.present {
        return NotFound;
      }
      var added;
      added, emptyFlag := StageRecords(obj.records, today, ids);
      BatchIds(ValidRecords(obj.records, today), ids);
      persons := persons + added;
      if emptyFlag {
        assert persons == old(persons);
        return BadRequest(Some(NoValidRecordsMessage));
      }
      r := NoContent;
    }
  }

  /** A person created by PostPerson is returned by GetPerson of its id. */
  method CreateThenGet(c: PersonsController, person: Person, generated: Guid) returns (created: Response, fetched: Response)
    requires c.Valid()
    requires generated != EmptyGuid && generated !in c.persons
    modifies c
    ensures person.personId == EmptyGuid ==> created.Created?
    ensures created.Created? ==> fetched == Ok(created.person)
  {
    created := c.PostPerson(person, generated);
    fetched := NotFound;
    if created.Created? {
      fetched := c.GetPerson(created.person.personId);
    }
  }

  /** After a DeletePerson of an id, GetPerson of it is a NotFound. */
  method DeleteThenGet(c: PersonsController, id: Guid) returns (fetched: Response)
    requires c.Valid()
    modifies c
    ensures fetched == NotFound
  {
    var _ := c.DeletePerson(id);
    fetched := c.GetPerson(id);
  }

  /** Importing commits exactly as many records as passed validation. */
  method ImportCount(c: PersonsController, obj: BlobObject, today: DateOnly, ids: seq<Guid>) returns (r: Response)
    requires c.Valid() && IsClock(today)
    requires |obj.records| <= |ids| && FreshIds(ids, c.persons)
    modifies c
    ensures r == NoContent <==> obj.present && ValidRecords(obj.records, today) != []
    ensures |c.persons| == |old(c.persons)| + (if r == NoContent then |ValidRecords(obj.records, today)| else 0)
  {
    ghost var before := c.persons;
    r := c.PostPersonsCsv(obj, today, ids);
    if r == NoContent {
      CommitGrowsByBatch(before, ValidRecords(obj.records, today), ids);
    }
  }
}
