# Persons record API: validation rules and CSV import, modelled in Dafny

This project models the core of a small ASP.NET Web API that keeps `Person`
records in a relational store and bulk-imports them from a CSV object staged
in an S3-compatible blob store.

- `Calendar.dfy` (module `Calendar`): the part of .NET's `DateOnly` and
  `DateTime.AddYears` that the birth-date rule relies on. It covers valid dates
  in the years 1 to 9999, day numbers counted from 0001-01-01, `CompareTo`, and
  the rule that 29 February becomes 28 February in a year that is not a leap year.
- `PersonModel.dfy` (module `PersonModel`, after `Models/Person.cs`): the
  `Person` entity and its validation rules. Each name must have length at
  least 1 (`[MinLength(1)]`). The birth date must not be later than today
  moved back 18 years. Income and balance must be non-negative. The two custom
  validators check for null first, then the type, then the range, and each
  failure has its own message. Full-object validation is
  `Validator.TryValidateObject` with every property validated. The CSV class
  map (`PersonMap`) never takes `PersonId` from the file.
- `PersonsController.dfy` (module `PersonsController`, after
  `Controllers/PersonsController.cs`): the class `PersonsController`, whose
  store is a `map<Guid, Person>` field. It has `GetPerson`, `PutPerson`,
  `PostPerson`, `DeletePerson`, `PersonExists` and the import `PostPersonsCsv`.
  The import's stream callback, `StageRecords`, loops over the decoded
  records, skips the invalid ones and stages the valid ones. One save then
  commits the staged records. The presign request of `GetPersonsCsv` is
  modelled too.
- `Wrappers.dfy`: an `Option` type.

The import is proved against the specification function `ValidRecords`. It
holds the decoded records that pass full validation, in stream order.
`Batch` holds the entries those records become under their generated ids. The
results are:

- A missing object gives `NotFound`, and the store is unchanged.
- An object with no valid record gives
  `BadRequest("No valid records found in the specified file")`, and the store
  is unchanged.
- Otherwise the result is `NoContent`. The new store is the old one plus
  exactly the batch, and it grows by exactly the number of valid records.

Inputs that are not part of the program's own logic are parameters. The
clock value "today" (`DateTime.Now`) is one. The ids that EF Core generates
for new rows are another (`generated` and `ids`), assumed fresh. The blob
object is a third: a `BlobObject` with a `present` flag (the result of
`StatObjectAsync`) and the records CsvHelper decodes from it.

Facts about the code that shape the model:

- The cutoff date itself is accepted, because the comparison at
  `Models/Person.cs:47` is `> 0` (`CutoffAccepted`).
- `TryValidateObject(..., true)` validates every property and collects every
  failure; `ValidationErrors` models that list, which the controller discards.
- CsvHelper conversion errors are exceptions the action does not catch, not
  per-row rejections; every decoded record in the model has typed fields.
- The API has no filtered list query and no delete-all.

## Model

| member | source | states |
|---|---|---|
| Calendar.AddYears | Models/Person.cs:46 | `AddYears` keeps the month and moves the year by n. The day is also kept, except that 29 February becomes 28 February when the target year is not a leap year. The result is a valid date. |
| Calendar.CompareTo | Models/Person.cs:47 | The comparison is zero exactly for equal dates. It is positive exactly when the second date comes before the first in the calendar, and negative exactly when the first comes before the second. |
| Calendar.CompareToMatchesDayNumber | Models/Person.cs:47 | The field-by-field comparison gives the sign of the difference of the two day numbers, which is how `DateOnly.CompareTo` is defined. |
| Calendar.DayNumberOrder | Models/Person.cs:47 | Ordering dates by day number is the same as ordering them in the calendar, and two valid dates have the same day number only when they are equal. |
| Calendar.DaysBeforeYearMatchesFormula | Models/Person.cs:46-47 | Summing the lengths of the years before a year gives the same count as DateTime's closed formula: 365 days a year, plus one leap day per four years, minus one per century, plus one per 400 years. |
| PersonModel.Cutoff | Models/Person.cs:46 | The cutoff is today's date with the year moved back 18. Its day is today's, except that 29 February becomes 28 February when the target year is not a leap year. |
| PersonModel.ValidateBirthDate | Models/Person.cs:35-51 | Null gives "Object cannot be null". Any value that is not a date gives "Object must be DateOnly". A date is accepted exactly when it does not come after the cutoff; otherwise it gets "Age must be greater than 18 years". |
| PersonModel.ValidateNonNegativeDecimal | Models/Person.cs:53-68 | A value succeeds exactly when it is a decimal that is at least 0, zero included. Null gives "Object cannot be null", a value of another type gives "Object must be decimal", and a negative decimal gives "Number must be at least 0". |
| PersonModel.ValidateMinLength | Models/Person.cs:11-15 | A name succeeds exactly when its length is at least 1. |
| PersonModel.Failures | Controllers/PersonsController.cs:157-162 | The collected failure list is no longer than the list of results. It is empty exactly when every result succeeded, and it holds the message of every failed result. |
| PersonModel.TryValidateObject | Controllers/PersonsController.cs:157-162 | Full validation succeeds exactly when both names are non-empty, the birth date is on or before the cutoff, and income and balance are both non-negative. |
| PersonModel.ErrorsEmptyIffValid | Controllers/PersonsController.cs:157-162 | `TryValidateObject` returns true exactly when the error list it fills stays empty. |
| PersonModel.NegativeAmountReported | Models/Person.cs:20-30 | A negative income or balance always makes the person invalid, whatever the other fields hold, and "Number must be at least 0" is among the errors. |
| PersonModel.TooYoungReported | Models/Person.cs:46-48 | A birth date after the cutoff puts "Age must be greater than 18 years" among the errors. |
| PersonModel.DefaultNameRejected | Models/Person.cs:11-15 | A person whose first or last name is the default empty string has at least one validation error. |
| PersonModel.CutoffAccepted | Models/Person.cs:47-50 | The cutoff date itself, exactly 18 years back, is accepted. |
| PersonModel.BornTodayRejected | Models/Person.cs:46-48 | A birth date equal to today is rejected as too young. |
| PersonModel.BirthDateDownwardClosed | Models/Person.cs:47-50 | Any date before an accepted birth date is also accepted. |
| PersonModel.BirthYearBounds | Models/Person.cs:46-50 | An accepted birth year is at most today's year minus 18. Any birth year strictly before that is accepted. |
| PersonModel.PersonMapRead | Models/Person.cs:71-77 | A person read through the class map always has `PersonId` equal to `Guid.Empty`. |
| PersonModel.IdColumnIgnored | Models/Person.cs:76 | The file's PersonId column, whether present or absent and whatever it holds, has no effect on the person read. |
| PersonsController.UploadSlotArgs | Controllers/PersonsController.cs:56-68 | The presign request names the generated object in the API's bucket, with an expiry of 600 seconds. |
| PersonsController.ValidRecords | Controllers/PersonsController.cs:155-174 | There are never more staged records than decoded ones. |
| PersonsController.ValidRecordsMembers | Controllers/PersonsController.cs:155-174 | Every staged record passes full validation, and every decoded record that passes it is staged. |
| PersonsController.ValidRecordsAppend | Controllers/PersonsController.cs:155-174 | Staging preserves stream order: the records staged from a concatenation are those staged from the first part followed by those staged from the second. |
| PersonsController.NoValidRecords | Controllers/PersonsController.cs:164-172 | Nothing is staged exactly when every decoded record fails validation. |
| PersonsController.BatchContents | Controllers/PersonsController.cs:173 | With distinct ids, the staged entries have exactly the first k generated ids as keys, one entry per staged person. The i-th staged person is stored under the i-th id and carries it as its PersonId. |
| PersonsController.BatchIds | Controllers/PersonsController.cs:173 | Every staged entry is stored under its own PersonId. |
| PersonsController.CommitGrowsByBatch | Controllers/PersonsController.cs:188 | Committing staged entries under fresh ids grows the store by exactly the number of staged persons, and leaves every existing entry unchanged. |
| PersonsController.StageRecords | Controllers/PersonsController.cs:141-178 | The stream callback stages exactly `Batch(ValidRecords(records))`, skipping invalid records without stopping. Its flag stays set exactly when nothing valid was found. |
| PersonsController.PersonsController.constructor | Controllers/PersonsController.cs:26-30 | The controller starts over the given store, in which every person is keyed by its own id. |
| PersonsController.PersonsController.PersonExistsIsKey | Controllers/PersonsController.cs:212-215 | In a store where every person is keyed by its own id, some person has a given id exactly when that id is a key. |
| PersonsController.PersonsController.GetPerson | Controllers/PersonsController.cs:41-51 | The result is the stored person when the id is present, and NotFound otherwise. |
| PersonsController.PersonsController.PutPerson | Controllers/PersonsController.cs:79-105 | An id mismatch gives BadRequest, and an absent id gives NotFound; in both cases the store is unchanged. Otherwise the result is NoContent and only that entry is replaced. The keyed-by-own-id invariant is kept. |
| PersonsController.PersonsController.PostPerson | Controllers/PersonsController.cs:110-116 | A person with id `Guid.Empty` is stored under the generated id and returned as Created. A person with its own id is stored under that id, unless the key is already taken; then the result is a ServerError and the store is unchanged. |
| PersonsController.PersonsController.DeletePerson | Controllers/PersonsController.cs:198-210 | An absent id gives NotFound and leaves the store unchanged. Otherwise the result is NoContent and exactly that entry is removed. |
| PersonsController.PersonsController.PostPersonsCsv | Controllers/PersonsController.cs:121-194 | A missing object gives NotFound, and the store is unchanged. With no valid record, the result is BadRequest("No valid records found in the specified file"), and the store is unchanged. Otherwise the result is NoContent, and the new store is the old one plus exactly the staged valid records. |
| PersonsController.CreateThenGet | Controllers/PersonsController.cs:41-51 | Posting a person with an empty id always creates it. Getting the id of a created person then returns that person. |
| PersonsController.DeleteThenGet | Controllers/PersonsController.cs:198-210 | After deleting an id, getting it gives NotFound. |
| PersonsController.ImportCount | Controllers/PersonsController.cs:188-193 | The import succeeds exactly when the object exists and at least one record is valid. The store then grows by exactly the number of valid records; otherwise it does not grow. |

## Left out

- MinIO calls (`PresignedPutObjectAsync`, `StatObjectAsync`, `GetObjectAsync` with its callback stream) run on a foreign network client. The object is a `present` flag and its decoded records. Of the presign, only the request (bucket, object name, 600-second expiry) is modelled; the returned link and the `csvUploadDetails` value are not.
- CsvHelper decoding is library behaviour outside the model. This covers header reading, matching columns by name, type conversion, and how the outer `while (csv.Read())` interacts with `GetRecords`. The import takes the decoded records in file order. Conversion exceptions are not caught by the action, so they are not modelled as per-row rejections.
- EF Core and MySQL are outside the model: change tracking, `SaveChangesAsync`, transactions, and the concurrency-conflict rethrow in `PutPerson` (the branch where the row still exists). Guid generation is a parameter assumed fresh.
- PersonsController.PersonsController.PostPerson: a duplicate client-supplied key is modelled as a ServerError with the store unchanged. The exception type and message are not modelled.
- `MyControllerBase` is not part of this model. Whether automatic model validation rejects an invalid request body before `PutPerson` or `PostPerson` runs is not captured; these actions store the body as given.
- `GetPersons` (list all) is not modelled. It is a plain read of the whole set.
- PersonModel.TryValidateObject: models the five property attributes of `Person` only. The `ValidationContext` argument, object-level validation and the framework's type conversion of the boxed values are not modelled.
- PersonModel.ValidateMinLength: a null string, which `[MinLength]` accepts, is not modelled. Names in the model are never null; the source's default is the empty string.
- Decimal range and precision: `decimal` is an exact `real`, without its 28-digit limit.
- One clock reading serves a whole import: the source reads `DateTime.Now` in each `ValidateBirthDate` call, so an import that crosses midnight may use two cutoffs; `ValidRecords` and `StageRecords` apply a single `today` to every record.
- A clock earlier than the year 19 is excluded. `DateTime.AddYears(-18)` throws there.
- The time-of-day part of `DateTime.Now` is dropped. Only its date matters after `DateOnly.FromDateTime`.
- Console logging and the JSON serialisation of discarded records are left out.
- Async/await, and concurrency between requests, are left out.
- `Program.cs` is left out: dependency injection, configuration and startup only.
- `Models/DataContext.cs` is left out: a bare `DbSet` declaration.
- `Models/CsvUploadDetails.cs` is left out: an unused data-transfer object with no logic.
