# Worker registration service — a Dafny model

This project models the core of a worker-management service (jfd-worker-mgmt).
The core has three parts:

- **SequenceGeneratorService** keeps named counters in a `database_sequences` collection.
  `generateSequence(name)` increments the counter with one upserting `findAndModify`. An absent counter is created at 0 first. The call returns the new value as an `int`.
- **WorkerService** keeps the `workers` collection.
  - `registerWorker` stamps the record with the next `workers_sequence` value, saves it, and publishes it to Kafka under the key `String.valueOf(id)`.
  - `getWorkerById`, `getAllWorkers`, `updateWorkerById` and `deleteWorkerById` read or change the stored records. A missing id raises a not-found error.
- **WorkerInformation** is the worker record. Bean Validation checks its field constraints when a request body is bound.

Modules:

| file | module | models |
|---|---|---|
| outcomes.dfy | `Outcomes` | null (`Option`), raised exceptions (`Result`, `Outcome`, `Error`) |
| java_text.dfy | `JavaText` | the `(int)` cast of a `long`, `Integer.toString`, `String.trim` |
| registration.dfy | `Registration` | `WorkerInformation`, `WorkerStatus`, the validation constraints |
| sequences.dfy | `Sequences` | `DatabaseSequence`, `SequenceGeneratorService` |
| workers.dfy | `Workers` | `WorkerService` |

Modelling choices:

- The collections are maps held in class fields that the methods reassign: counter name → value, and worker id → record.
- `findAndModify` is one sequential step.
- Publishing goes through a `KafkaClient` value with two steps that may fail: Jackson serialisation, and the synchronous part of `KafkaTemplate.send`. Messages that were handed over are appended to the service's `outbox`.
- The `@Async` on the private, self-invoked `publishWorkerRegistrationEvent` has no effect under Spring's proxies. So publishing is not a detached background task: it runs inline, and its errors propagate out of `registerWorker` after the save, with no rollback.
- The clock value for `timestamp` is the datatype's `timestamp` field, fixed when a record value is made.
- The service's ghost field `issued` records every id ever assigned. Its invariant `Valid()` says three things:
  - every issued id is a positive `int` no larger than the counter;
  - every stored record sits under its own id;
  - every stored id was issued.
  So the counter's next value is an id that no record has ever had, including deleted ones.

Behaviour of the code that the model keeps:
- `save` overwrites a record already stored under the same id; it raises no conflict;
- update and delete of a missing id raise not-found; they do not return an empty value or `false`;
- publish errors reach the caller.

## Model

| member | source | states |
|---|---|---|
| `Sequences.FindAndModify` | src/main/java/com/jfd/worker/mgmt/service/SequenceGeneratorService.java:32-38 | the named counter, created at 0 if absent, goes up by exactly 1; the returned document holds the new value; every other counter is unchanged |
| `Sequences.ReturnedValueAsWritten` | src/main/java/com/jfd/worker/mgmt/service/SequenceGeneratorService.java:41 | the value as written is an `int`; it is the counter itself when the counter is positive and fits in `int`, 1 when the counter is not positive, and otherwise the counter wrapped modulo 2^32 |
| `Sequences.AsWrittenWrapsPastMaxInt` | src/main/java/com/jfd/worker/mgmt/service/SequenceGeneratorService.java:41 | as written, a counter of 2^31 yields -2^31 and a counter of 2^32 + 1 yields 1 again |
| `Sequences.ReturnedValue` | src/main/java/com/jfd/worker/mgmt/service/SequenceGeneratorService.java:41 | corrected value: an error exactly when the counter exceeds the `int` range, otherwise at least 1, and equal to the counter when that is positive |
| `Sequences.ReturnedValueAgreesInRange` | src/main/java/com/jfd/worker/mgmt/service/SequenceGeneratorService.java:41 | wherever the counter fits in `int`, the corrected value is the value the code returns |
| `Sequences.FirstCallCreatesCounter` | src/main/java/com/jfd/worker/mgmt/service/SequenceGeneratorService.java:35-41 | on a name with no counter, the call stores 1 and returns 1 |
| `Sequences.NonPositiveCounterYieldsOne` | src/main/java/com/jfd/worker/mgmt/service/SequenceGeneratorService.java:41 | a negative stored counter is still incremented, and the caller gets 1 |
| `Sequences.Calls` | src/main/java/com/jfd/worker/mgmt/service/SequenceGeneratorService.java:31-42 | n successive calls return n values; after at least one call, the table has gained exactly the named counter |
| `Sequences.CallsCountUp` | src/main/java/com/jfd/worker/mgmt/service/SequenceGeneratorService.java:31-42 | from a counter c >= 0, n calls within the `int` range return c+1, ..., c+n in order, leave the counter at c+n, and leave every other counter alone |
| `Sequences.CallsStrictlyIncrease` | src/main/java/com/jfd/worker/mgmt/service/SequenceGeneratorService.java:31-42 | successive values within the `int` range strictly increase, so they are pairwise distinct |
| `Sequences.CallsFromFreshName` | src/main/java/com/jfd/worker/mgmt/service/SequenceGeneratorService.java:31-42 | from a fresh name, n calls return 1, ..., n, so the largest value is n |
| `Sequences.SequenceGeneratorService.GenerateSequence` | src/main/java/com/jfd/worker/mgmt/service/SequenceGeneratorService.java:31-42 | the table becomes the findAndModify result, and the call returns the corrected value for the new counter (see "## Findings") |
| `Sequences.SequenceGeneratorService.constructor` | src/main/java/com/jfd/worker/mgmt/service/SequenceGeneratorService.java:19-22 | the service starts over the given counter collection |
| `Sequences.NegativeCounterRepeatsOne` | src/main/java/com/jfd/worker/mgmt/service/SequenceGeneratorService.java:41 | from a counter at -2, three calls all return 1: the clamp recycles the id while the counter is not positive |
| `JavaText.IntToString` | src/main/java/com/jfd/worker/mgmt/service/WorkerService.java:83 | `Integer.toString`: a leading '-' exactly for negative numbers, followed by decimal digits |
| `JavaText.Trim` | src/main/java/com/jfd/worker/mgmt/model/registration/WorkerInformation.java:26 | `String.trim()`: the result is empty, or begins and ends with a character above U+0020 |
| `Registration.NotBlank` | src/main/java/com/jfd/worker/mgmt/model/registration/WorkerInformation.java:26 | @NotBlank: a string that passes is present and non-empty |
| `Registration.PhonePattern` | src/main/java/com/jfd/worker/mgmt/model/registration/WorkerInformation.java:33 | the language of `^\+?[0-9. ()-]{7,25}$`; a matching string has 7 to 26 characters |
| `Registration.IsValid` | src/main/java/com/jfd/worker/mgmt/model/registration/WorkerInformation.java:21-60 | the conjunction of all declared constraints; a valid record has age at least 18 and non-null name, phone number, EKYC data and address |
| `Registration.Violations` | src/main/java/com/jfd/worker/mgmt/model/registration/WorkerInformation.java:26-56 | the set of messages of the violated constraints: empty for a valid record, and it contains the age message when age is below 18 |
| `Registration.IdNotValidated` | src/main/java/com/jfd/worker/mgmt/model/registration/WorkerInformation.java:21-24 | no constraint applies to `id`: replacing it, as registration does, keeps a record valid or invalid |
| `Workers.MessageKey` | src/main/java/com/jfd/worker/mgmt/service/WorkerService.java:83 | the key `String.valueOf(getId())`: it parses back to the id, and is "null" when there is none |
| `Workers.PublishOutcome` | src/main/java/com/jfd/worker/mgmt/service/WorkerService.java:79-92 | publishing fails with the serialisation error exactly when serialisation fails; any other failure is the publish error |
| `JavaText.LongToInt` | src/main/java/com/jfd/worker/mgmt/service/SequenceGeneratorService.java:41 | the `(int)` cast gives an `int` congruent to its argument modulo 2^32, and the argument itself when that already fits |
| `JavaText.IntToStringRoundTrip` | src/main/java/com/jfd/worker/mgmt/service/WorkerService.java:83 | parsing the decimal rendering of an id gives the id back |
| `JavaText.IntToStringInjective` | src/main/java/com/jfd/worker/mgmt/service/WorkerService.java:83 | distinct ids have distinct decimal renderings |
| `JavaText.TrimEmptyIffAllTrimmable` | src/main/java/com/jfd/worker/mgmt/model/registration/WorkerInformation.java:26 | `trim()` leaves nothing exactly when every character is at most U+0020 |
| `Registration.ValidIffNoViolations` | src/main/java/com/jfd/worker/mgmt/model/registration/WorkerInformation.java:21-60 | a record satisfies every declared constraint exactly when the validator reports no violation message |
| `Registration.UnderageIsInvalid` | src/main/java/com/jfd/worker/mgmt/model/registration/WorkerInformation.java:29-30 | age below 18 makes the record invalid and reports the age message |
| `Registration.NotBlankIffVisibleChar` | src/main/java/com/jfd/worker/mgmt/model/registration/WorkerInformation.java:26-43 | name, phone number, EKYC data and address pass @NotBlank exactly when present with a character above U+0020 |
| `Registration.PhonePatternShape` | src/main/java/com/jfd/worker/mgmt/model/registration/WorkerInformation.java:32-34 | the phone pattern holds exactly when, after dropping one leading '+', 7 to 25 characters remain, all digits, '.', ' ', '(', ')' or '-' |
| `Registration.PhonePlusOnlyFirst` | src/main/java/com/jfd/worker/mgmt/model/registration/WorkerInformation.java:33 | a matching phone number has 7 to 26 characters, and a '+' only in first position |
| `Registration.BlankPhoneMatchesPattern` | src/main/java/com/jfd/worker/mgmt/model/registration/WorkerInformation.java:32-33 | seven spaces match the pattern but are blank, so both phone constraints are needed |
| `Workers.MessageKeyIdentifiesId` | src/main/java/com/jfd/worker/mgmt/service/WorkerService.java:83 | two records get the same message key `String.valueOf(id)` exactly when they carry the same id, "null" included |
| `Workers.PublishOutcomeCases` | src/main/java/com/jfd/worker/mgmt/service/WorkerService.java:79-92 | publishing succeeds exactly when serialisation and send both succeed; otherwise it raises the serialise or the publish error |
| `Workers.CopyEditableFields` | src/main/java/com/jfd/worker/mgmt/service/WorkerService.java:136-138 | the updated record takes name, phone number and address from the request, and keeps id, age, EKYC id and data, coordinates, status and timestamp |
| `Workers.CopyEditableFieldsIgnoresRest` | src/main/java/com/jfd/worker/mgmt/service/WorkerService.java:136-139 | the rest of the request, its id and timestamp included, has no effect on the update |
| `Workers.CopyEditableFieldsIdempotent` | src/main/java/com/jfd/worker/mgmt/service/WorkerService.java:136-138 | applying the same update twice gives the same record as applying it once |
| `Workers.CopyEditableFieldsNoChange` | src/main/java/com/jfd/worker/mgmt/service/WorkerService.java:136-138 | the update leaves the record unchanged exactly when the request repeats its name, phone number and address |
| `Workers.CopyEditableFieldsKeepsValidity` | src/main/java/com/jfd/worker/mgmt/service/WorkerService.java:131-141 | a valid stored record updated from a valid request is still valid |
| `Workers.AscendingKeys` | src/main/java/com/jfd/worker/mgmt/service/WorkerService.java:108-110 | the listing order: each stored id exactly once, in ascending order |
| `Workers.WorkerService.constructor` | src/main/java/com/jfd/worker/mgmt/service/WorkerService.java:38-47 | the service starts with an empty repository and no messages sent; the invariant holds when the worker counter is not negative |
| `Workers.WorkerService.PublishWorkerRegistrationEvent` | src/main/java/com/jfd/worker/mgmt/service/WorkerService.java:78-92 | on success, exactly one message goes out, with the configured topic, the key `String.valueOf(id)` and the serialised record; on failure, nothing goes out and the serialise or the publish error is raised |
| `Workers.WorkerService.RegisterWorker` | src/main/java/com/jfd/worker/mgmt/service/WorkerService.java:56-70 | the request's id is replaced by the new counter value. That id was never issued and is absent from the store. The store gains exactly that key, mapped to the record, and the invariant still holds. The call returns the saved record and sends its message. If publishing fails, the error is raised and the save stays. Under the corrected value (see "## Findings"), an out-of-range counter raises an error and saves nothing |
| `Workers.WorkerService.GetWorkerById` | src/main/java/com/jfd/worker/mgmt/service/WorkerService.java:99-102 | returns the stored record when the id is present, and raises not-found for that id otherwise |
| `Workers.WorkerService.GetAllWorkers` | src/main/java/com/jfd/worker/mgmt/service/WorkerService.java:108-110 | returns every stored record exactly once, each under its own id, in ascending id order |
| `Workers.WorkerService.DeleteWorkerById` | src/main/java/com/jfd/worker/mgmt/service/WorkerService.java:115-123 | a present id is removed and every other entry is unchanged; an absent id raises not-found and changes nothing |
| `Workers.WorkerService.UpdateWorkerById` | src/main/java/com/jfd/worker/mgmt/service/WorkerService.java:131-148 | an absent id raises not-found and creates nothing. For a present id, the record holds the copied request fields and is returned. No other entry changes and nothing is published |
| `Workers.RegisterTwoWorkers` | src/main/java/com/jfd/worker/mgmt/service/WorkerService.java:56-70 | on a fresh counter, two registrations get ids 1 and 2. Both records are listed afterwards, whatever publishing did |

## Findings

| source | as written | input that shows it | evidently intended | confidence | as-written member | corrected member |
|---|---|---|---|---|---|---|
| src/main/java/com/jfd/worker/mgmt/service/SequenceGeneratorService.java:41 | the positivity clamp is tested on the `long`, and the `(int)` cast comes after it, so a positive counter past 2^31 - 1 wraps | counter 2^31 returns -2147483648. Counter 2^32 + 1 returns 1, an id already issued, and `save` then overwrites worker 1 | the returned id is the counter, at least 1, and never recycled; a counter beyond `int` is reported (`Math.toIntExact`) | not executed; certain for the inputs shown, which need over 2^31 allocations | `Sequences.AsWrittenWrapsPastMaxInt` | `Sequences.ReturnedValue` |

The class method `GenerateSequence`, and so `RegisterWorker`, uses the corrected value. `Sequences.ReturnedValueAgreesInRange` proves that it equals the code's value whenever the counter fits in `int`.

## Left out

- Concurrency. The atomicity of `findAndModify` across callers and processes is not modelled: each call is one sequential step.
- `@Async` and the thread pool are left out, because they have no effect on this self-invoked private method.
- Kafka delivery: the future that `send` returns, and failures reported through it after `send` has returned, are not modelled. Only a synchronous throw from `send` is modelled, as `send` returning false.
- Jackson serialisation and ISO-8601 date rendering are a foreign library. `serialize` is an opaque function that may fail. So no round trip of the JSON payload is stated.
- Logging is output only.
- `LocalDateTime.now()` is a clock. Its reading is the `timestamp` value given when a record value is made.
- MongoDB failures (the store or counter collection being unreachable) are not modelled, because they are a foreign driver's exceptions.
- The natural order of `findAll` is the store's own. The model chooses ascending id order.
- `Objects.requireNonNull(counter)` is not modelled: with `upsert(true)` and `returnNew(true)`, the document is never null.
- The 64-bit overflow of the stored `long` counter under `$inc` is not modelled, because it needs 2^63 calls. Counters are unbounded integers.
- Latitude and longitude are read as reals. Double rounding, NaN and infinities are not modelled (floating point). The inclusive range checks are.
- `EkycId`'s constants are not part of the model. It is a datatype over an ordinal number.
- `String.trim` and the character class work on UTF-16 code units in Java. Here they work on Unicode scalar values.
- Validation happens when the controller binds a request body. The service does no validation of its own, and neither does the model. The `@Valid` on `updateWorkerById`'s parameter has no effect without `@Validated` on the class. `CopyEditableFieldsKeepsValidity` states what holds when both records were validated.
- `Sequences.SequenceGeneratorService.GenerateSequence`: for a counter beyond the `int` range it models the corrected program (see "## Findings"). It raises `SequenceOverflow`; the code instead returns the counter wrapped by the `(int)` cast.
- `Workers.WorkerService.RegisterWorker`: for a counter beyond the `int` range it models the corrected program (see "## Findings"). It raises an error and saves nothing; the code saves under the wrapped id and may overwrite an existing worker.
- `Workers.WorkerService.constructor`: the repository starts empty, whereas the Java constructor is handed a repository that may already hold records. It also requires a counter that is not negative. The code's own operations never make it negative. From a negative counter, the clamp at line 41 hands out id 1 on every call until the counter becomes positive (`Sequences.NegativeCounterRepeatsOne`). The fresh-id invariant then fails.
- The controller, the Kafka and Spring configuration, and the application class are plumbing with no logic: WorkerController.java, KafkaProducerConfig.java and WorkerMgmtApplication.java are not part of this model.
