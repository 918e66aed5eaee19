# Car inventory service: a Dafny model

This project models the core of a Spring car-inventory application:

- `CarService`, which adds, updates, deletes, looks up and searches cars.
  It also counts registrations per day and sends a notification for every change.
- The repository queries that `CarService` relies on (`CarRepository`).
- The two controllers' request handling that holds logic:
  - the `/cars/search` dispatch of `CarController`;
  - the 7-slot "cars issued last week" array;
  - the outcome-to-HTTP-status mapping of `CarApiController`.

## How the model is organised

- **`Cars` and `Notifications`** hold the entities as values. These are `Car`, the update payload `CarDetails`, the finder criteria, the exceptions (`Error`) and the three notifications the bot is sent.
- **`Repository`** models the table as a sequence of rows with distinct ids, in `findAll` order. It provides:
  - `Select` for the derived finders;
  - `Lookup` for `findById`;
  - what `save` does to a new or a stored car, and what `deleteById` does.
  Lemmas state each of these as "findById now answers … for this id and as before for every other id".
- **`CarService`** is a class. It has the table, the next identity value and a ghost log of sent notifications as fields.
  - Each state-changing operation is specified by a pure `Step` function in module `Service`. The step gives how the call ends, the table afterwards and the notifications sent.
  - The method is proved to perform exactly that step.
  - The properties the source promises are proved as lemmas about the steps.
- **`CarSearch`** defines the union search:
  - which criteria a call supplies, in order brand, range, year, owner;
  - the concatenated matches;
  - `Stream.distinct`, proved to keep each car once, at its first occurrence and in first-occurrence order;
  - the fallback to `findAll`.
- **`Changes`** models `determineChangedField`. It is proved equal to a reference definition, "the label of the first field in priority order that differs".
- **`Statistics`** models the per-day registration count and the issued-last-week array.
- **`MvcController` and `ApiController`** model the controller fragments. The REST responses are pure functions of the service outcome. Lemmas compose them with the service steps, for example "deleteCar answers 404 exactly when the id is not stored".

### Modelling choices

- **Dates** are day numbers.
  - `LocalDate.now()` is a `today` parameter.
  - `LocalDate.parse` is a `parse` parameter that returns `None` where the parser throws.
  - `LocalDate.toString` is a text rendering proved injective, because that is all `determineChangedField` relies on.
- **Java exceptions** are values: `Outcome = Done | Fail(Error)`.
  - `EntityNotFoundException` comes from update and delete, and `RuntimeException("Car not found")` from `findById`.
  - The `@NotNull` checks on brand and release year reject `save`.
  - A `NullPointerException` occurs where a null is dereferenced.
- **Null dereferences in `updateCar`** follow the code:
  - A stored car with a null registration date throws before anything is saved.
  - A null old owner name, or a null new registration date, throws after `save`. The table is then updated but no notification is sent, and the REST handler answers 500.
- **Search dedup.** `Car` does not override `equals`, so `Stream.distinct()` compares references. `CarService` is not `@Transactional`, so the finder calls of one search share a persistence context only when the web request keeps one open (Spring Boot's open-in-view default). The model takes that case: there is one instance per id, and dedup by reference is dedup by id.

## Model


| member | source | states |
|---|---|---|
| Dates.DateText | src/main/java/ru/evtu/kursovoy_new/second/CarService.java:109 | the model's rendering (the signed decimal day number, not the ISO text) is non-empty and starts with a minus sign exactly for a date before day zero |
| Dates.DateTextInjective | src/main/java/ru/evtu/kursovoy_new/second/CarService.java:272 | two dates render to the same text only when they are the same date, so the text comparison of old and new date compares the dates |
| Text.ContainsAtSomeOffset | src/main/java/ru/evtu/kursovoy_new/second/CarRepository.java:9 | "containing" holds exactly when the query occurs at some offset of the brand |
| Text.FoldCharIdentifiesSameLetters | src/main/java/ru/evtu/kursovoy_new/second/CarRepository.java:9-11 | case folding makes two characters equal exactly when they are equal or one is the capital of the other |
| Text.EqualsIgnoringCase | src/main/java/ru/evtu/kursovoy_new/second/CarRepository.java:11 | two texts are equal ignoring case exactly when they have the same length and at every position the same letter, or a capital and its small letter (Latin, Russian, Ё/ё) |
| Text.ContainsIgnoringCase | src/main/java/ru/evtu/kursovoy_new/second/CarRepository.java:9 | a brand contains a title ignoring case exactly when the folded title starts at some offset of the folded brand; so an empty title matches every brand, and a brand equal to the title ignoring case contains it |
| Cars.Matches | src/main/java/ru/evtu/kursovoy_new/second/CarRepository.java:9-13 | a car without a registration date never matches a date range, and a car without an owner never matches an owner name |
| Repository.Select | src/main/java/ru/evtu/kursovoy_new/second/CarRepository.java:9-13 | a derived finder returns exactly the stored cars that satisfy its criterion, never more rows than the table, and over a table no car twice |
| Repository.Lookup | src/main/java/ru/evtu/kursovoy_new/second/CarService.java:90 | findById finds a car exactly when one with that id is stored, and the car it returns is stored under that id |
| Repository.LookupFindsRow | src/main/java/ru/evtu/kursovoy_new/second/CarService.java:90 | on a table, findById of a stored car's id returns that car |
| Repository.InsertAddsOneEntry | src/main/java/ru/evtu/kursovoy_new/second/CarService.java:71 | saving a car with a fresh id keeps ids distinct; findById returns it for its id and what it returned before for every other id |
| Repository.Replace | src/main/java/ru/evtu/kursovoy_new/second/CarService.java:118 | saving a stored car keeps the table's length and the id at every position, and brings in no car other than the saved one |
| Repository.ReplaceKeepsIds | src/main/java/ru/evtu/kursovoy_new/second/CarService.java:118 | saving a stored car keeps the set of stored ids and their distinctness |
| Repository.ReplaceOverwritesOneEntry | src/main/java/ru/evtu/kursovoy_new/second/CarService.java:118 | saving a stored car overwrites that id's entry, and findById answers as before for every other id |
| Repository.Remove | src/main/java/ru/evtu/kursovoy_new/second/CarService.java:152 | deleteById keeps exactly the cars with another id |
| Repository.RemoveAbsent | src/main/java/ru/evtu/kursovoy_new/second/CarService.java:152 | deleting an id that is not stored leaves the table unchanged |
| Repository.RemoveDropsId | src/main/java/ru/evtu/kursovoy_new/second/CarService.java:152 | after deleteById no car with that id remains |
| Repository.RemoveKeepsDistinct | src/main/java/ru/evtu/kursovoy_new/second/CarService.java:152 | deleting keeps the ids of a table distinct |
| Repository.RemoveCount | src/main/java/ru/evtu/kursovoy_new/second/CarService.java:152 | deleting a stored id from a table removes exactly one row |
| Repository.RemoveDropsOneEntry | src/main/java/ru/evtu/kursovoy_new/second/CarService.java:152 | after deleteById, findById finds nothing for that id and answers as before for every other id |
| CarSearch.Supplied | src/main/java/ru/evtu/kursovoy_new/second/CarService.java:210-221 | a criterion is used exactly when its parameter is non-null, the brand and owner also non-empty, and the range only with both ends |
| CarSearch.SuppliedInSearchOrder | src/main/java/ru/evtu/kursovoy_new/second/CarService.java:210-221 | the criteria are consulted in the order brand, range, year, owner, each at most once |
| CarSearch.Gathered | src/main/java/ru/evtu/kursovoy_new/second/CarService.java:207-221 | the list search builds by appending each supplied finder's result in turn; its members are given by CarSearch.GatheredMembers and its order by CarSearch.SuppliedInSearchOrder |
| CarSearch.GatheredMembers | src/main/java/ru/evtu/kursovoy_new/second/CarService.java:207-221 | the concatenated list holds exactly the stored cars that match at least one supplied criterion |
| CarSearch.Distinct | src/main/java/ru/evtu/kursovoy_new/second/CarService.java:224 | distinct yields no repeated car, only cars from its input, every input car's id, and is empty only for empty input |
| CarSearch.DistinctOfTableRows | src/main/java/ru/evtu/kursovoy_new/second/CarService.java:224 | over cars drawn from a table, distinct keeps exactly the cars of its input, dropping only repeats |
| CarSearch.DistinctAtFirstOccurrences | src/main/java/ru/evtu/kursovoy_new/second/CarService.java:224 | each kept car is the first element of the input with its id |
| CarSearch.DistinctInFirstOccurrenceOrder | src/main/java/ru/evtu/kursovoy_new/second/CarService.java:224 | the kept cars come in the order of their first occurrences in the input |
| CarSearch.SearchResult | src/main/java/ru/evtu/kursovoy_new/second/CarService.java:206-231 | search only ever returns stored cars |
| CarSearch.SearchWithoutCriteriaIsFindAll | src/main/java/ru/evtu/kursovoy_new/second/CarService.java:206-231 | with no criterion supplied, search returns the whole table |
| CarSearch.HalfOpenRangeIsIgnored | src/main/java/ru/evtu/kursovoy_new/second/CarService.java:213 | a range with one end missing has no effect on the result |
| CarSearch.SearchHasNoDuplicates | src/main/java/ru/evtu/kursovoy_new/second/CarService.java:224-230 | search never returns the same car twice |
| CarSearch.SearchIsUnion | src/main/java/ru/evtu/kursovoy_new/second/CarService.java:210-230 | when some car matches some criterion, search returns exactly the cars matching at least one supplied criterion |
| CarSearch.SearchFallsBackToFindAll | src/main/java/ru/evtu/kursovoy_new/second/CarService.java:226-227 | when no car matches any supplied criterion, search returns the whole table |
| CarSearch.SearchEmptyOnlyForEmptyTable | src/main/java/ru/evtu/kursovoy_new/second/CarService.java:224-230 | search returns an empty list exactly when the table is empty |
| CarSearch.SearchKeepsFirstOccurrenceOrder | src/main/java/ru/evtu/kursovoy_new/second/CarService.java:207-230 | the result lists the matching cars at their first occurrence in, and in the order of, the brand-range-year-owner concatenation |
| Changes.DetermineChangedField | src/main/java/ru/evtu/kursovoy_new/second/CarService.java:264-276 | a null old owner always throws; the only failure is a null dereference; a returned value is "" or one of the four labels |
| Changes.FirstChange | src/main/java/ru/evtu/kursovoy_new/second/CarService.java:266-274 | reference definition: none exactly when no field differs, else the first differing field of the list |
| Changes.ChangedFieldIsFirstDifference | src/main/java/ru/evtu/kursovoy_new/second/CarService.java:264-276 | with the old owner and both dates present, the label is that of the first field in order owner, brand, year, date that changed, or "" |
| Changes.ChangedFieldEmptyIffUnchanged | src/main/java/ru/evtu/kursovoy_new/second/CarService.java:264-276 | the result is "" exactly when none of the four fields changed |
| Statistics.CountOn | src/main/java/ru/evtu/kursovoy_new/second/CarService.java:242-247 | a day's count never exceeds the number of stored cars |
| Statistics.CountOnIsSingleDayFinder | src/main/java/ru/evtu/kursovoy_new/second/CarService.java:242-247 | a day's count is the number of cars a single-day date-range query returns |
| Statistics.CountOnPositiveIffRegistered | src/main/java/ru/evtu/kursovoy_new/second/CarService.java:242-247 | a day's count is positive exactly when some car was registered that day |
| Statistics.UndatedCarsAreNotCounted | src/main/java/ru/evtu/kursovoy_new/second/CarService.java:245 | adding or removing undated cars changes no count |
| Statistics.IssuedLastWeek | src/main/java/ru/evtu/kursovoy_new/second/CarController.java:119-130 | a new 7-slot array whose slot i is the table's value for today minus i days, or 0 when that day is absent |
| Service.AddCarStep | src/main/java/ru/evtu/kursovoy_new/second/CarService.java:69-80 | addCar succeeds exactly when brand and release year are present; a failure is the constraint violation with nothing stored or sent; a success appends one row and sends one notice |
| Service.UpdateCarStep | src/main/java/ru/evtu/kursovoy_new/second/CarService.java:101-131 | updateCar fails with not-found exactly when the id is not stored; the table changes only for a stored car and a payload with brand and year, and keeps its size; at most one notice is sent, and only on success |
| Service.DeleteCarStep | src/main/java/ru/evtu/kursovoy_new/second/CarService.java:139-153 | deleteCarById succeeds exactly when the id is stored; a failure is not-found with nothing changed or sent; a success sends one notice; afterwards exactly the cars with another id remain |
| Service.Overwrite | src/main/java/ru/evtu/kursovoy_new/second/CarService.java:112-115 | the four setters replace brand, year, date and owner and leave the id alone |
| Service.AddCarRejectsIncompleteCar | src/main/java/ru/evtu/kursovoy_new/second/CarService.java:69-71 | a car without brand or release year is not saved and no notification is sent |
| Service.AddedCarIsFoundWithTodaysDate | src/main/java/ru/evtu/kursovoy_new/second/CarService.java:69-80 | addCar stores the car under the next id with today's date; findById then returns it, every other id is unaffected, the table invariant holds, and one addition notice carries the stored values |
| Service.AddCarIgnoresSubmittedDate | src/main/java/ru/evtu/kursovoy_new/second/CarService.java:70 | the registration date a caller submits has no effect |
| Service.UpdateOfMissingIdIsNotFound | src/main/java/ru/evtu/kursovoy_new/second/CarService.java:102-103 | updating an unknown id fails with EntityNotFoundException and changes nothing |
| Service.UpdateOfUndatedCarChangesNothing | src/main/java/ru/evtu/kursovoy_new/second/CarService.java:106-109 | a stored car with a null date makes updateCar throw before anything is saved |
| Service.UpdateRejectsIncompleteDetails | src/main/java/ru/evtu/kursovoy_new/second/CarService.java:111-118 | a payload without brand or release year is rejected by save, and nothing changes |
| Service.UpdateOverwritesFourFields | src/main/java/ru/evtu/kursovoy_new/second/CarService.java:111-118 | once saved, the stored car has all four fields from the payload; the id set is unchanged and every other id still finds its old car |
| Service.UpdateNotifiesIffChanged | src/main/java/ru/evtu/kursovoy_new/second/CarService.java:120-130 | with the old owner and date and the new date present, the update succeeds and sends one notice exactly when a field changed, naming the first changed field in priority order |
| Service.UpdateFailsAfterSaveOnNull | src/main/java/ru/evtu/kursovoy_new/second/CarService.java:118-130 | a null old owner or a null new date throws after the save: the table holds the overwritten car and no notice is sent |
| Service.DeleteOfMissingIdIsNotFound | src/main/java/ru/evtu/kursovoy_new/second/CarService.java:141-142 | deleting an unknown id fails with EntityNotFoundException, changes nothing and sends nothing |
| Service.DeleteRemovesOnlyThatCar | src/main/java/ru/evtu/kursovoy_new/second/CarService.java:139-153 | deleting a stored id removes that car only and sends one notice with its brand, its date or "не указана" and its owner or "не указан" |
| Service.CarService.FindByTitle | src/main/java/ru/evtu/kursovoy_new/second/CarService.java:49-51 | exactly the cars whose brand contains the title, ignoring case; on a table, no car twice |
| Service.CarService.FindByDateRange | src/main/java/ru/evtu/kursovoy_new/second/CarService.java:60-62 | exactly the cars with a registration date in the inclusive range; on a table, no car twice |
| Service.CarService.FindByBrand | src/main/java/ru/evtu/kursovoy_new/second/CarService.java:172-174 | exactly the cars whose brand equals the given one, ignoring case; on a table, no car twice |
| Service.CarService.FindByReleaseYear | src/main/java/ru/evtu/kursovoy_new/second/CarService.java:182-184 | exactly the cars released in the given year; on a table, no car twice |
| Service.CarService.FindByOwnerName | src/main/java/ru/evtu/kursovoy_new/second/CarService.java:192-194 | exactly the cars whose owner name equals the given one; a car without owner never matches; on a table, no car twice |
| Service.CarService.FindById | src/main/java/ru/evtu/kursovoy_new/second/CarService.java:89-92 | returns the stored car with that id, or fails with "Car not found" exactly when none is stored |
| Service.CarService.AddCar | src/main/java/ru/evtu/kursovoy_new/second/CarService.java:69-80 | performs the addCar step, keeps the table invariant and advances the id generator only on success |
| Service.CarService.UpdateCar | src/main/java/ru/evtu/kursovoy_new/second/CarService.java:101-131 | performs the updateCar step and keeps the table invariant and the id generator |
| Service.CarService.DeleteCarById | src/main/java/ru/evtu/kursovoy_new/second/CarService.java:139-153 | performs the deleteCarById step and keeps the table invariant and the id generator; the body notifies before deleting |
| Service.CarService.Search | src/main/java/ru/evtu/kursovoy_new/second/CarService.java:206-231 | the returned list is the search result the CarSearch lemmas describe |
| Service.CarService.GetRegCarsCountByDay | src/main/java/ru/evtu/kursovoy_new/second/CarService.java:238-252 | a day is a key exactly when it is after today minus 7 days and some car was registered on it; its value is that day's count |
| MvcController.CarController.SearchCars | src/main/java/ru/evtu/kursovoy_new/second/CarController.java:76-99 | a title selects by brand; otherwise two parsable dates select the inclusive range, an unparsable one gives an empty list, and anything else gives every car; over a table no car is listed twice |
| MvcController.CarController.GetCarsIssuedLastWeek | src/main/java/ru/evtu/kursovoy_new/second/CarController.java:119-130 | a new 7-slot array whose slot i is the table's value for today minus i days, with 0 as the default |
| MvcController.TitleWins | src/main/java/ru/evtu/kursovoy_new/second/CarController.java:83-84 | with a non-empty title the date parameters make no difference |
| MvcController.EmptyAnswerExplained | src/main/java/ru/evtu/kursovoy_new/second/CarController.java:83-96 | on a non-empty table an empty answer means the title matched nothing, or a date did not parse, or nothing was registered in the range |
| ApiController.DeleteCarResponse | src/main/java/ru/evtu/kursovoy_new/second/CarApiController.java:82-91 | status 200 exactly on success, 404 exactly for EntityNotFoundException, 500 with the message for any other failure |
| ApiController.UpdateCarResponse | src/main/java/ru/evtu/kursovoy_new/second/CarApiController.java:104-114 | status 200 exactly on success, 404 exactly for EntityNotFoundException, 500 with the message for any other failure |
| ApiController.AddCarResponse | src/main/java/ru/evtu/kursovoy_new/second/CarApiController.java:135-143 | 200 with a "message" object exactly on success, 500 with an "error" object for any failure |
| ApiController.DeleteAnswersByPresence | src/main/java/ru/evtu/kursovoy_new/second/CarApiController.java:82-91 | deleteCar answers 404 exactly when the id is not stored and 200 exactly when it is |
| ApiController.UpdateAnswersByCase | src/main/java/ru/evtu/kursovoy_new/second/CarApiController.java:104-114 | updateCar answers 404 exactly for an unknown id, 500 for a stored undated car, an incomplete payload, a null old owner or a null new date, and 200 when owner and dates are present |
| ApiController.AddAnswersByCompleteness | src/main/java/ru/evtu/kursovoy_new/second/CarApiController.java:135-143 | addCar answers 200 exactly when the car has a brand and a release year |
| ApiController.CarApiController.SearchCars | src/main/java/ru/evtu/kursovoy_new/second/CarApiController.java:48-55 | each request parameter reaches the search parameter of the same name, whatever the argument order |
| ApiController.CarApiController.GetCarsIssuedLastWeek | src/main/java/ru/evtu/kursovoy_new/second/CarApiController.java:63-73 | a new 7-slot array whose slot i is the table's value for today minus i days, with 0 as the default |
| ApiController.CarApiController.DeleteCar | src/main/java/ru/evtu/kursovoy_new/second/CarApiController.java:82-91 | performs the deleteCarById step, leaves the id generator alone, and answers with the response for its outcome |
| ApiController.CarApiController.UpdateCar | src/main/java/ru/evtu/kursovoy_new/second/CarApiController.java:104-114 | performs the updateCar step, leaves the id generator alone, and answers with the response for its outcome |
| ApiController.CarApiController.AddCar | src/main/java/ru/evtu/kursovoy_new/second/CarApiController.java:135-143 | performs the addCar step, advances the id generator exactly when it answers 200, and answers with the response for its outcome |

## Left out

- **Telegram notifications.** The message formatting and the Telegram transport of `TelegramBotService` are not modelled. Notifications are recorded as values in a ghost log. A failure while sending is not modelled either.
- **Clock and date parsing.** `LocalDate.now()` is the `today` parameter, and `LocalDate.parse` is the `parse` parameter. The ISO rendering of `LocalDate.toString` is not modelled.
- Dates.DateText: writes the day number in decimal rather than as ISO yyyy-mm-dd. The model relies only on its injectivity.
- **Random seeding.** `issuedCars` is seeded with `Math.random`, so the table is a constructor parameter.
- **Exception messages.** The text of `e.getMessage()` in 500 bodies is the `message` parameter. The messages the frameworks generate are not modelled.
- **Passive endpoints.** Some endpoints are page handlers or pass-throughs with no logic:
  - `getAllCars`, `showAddCarForm`, `showSearchPage`, `showHistogram` and `showAbout`;
  - GET `/cars/api/search` (a copy of `findAll`);
  - `getRegCountByDay` (wraps `getRegCarsCountByDay`);
  - `getModels` and `getAllBrands`.
  `findAll` is the `rows` field itself.
- **Other files.** `CarBrand`, `CarModel`, `CarModelRepository`, `SecurityConfig` and `BotTokenConfig` are not part of this model.
- **`findByRegDateBetween`.** It runs the same query as `findByDateRange`, so it is modelled once, as `FindByDateRange`.
- **Caller-supplied ids.** `addCar` for a car that carries a caller-supplied id is not modelled, because merge semantics depend on the persistence provider. The model always takes the next identity value.
- **Database and runtime failures.** Database failures other than the `@NotNull` checks are not modelled: connection loss, transactions, concurrent requests. Neither is a null `id` path variable.
- **Table order.** The order of `findAll` is fixed as insertion order. The database does not promise an order.
- **Case-insensitive matching.** It covers Latin and Russian letters only. The database collation's full Unicode case mapping is not modelled.
- CarSearch.Distinct: assumes the queries of one search share a persistence context (open-in-view). Without one, the source lists a car once per finder that returned it.
- **Integer widths.** `Long` ids are non-negative unbounded integers, so a negative path id cannot be expressed; the application answers it 404 like any absent id. Counts and `Integer` years are unbounded integers. No overflow is modelled.
