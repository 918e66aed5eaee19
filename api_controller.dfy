/**
 * CarApiController, the REST controller under /cars/api: the outcome of a
 * service call becomes an HTTP status and a body. The text of a caught
 * exception's getMessage() is an input (message) the model does not derive.
 */
module ApiController {
  import opened Wrappers
  import opened Dates
  import opened Cars
  import opened Repository
  import opened CarSearch
  import opened Service
  import opened Statistics

  const Ok := 200
  const NotFound := 404
  const InternalServerError := 500

  const DeletedText := "Машина успешно удалена."
  const UpdatedText := "Машина успешно обновлена."
  const CarMissing := "Машина не найдена."
  const DeleteFailed := "Ошибка при удалении машины: "
  const UpdateFailed := "Ошибка при обновлении машины: "
  const AddedMessage := "Автомобиль успешно добавлен!"
  const AddFailed := "Ошибка при добавлении автомобиля: "

  /** A response body: plain text, or the JSON object {key: text}. */
  datatype Body = Text(text: string) | Json(key: string, value: string)

  datatype Response = Response(status: int, body: Body)

  /**
   * deleteCar: 200 on success, 404 when the service throws
   * EntityNotFoundException, 500 with the exception's message otherwise.
   */
  function DeleteCarResponse(outcome: Outcome, message: string): (r: Response)
    ensures r.status == Ok <==> outcome.Done?
    ensures r.status == NotFound <==> outcome == Fail(EntityNotFound)
    ensures r.status == InternalServerError <==> outcome.Fail? && outcome.error != EntityNotFound
    ensures r.status == Ok ==> r.body == Text(DeletedText)
    ensures r.status == NotFound ==> r.body == Text(CarMissing)
    ensures r.status == InternalServerError ==> r.body == Text(DeleteFailed + message)
  {
    match outcome
    case Done => Response(Ok, Text(DeletedText))
    case Fail(EntityNotFound) => Response(NotFound, Text(CarMissing))
    case Fail(_) => Response(InternalServerError, Text(DeleteFailed + message))
  }

  /** updateCar: the same mapping as deleteCar, with its own texts. */
  function UpdateCarResponse(outcome: Outcome, message: string): (r: Response)
    ensures r.status == Ok <==> outcome.Done?
    ensures r.status == NotFound <==> outcome == Fail(EntityNotFound)
    ensures r.status == InternalServerError <==> outcome.Fail? && outcome.error != EntityNotFound
    ensures r.status == Ok ==> r.body == Text(UpdatedText)
    ensures r.status == NotFound ==> r.body == Text(CarMissing)
    ensures r.status == InternalServerError ==> r.body == Text(UpdateFailed + message)
  {
    match outcome
    case Done => Response(Ok, Text(UpdatedText))
    case Fail(EntityNotFound) => Response(NotFound, Text(CarMissing))
    case Fail(_) => Response(InternalServerError, Text(UpdateFailed + message))
  }

  /** addCar: every exception is a 500 with an "error" object; success is a 200 with a "message" object. */
  function AddCarResponse(outcome: Outcome, message: string): (r: Response)
    ensures r.status == Ok <==> outcome.Done?
    ensures r.status == InternalServerError <==> outcome.Fail?
    ensures r.body.Json? && (r.body.key == "message" <==> outcome.Done?) && (r.body.key == "error" <==> outcome.Fail?)
    ensures outcome.Done? ==> r.body.value == AddedMessage
    ensures outcome.Fail? ==> r.body.value == AddFailed + message
  {
    if outcome.Done? then Response(Ok, Json("message", AddedMessage))
    else Response(InternalServerError, Json("error", AddFailed + message))
  }

  /** Deleting answers 404 exactly for an id that is not stored, 200 otherwise. */
  lemma DeleteAnswersByPresence(rows: seq<Car>, id: CarId, message: string)
    requires DistinctIds(rows)
    ensures var r := DeleteCarResponse(DeleteCarStep(rows, id).outcome, message);
            (r.status == NotFound <==> !HasId(rows, id)) && (r.status == Ok <==> HasId(rows, id))
  {
    if HasId(rows, id) {
      DeleteRemovesOnlyThatCar(rows, id);
    }
  }

  /**
   * Updating answers 404 exactly for an id that is not stored, and 500 for a
   * stored car whose date is null, for a payload missing brand or year, and
   * for a null old owner or a null new date.
   */
  lemma UpdateAnswersByCase(rows: seq<Car>, id: CarId, details: CarDetails, message: string)
    requires DistinctIds(rows)
    ensures var r := UpdateCarResponse(UpdateCarStep(rows, id, details).outcome, message);
            (r.status == NotFound <==> !HasId(rows, id)) &&
            (HasId(rows, id) && Lookup(rows, id).value.regDate.None? ==> r.status == InternalServerError) &&
            (HasId(rows, id) && (details.brand.None? || details.releaseYear.None?) ==> r.status == InternalServerError) &&
            (HasId(rows, id) && Lookup(rows, id).value.regDate.Some? && details.brand.Some? &&
             details.releaseYear.Some? && Lookup(rows, id).value.ownerName.Some? && details.regDate.Some?
             ==> r.status == Ok) &&
            (HasId(rows, id) && Lookup(rows, id).value.regDate.Some? && details.brand.Some? &&
             details.releaseYear.Some? && (Lookup(rows, id).value.ownerName.None? || details.regDate.None?)
             ==> r.status == InternalServerError)
  {
    if HasId(rows, id) {
      var existing := Lookup(rows, id).value;
      if existing.regDate.Some? && details.brand.Some? && details.releaseYear.Some? {
        if existing.ownerName.Some? && details.regDate.Some? {
          UpdateNotifiesIffChanged(rows, id, details);
        } else {
          UpdateFailsAfterSaveOnNull(rows, id, details);
        }
      }
    }
  }

  /** Adding answers 200 exactly when the car has a brand and a release year. */
  lemma AddAnswersByCompleteness(rows: seq<Car>, nextId: CarId, today: Date, car: CarDetails, message: string)
    ensures var r := AddCarResponse(AddCarStep(rows, nextId, today, car).outcome, message);
            r.status == Ok <==> car.brand.Some? && car.releaseYear.Some?
  {
  }

  class CarApiController {
    const service: CarService
    /** Cars issued per day, filled at construction (randomly in the application). */
    const issuedCars: map<Date, int>

    constructor (service: CarService, issuedCars: map<Date, int>)
      ensures this.service == service && this.issuedCars == issuedCars
    {
      this.service := service;
      this.issuedCars := issuedCars;
    }

    /** POST searchCars: each request parameter goes to the search parameter of the same name. */
    method SearchCars(brand: Option<string>, ownerName: Option<string>, startDate: Option<Date>,
                      endDate: Option<Date>, releaseYear: Option<int>) returns (cars: seq<Car>)
      ensures cars == SearchResult(service.rows, brand, startDate, endDate, releaseYear, ownerName)
    {
      cars := service.Search(brand, startDate, endDate, releaseYear, ownerName);
    }

    /** getCarsIssuedLastWeek: the 7-slot array of issued cars, today first. */
    method GetCarsIssuedLastWeek(today: Date) returns (carsIssued: array<int>)
      ensures fresh(carsIssued) && carsIssued.Length == WeekDays
      ensures forall i :: 0 <= i < WeekDays ==> carsIssued[i] == GetOrDefault(issuedCars, today - i, 0)
    {
      carsIssued := IssuedLastWeek(issuedCars, today);
    }

    method DeleteCar(id: CarId, message: string) returns (response: Response)
      requires service.Valid()
      modifies service
      ensures service.Valid()
      ensures var step := DeleteCarStep(old(service.rows), id);
              service.rows == step.rows && service.log == old(service.log) + step.sent &&
              response == DeleteCarResponse(step.outcome, message)
      ensures service.nextId == old(service.nextId)
    {
      var outcome := service.DeleteCarById(id);
      response := DeleteCarResponse(outcome, message);
    }

    method UpdateCar(id: CarId, carDetails: CarDetails, message: string) returns (response: Response)
      requires service.Valid()
      modifies service
      ensures service.Valid()
      ensures var step := UpdateCarStep(old(service.rows), id, carDetails);
              service.rows == step.rows && service.log == old(service.log) + step.sent &&
              response == UpdateCarResponse(step.outcome, message)
      ensures service.nextId == old(service.nextId)
    {
      var outcome := service.UpdateCar(id, carDetails);
      response := UpdateCarResponse(outcome, message);
    }

    method AddCar(today: Date, car: CarDetails, message: string) returns (response: Response)
      requires service.Valid()
      modifies service
      ensures service.Valid()
      ensures var step := AddCarStep(old(service.rows), old(service.nextId), today, car);
              service.rows == step.rows && service.log == old(service.log) + step.sent &&
              response == AddCarResponse(step.outcome, message)
      ensures service.nextId == if response.status == Ok then old(service.nextId) + 1 else old(service.nextId)
    {
      var outcome := service.AddCar(today, car);
      response := AddCarResponse(outcome, message);
    }
  }
}
