/**
 * CarController, the page controller: the POST /cars/search dispatch and the
 * /cars/statistics array. Date parsing (LocalDate.parse) is a parameter: it
 * yields the day a text names, or None where LocalDate.parse throws
 * DateTimeParseException.
 */
module MvcController {
  import opened Wrappers
  import opened Dates
  import opened Text
  import opened Cars
  import opened Service
  import opened Statistics

  /** Non-null and non-empty, the test the dispatch applies to each request parameter. */
  predicate Given(p: Option<string>)
  {
    p.Some? && p.value != ""
  }

  class CarController {
    const service: CarService
    /** Cars issued per day, filled at construction (randomly in the application). */
    const issuedCars: map<Date, int>

    constructor (service: CarService, issuedCars: map<Date, int>)
      ensures this.service == service && this.issuedCars == issuedCars
    {
      this.service := service;
      this.issuedCars := issuedCars;
    }

    /**
     * searchCars: a title wins and the dates are ignored; otherwise two
     * non-empty dates that both parse select the inclusive range, and a date
     * that fails to parse yields an empty list; with neither, every car.
     */
    function SearchCars(title: Option<string>, startDate: Option<string>, endDate: Option<string>,
                        parse: string -> Option<Date>): (r: seq<Car>)
      reads service
      ensures Given(title) ==>
        forall c :: c in r <==> c in service.rows && ContainsIgnoringCase(c.brand, title.value)
      ensures !Given(title) && Given(startDate) && Given(endDate) &&
              parse(startDate.value).Some? && parse(endDate.value).Some? ==>
        forall c :: c in r <==> c in service.rows && c.regDate.Some? &&
                                parse(startDate.value).value <= c.regDate.value <= parse(endDate.value).value
      ensures (!Given(title) && Given(startDate) && Given(endDate) &&
               (parse(startDate.value).None? || parse(endDate.value).None?)) ==> r == []
      ensures !Given(title) && !(Given(startDate) && Given(endDate)) ==> r == service.rows
      ensures service.Valid() ==> DistinctIds(r)
    {
      if Given(title) then service.FindByTitle(title.value)
      else if Given(startDate) && Given(endDate) then
        var start := parse(startDate.value);
        var end := parse(endDate.value);
        if start.None? || end.None? then []
        else service.FindByDateRange(start.value, end.value)
      else service.rows
    }

    /** getCarsIssuedLastWeek: the 7-slot array of issued cars, today first. */
    method GetCarsIssuedLastWeek(today: Date) returns (carsIssued: array<int>)
      ensures fresh(carsIssued) && carsIssued.Length == WeekDays
      ensures forall i :: 0 <= i < WeekDays ==> carsIssued[i] == GetOrDefault(issuedCars, today - i, 0)
    {
      carsIssued := IssuedLastWeek(issuedCars, today);
    }
  }

  /** With a title, the date parameters make no difference. */
  lemma TitleWins(controller: CarController, title: string, startDate: Option<string>, endDate: Option<string>,
                  otherStart: Option<string>, otherEnd: Option<string>, parse: string -> Option<Date>)
    requires title != ""
    ensures controller.SearchCars(Some(title), startDate, endDate, parse) ==
            controller.SearchCars(Some(title), otherStart, otherEnd, parse)
  {
  }

  /**
   * An empty answer on a non-empty table means the title matched nothing, a
   * date failed to parse, or no car was registered in the range.
   */
  lemma EmptyAnswerExplained(controller: CarController, title: Option<string>, startDate: Option<string>,
                             endDate: Option<string>, parse: string -> Option<Date>)
    requires controller.service.rows != []
    requires controller.SearchCars(title, startDate, endDate, parse) == []
    ensures var rows := controller.service.rows;
      (Given(title) && forall c :: c in rows ==> !ContainsIgnoringCase(c.brand, title.value)) ||
      (!Given(title) && Given(startDate) && Given(endDate) &&
       (parse(startDate.value).None? || parse(endDate.value).None? ||
        forall c :: c in rows ==>
          !(c.regDate.Some? && parse(startDate.value).value <= c.regDate.value <= parse(endDate.value).value)))
  {
  }
}
