/**
 * CarService: the operations on the car table, with the notifications they
 * send. Each mutating operation is described by a Step function (how it ends,
 * the table afterwards, the notifications sent) and implemented by a method of
 * the class CarService that is proved to perform exactly that step.
 */
module Service {
  import opened Wrappers
  import opened Dates
  import opened Text
  import opened Cars
  import opened Repository
  import opened CarSearch
  import opened Changes
  import opened Statistics
  import opened Notifications

  /** Placeholders the deletion notice uses for a null date and a null owner. */
  const NoDate := "не указана"
  const NoOwner := "не указан"

  datatype Step = Step(outcome: Outcome, rows: seq<Car>, sent: seq<Notification>)

  /** The invariant of the table: distinct ids, all below the next id the generator hands out. */
  predicate WellFormed(rows: seq<Car>, nextId: CarId)
  {
    DistinctIds(rows) && forall c :: c in rows ==> c.id < nextId
  }

  /** Overwriting a stored car keeps the table invariant. */
  lemma ReplacePreservesWellFormed(rows: seq<Car>, nextId: CarId, car: Car)
    requires WellFormed(rows, nextId) && HasId(rows, car.id)
    ensures WellFormed(Replace(rows, car), nextId)
  {
    ReplaceKeepsIds(rows, car);
    forall c | c in Replace(rows, car) ensures c.id < nextId {
      var k :| 0 <= k < |rows| && Replace(rows, car)[k] == c;
      assert HasId(rows, c.id);
    }
  }

  /** addCar: stamp today's date, save (rejected when brand or year is null), then notify. */
  function AddCarStep(rows: seq<Car>, nextId: CarId, today: Date, car: CarDetails): (r: Step)
    ensures r.outcome.Done? <==> car.brand.Some? && car.releaseYear.Some?
    ensures r.outcome.Fail? ==> r.outcome.error == ConstraintViolation && r.rows == rows && r.sent == []
    ensures r.outcome.Done? ==> |r.rows| == |rows| + 1 && r.rows[..|rows|] == rows && |r.sent| == 1
  {
    if car.brand.None? || car.releaseYear.None? then Step(Fail(ConstraintViolation), rows, [])
    else
      var saved := Car(nextId, car.brand.value, car.releaseYear.value, Some(today), car.ownerName);
      Step(Done, rows + [saved], [Added(saved.brand, saved.releaseYear, DateText(today), saved.ownerName)])
  }

  /** The car after updateCar's four setters: every tracked field comes from the payload. */
  function Overwrite(existing: Car, details: CarDetails): (r: Car)
    requires details.brand.Some? && details.releaseYear.Some?
    ensures r.id == existing.id
  {
    existing.(brand := details.brand.value, releaseYear := details.releaseYear.value,
              regDate := details.regDate, ownerName := details.ownerName)
  }

  /**
   * updateCar: find or fail; read the old values (the old date is dereferenced);
   * overwrite and save; then determine the changed field and notify when there
   * is one (the new date is dereferenced for the notice).
   */
  function UpdateCarStep(rows: seq<Car>, id: CarId, details: CarDetails): (r: Step)
    ensures r.outcome == Fail(EntityNotFound) <==> !HasId(rows, id)
    ensures r.rows != rows ==> HasId(rows, id) && details.brand.Some? && details.releaseYear.Some?
    ensures |r.rows| == |rows|
    ensures |r.sent| <= 1 && (r.sent != [] ==> r.outcome.Done?)
  {
    match Lookup(rows, id)
    case None => Step(Fail(EntityNotFound), rows, [])
    case Some(existing) =>
      if existing.regDate.None? then Step(Fail(NullDereference), rows, [])
      else if details.brand.None? || details.releaseYear.None? then Step(Fail(ConstraintViolation), rows, [])
      else
        var updated := Overwrite(existing, details);
        var saved := Replace(rows, updated);
        match DetermineChangedField(existing.ownerName, existing.brand, existing.releaseYear,
                                    DateText(existing.regDate.value), updated)
        case Failure(e) => Step(Fail(e), saved, [])
        case Success(field) =>
          if field == "" then Step(Done, saved, [])
          else if updated.regDate.None? then Step(Fail(NullDereference), saved, [])
          else Step(Done, saved, [Updated(updated.brand, updated.releaseYear, DateText(updated.regDate.value),
                                          updated.ownerName, field)])
  }

  /** deleteCarById: find or fail; notify, with placeholders for null fields; then delete. */
  function DeleteCarStep(rows: seq<Car>, id: CarId): (r: Step)
    ensures r.outcome.Done? <==> HasId(rows, id)
    ensures r.outcome.Fail? ==> r.outcome.error == EntityNotFound && r.rows == rows && r.sent == []
    ensures |r.sent| == if r.outcome.Done? then 1 else 0
    ensures forall c :: c in r.rows <==> c in rows && c.id != id
  {
    match Lookup(rows, id)
    case None => Step(Fail(EntityNotFound), rows, [])
    case Some(c) =>
      var date := if c.regDate.Some? then DateText(c.regDate.value) else NoDate;
      var owner := if c.ownerName.Some? then c.ownerName.value else NoOwner;
      Step(Done, Remove(rows, id), [Deleted(c.brand, date, owner)])
  }

  lemma FreshIdIsUnused(rows: seq<Car>, nextId: CarId)
    requires WellFormed(rows, nextId)
    ensures !HasId(rows, nextId)
  {
    forall k | 0 <= k < |rows| ensures rows[k].id != nextId {
      assert rows[k] in rows;
    }
  }

  /** A car missing its brand or year is not saved and nothing is sent. */
  lemma AddCarRejectsIncompleteCar(rows: seq<Car>, nextId: CarId, today: Date, car: CarDetails)
    requires car.brand.None? || car.releaseYear.None?
    ensures AddCarStep(rows, nextId, today, car) == Step(Fail(ConstraintViolation), rows, [])
  {
  }

  /**
   * addCar then findById: the new car is stored under the next id with the
   * submitted brand, year and owner and today's date, nothing else in the table
   * changes, the invariant is kept, and one notice carries the stored values.
   */
  lemma AddedCarIsFoundWithTodaysDate(rows: seq<Car>, nextId: CarId, today: Date, car: CarDetails)
    requires WellFormed(rows, nextId)
    requires car.brand.Some? && car.releaseYear.Some?
    ensures var step := AddCarStep(rows, nextId, today, car);
            var stored := Car(nextId, car.brand.value, car.releaseYear.value, Some(today), car.ownerName);
            step.outcome == Done && WellFormed(step.rows, nextId + 1) &&
            (forall id :: Lookup(step.rows, id) == if id == nextId then Some(stored) else Lookup(rows, id)) &&
            step.sent == [Added(stored.brand, stored.releaseYear, DateText(stored.regDate.value), stored.ownerName)]
  {
    var stored := Car(nextId, car.brand.value, car.releaseYear.value, Some(today), car.ownerName);
    FreshIdIsUnused(rows, nextId);
    InsertAddsOneEntry(rows, stored);
  }

  /** The date a caller submits to addCar has no effect. */
  lemma AddCarIgnoresSubmittedDate(rows: seq<Car>, nextId: CarId, today: Date, car: CarDetails, date: Option<Date>)
    ensures AddCarStep(rows, nextId, today, car) == AddCarStep(rows, nextId, today, car.(regDate := date))
  {
  }

  /** updateCar on an unknown id fails with not-found and changes nothing. */
  lemma UpdateOfMissingIdIsNotFound(rows: seq<Car>, id: CarId, details: CarDetails)
    requires !HasId(rows, id)
    ensures UpdateCarStep(rows, id, details) == Step(Fail(EntityNotFound), rows, [])
  {
  }

  /** A stored car without a registration date makes updateCar throw before anything is saved. */
  lemma UpdateOfUndatedCarChangesNothing(rows: seq<Car>, id: CarId, details: CarDetails)
    requires HasId(rows, id) && Lookup(rows, id).value.regDate.None?
    ensures UpdateCarStep(rows, id, details) == Step(Fail(NullDereference), rows, [])
  {
  }

  /** A payload without brand or year is rejected by save, so nothing changes. */
  lemma UpdateRejectsIncompleteDetails(rows: seq<Car>, id: CarId, details: CarDetails)
    requires HasId(rows, id) && Lookup(rows, id).value.regDate.Some?
    requires details.brand.None? || details.releaseYear.None?
    ensures UpdateCarStep(rows, id, details) == Step(Fail(ConstraintViolation), rows, [])
  {
  }

  /**
   * Once past the old-date read and validation, updateCar has stored the car
   * with all four fields taken from the payload, whatever happens after the
   * save: only that id's entry changes.
   */
  lemma UpdateOverwritesFourFields(rows: seq<Car>, id: CarId, details: CarDetails)
    requires DistinctIds(rows) && HasId(rows, id) && Lookup(rows, id).value.regDate.Some?
    requires details.brand.Some? && details.releaseYear.Some?
    ensures var step := UpdateCarStep(rows, id, details);
            var stored := Car(id, details.brand.value, details.releaseYear.value, details.regDate, details.ownerName);
            DistinctIds(step.rows) &&
            (forall k :: Lookup(step.rows, k) == if k == id then Some(stored) else Lookup(rows, k)) &&
            (forall k :: HasId(step.rows, k) <==> HasId(rows, k))
  {
    var existing := Lookup(rows, id).value;
    ReplaceOverwritesOneEntry(rows, Overwrite(existing, details));
  }

  /**
   * With the old owner and date and the new date all present, updateCar
   * succeeds, and it sends a notice exactly when one of the four fields
   * changed; the notice names the first changed field in the order owner,
   * brand, year, date.
   */
  lemma UpdateNotifiesIffChanged(rows: seq<Car>, id: CarId, details: CarDetails)
    requires HasId(rows, id)
    requires Lookup(rows, id).value.ownerName.Some? && Lookup(rows, id).value.regDate.Some?
    requires details.brand.Some? && details.releaseYear.Some? && details.regDate.Some?
    ensures var before := Lookup(rows, id).value;
            var after := Overwrite(before, details);
            var step := UpdateCarStep(rows, id, details);
            step.outcome == Done &&
            (step.sent == [] <==> Unchanged(before, after)) &&
            (!Unchanged(before, after) ==>
               FirstChange(Priority, before, after).Some? &&
               step.sent == [Updated(after.brand, after.releaseYear, DateText(after.regDate.value),
                                     after.ownerName, Label(FirstChange(Priority, before, after).value))])
  {
    var before := Lookup(rows, id).value;
    var after := Overwrite(before, details);
    ChangedFieldIsFirstDifference(before, after);
    ChangedFieldEmptyIffUnchanged(before, after);
    if !Unchanged(before, after) {
      assert Differs(Owner, before, after) || Differs(Brand, before, after) ||
             Differs(Year, before, after) || Differs(RegDate, before, after);
      assert Priority[0] == Owner && Priority[1] == Brand && Priority[2] == Year && Priority[3] == RegDate;
    }
  }

  /**
   * A null old owner or a null new date makes updateCar throw after the save:
   * the table holds the overwritten car and no notice is sent.
   */
  lemma UpdateFailsAfterSaveOnNull(rows: seq<Car>, id: CarId, details: CarDetails)
    requires HasId(rows, id) && Lookup(rows, id).value.regDate.Some?
    requires details.brand.Some? && details.releaseYear.Some?
    requires Lookup(rows, id).value.ownerName.None? || details.regDate.None?
    ensures var step := UpdateCarStep(rows, id, details);
            step == Step(Fail(NullDereference), Replace(rows, Overwrite(Lookup(rows, id).value, details)), [])
  {
  }

  /** deleteCarById on an unknown id fails with not-found, changes nothing and sends nothing. */
  lemma DeleteOfMissingIdIsNotFound(rows: seq<Car>, id: CarId)
    requires !HasId(rows, id)
    ensures DeleteCarStep(rows, id) == Step(Fail(EntityNotFound), rows, [])
  {
  }

  /**
   * deleteCarById on a stored id removes that entry and no other, and sends
   * one deletion notice with the car's brand, its date or "не указана", and its
   * owner or "не указан".
   */
  lemma DeleteRemovesOnlyThatCar(rows: seq<Car>, id: CarId)
    requires DistinctIds(rows) && HasId(rows, id)
    ensures var c := Lookup(rows, id).value;
            var step := DeleteCarStep(rows, id);
            step.outcome == Done && DistinctIds(step.rows) &&
            (forall k :: Lookup(step.rows, k) == if k == id then None else Lookup(rows, k)) &&
            |step.sent| == 1 && step.sent[0].Deleted? && step.sent[0].brand == c.brand &&
            (c.regDate.None? ==> step.sent[0].regDate == NoDate) &&
            (c.regDate.Some? ==> step.sent[0].regDate == DateText(c.regDate.value)) &&
            (c.ownerName.None? ==> step.sent[0].owner == NoOwner) &&
            (c.ownerName.Some? ==> step.sent[0].owner == c.ownerName.value)
  {
    RemoveDropsOneEntry(rows, id);
    RemoveDropsId(rows, id);
  }

  class CarService {
    /** The car table, in the order findAll returns it. */
    var rows: seq<Car>
    /** The next id the identity column hands out. */
    var nextId: CarId
    /** Every notification sent so far, oldest first. */
    ghost var log: seq<Notification>

    ghost predicate Valid()
      reads this
    {
      WellFormed(rows, nextId)
    }

    constructor (table: seq<Car>, firstFreeId: CarId)
      requires WellFormed(table, firstFreeId)
      ensures Valid() && rows == table && nextId == firstFreeId && log == []
    {
      rows, nextId, log := table, firstFreeId, [];
    }

    /** findByTitle: cars whose brand contains the title, ignoring case. */
    function FindByTitle(title: string): (r: seq<Car>)
      reads this
      ensures Valid() ==> DistinctIds(r)
      ensures forall c :: c in r <==> c in rows && ContainsIgnoringCase(c.brand, title)
    {
      Select(rows, BrandContains(title))
    }

    /** findByDateRange and findByRegDateBetween: cars registered from startDate to endDate inclusive. */
    function FindByDateRange(startDate: Date, endDate: Date): (r: seq<Car>)
      reads this
      ensures Valid() ==> DistinctIds(r)
      ensures forall c :: c in r <==> c in rows && c.regDate.Some? && startDate <= c.regDate.value <= endDate
    {
      Select(rows, RegBetween(startDate, endDate))
    }

    /** findByBrand: cars whose brand equals the given one, ignoring case. */
    function FindByBrand(brand: string): (r: seq<Car>)
      reads this
      ensures Valid() ==> DistinctIds(r)
      ensures forall c :: c in r <==> c in rows && EqualsIgnoringCase(c.brand, brand)
    {
      Select(rows, BrandIs(brand))
    }

    /** findByReleaseYear: cars released in the given year. */
    function FindByReleaseYear(releaseYear: int): (r: seq<Car>)
      reads this
      ensures Valid() ==> DistinctIds(r)
      ensures forall c :: c in r <==> c in rows && c.releaseYear == releaseYear
    {
      Select(rows, YearIs(releaseYear))
    }

    /** findByOwnerName: cars whose owner name is exactly the given one (never a car without owner). */
    function FindByOwnerName(ownerName: string): (r: seq<Car>)
      reads this
      ensures Valid() ==> DistinctIds(r)
      ensures forall c :: c in r <==> c in rows && c.ownerName == Some(ownerName)
    {
      Select(rows, OwnerIs(ownerName))
    }

    /** findById: the car with that id, or RuntimeException("Car not found"). */
    function FindById(id: CarId): (r: Result<Car, Error>)
      reads this
      ensures r.Success? <==> HasId(rows, id)
      ensures r.Success? ==> r.value in rows && r.value.id == id
      ensures r.Failure? ==> r.error == CarNotFound
    {
      match Lookup(rows, id)
      case Some(c) => Success(c)
      case None => Failure(CarNotFound)
    }

    method AddCar(today: Date, car: CarDetails) returns (outcome: Outcome)
      requires Valid()
      modifies this
      ensures Valid()
      ensures var step := AddCarStep(old(rows), old(nextId), today, car);
              outcome == step.outcome && rows == step.rows && log == old(log) + step.sent
      ensures nextId == if outcome.Done? then old(nextId) + 1 else old(nextId)
    {
      var stamped := car.(regDate := Some(today));
      if stamped.brand.None? || stamped.releaseYear.None? {
        return Fail(ConstraintViolation);
      }
      var savedCar := Car(nextId, stamped.brand.value, stamped.releaseYear.value, stamped.regDate, stamped.ownerName);
      FreshIdIsUnused(rows, nextId);
      InsertAddsOneEntry(rows, savedCar);
      rows := rows + [savedCar];
      nextId := nextId + 1;
      log := log + [Added(savedCar.brand, savedCar.releaseYear, DateText(savedCar.regDate.value), savedCar.ownerName)];
      outcome := Done;
    }

    method UpdateCar(id: CarId, carDetails: CarDetails) returns (outcome: Outcome)
      requires Valid()
      modifies this
      ensures Valid() && nextId == old(nextId)
      ensures var step := UpdateCarStep(old(rows), id, carDetails);
              outcome == step.outcome && rows == step.rows && log == old(log) + step.sent
    {
      var found := Lookup(rows, id);
      if found.None? {
        return Fail(EntityNotFound);
      }
      var existingCar := found.value;
      var oldOwnerName, oldBrand, oldYear := existingCar.ownerName, existingCar.brand, existingCar.releaseYear;
      if existingCar.regDate.None? {
        return Fail(NullDereference);
      }
      var oldRegDate := DateText(existingCar.regDate.value);
      if carDetails.brand.None? || carDetails.releaseYear.None? {
        return Fail(ConstraintViolation);
      }
      existingCar := existingCar.(brand := carDetails.brand.value, releaseYear := carDetails.releaseYear.value,
                                  regDate := carDetails.regDate, ownerName := carDetails.ownerName);
      ReplacePreservesWellFormed(rows, nextId, existingCar);
      rows := Replace(rows, existingCar);
      var changedField := DetermineChangedField(oldOwnerName, oldBrand, oldYear, oldRegDate, existingCar);
      if changedField.Failure? {
        return Fail(changedField.error);
      }
      if changedField.value != "" {
        if existingCar.regDate.None? {
          return Fail(NullDereference);
        }
        log := log + [Updated(existingCar.brand, existingCar.releaseYear, DateText(existingCar.regDate.value),
                              existingCar.ownerName, changedField.value)];
      }
      outcome := Done;
    }

    method DeleteCarById(id: CarId) returns (outcome: Outcome)
      requires Valid()
      modifies this
      ensures Valid() && nextId == old(nextId)
      ensures var step := DeleteCarStep(old(rows), id);
              outcome == step.outcome && rows == step.rows && log == old(log) + step.sent
    {
      var found := Lookup(rows, id);
      if found.None? {
        return Fail(EntityNotFound);
      }
      var carToDelete := found.value;
      log := log + [Deleted(carToDelete.brand,
                            if carToDelete.regDate.Some? then DateText(carToDelete.regDate.value) else NoDate,
                            if carToDelete.ownerName.Some? then carToDelete.ownerName.value else NoOwner)];
      RemoveKeepsDistinct(rows, id);
      rows := Remove(rows, id);
      outcome := Done;
    }

    /** search: the union of the supplied criteria's matches without repeats, or everything. */
    method Search(brand: Option<string>, startDate: Option<Date>, endDate: Option<Date>,
                  releaseYear: Option<int>, ownerName: Option<string>) returns (result: seq<Car>)
      ensures result == SearchResult(rows, brand, startDate, endDate, releaseYear, ownerName)
    {
      var cars: seq<Car> := [];
      if brand.Some? && brand.value != "" {
        cars := cars + FindByBrand(brand.value);
      }
      assert cars == PartHits(rows, BrandPart(brand));
      if startDate.Some? && endDate.Some? {
        cars := cars + FindByDateRange(startDate.value, endDate.value);
      }
      assert cars == PartHits(rows, BrandPart(brand)) + PartHits(rows, RangePart(startDate, endDate));
      if releaseYear.Some? {
        cars := cars + FindByReleaseYear(releaseYear.value);
      }
      assert cars == PartHits(rows, BrandPart(brand)) + PartHits(rows, RangePart(startDate, endDate)) +
                     PartHits(rows, YearPart(releaseYear));
      if ownerName.Some? && ownerName.value != "" {
        cars := cars + FindByOwnerName(ownerName.value);
      }
      assert cars == Gathered(rows, brand, startDate, endDate, releaseYear, ownerName);
      var distinctCars := Distinct(cars);
      if distinctCars == [] {
        return rows;
      }
      result := distinctCars;
    }

    /**
     * getRegCarsCountByDay: for every day after today minus 7 (later days
     * included) on which some car was registered, the number of cars
     * registered that day; days without registrations are absent.
     */
    method GetRegCarsCountByDay(today: Date) returns (countMap: map<Date, nat>)
      ensures forall d :: d in countMap <==> today - Window < d && CountOn(rows, d) > 0
      ensures forall d :: d in countMap ==> countMap[d] == CountOn(rows, d) && countMap[d] > 0
    {
      countMap := map[];
      for i := 0 to |rows|
        invariant forall d :: d in countMap <==> today - Window < d && CountOn(rows[..i], d) > 0
        invariant forall d :: d in countMap ==> countMap[d] == CountOn(rows[..i], d)
      {
        var regDate := rows[i].regDate;
        assert rows[..i + 1][..i] == rows[..i];
        if regDate.Some? && regDate.value > today - Window {
          countMap := countMap[regDate.value := GetOrDefault(countMap, regDate.value, 0) + 1];
        }
      }
      assert rows[..|rows|] == rows;
    }
  }
}
