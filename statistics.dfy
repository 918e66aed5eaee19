/** The per-day registration counts of CarService.getRegCarsCountByDay. */
module Statistics {
  import opened Wrappers
  import opened Dates
  import opened Cars
  import opened Repository

  /** Length of the reporting window: a day counts when it is after today minus this many days. */
  const Window := 7

  /** The number of cars in rows registered on day. */
  function CountOn(rows: seq<Car>, day: Date): (r: nat)
    ensures r <= |rows|
  {
    if rows == [] then 0
    else CountOn(rows[..|rows| - 1], day) + (if rows[|rows| - 1].regDate == Some(day) then 1 else 0)
  }

  /** A day's count is the number of cars findByRegDateBetween(day, day) returns. */
  lemma {:induction false} CountOnIsSingleDayFinder(rows: seq<Car>, day: Date)
    ensures CountOn(rows, day) == |Select(rows, RegBetween(day, day))|
  {
    if rows != [] {
      var init, last, q := rows[..|rows| - 1], rows[|rows| - 1], RegBetween(day, day);
      CountOnIsSingleDayFinder(init, day);
      SelectCountSnoc(rows, q);
      assert Matches(last, q) <==> last.regDate == Some(day);
    }
  }

  /** A day's count is positive exactly when some car was registered that day. */
  lemma {:induction false} CountOnPositiveIffRegistered(rows: seq<Car>, day: Date)
    ensures CountOn(rows, day) > 0 <==> exists c :: c in rows && c.regDate == Some(day)
  {
    if rows != [] {
      var init := rows[..|rows| - 1];
      assert rows == init + [rows[|rows| - 1]];
      CountOnPositiveIffRegistered(init, day);
    }
  }

  /** Cars without a registration date are never counted. */
  lemma {:induction false} UndatedCarsAreNotCounted(rows: seq<Car>, car: Car, day: Date)
    requires car.regDate.None?
    ensures forall i :: 0 <= i <= |rows| ==> CountOn(rows[..i] + [car] + rows[i..], day) == CountOn(rows, day)
    decreases |rows|
  {
    if rows != [] {
      var init, last := rows[..|rows| - 1], rows[|rows| - 1];
      UndatedCarsAreNotCounted(init, car, day);
      forall i | 0 <= i <= |rows| ensures CountOn(rows[..i] + [car] + rows[i..], day) == CountOn(rows, day) {
        var s := rows[..i] + [car] + rows[i..];
        if i == |rows| {
          assert s[..|s| - 1] == rows && rows[..i] == rows;
        } else {
          assert s[..|s| - 1] == init[..i] + [car] + init[i..];
          assert s[|s| - 1] == last;
          assert rows[..|rows| - 1] == init;
        }
      }
    } else {
      assert rows[..0] + [car] + rows[0..] == [car];
    }
  }

  /** Number of slots of the "cars issued last week" array. */
  const WeekDays := 7

  /**
   * getCarsIssuedLastWeek, which both controllers implement alike: slot i of
   * a new 7-slot array holds the issued-cars table's value for today minus i
   * days, or 0 when the table has no entry for that day.
   */
  method IssuedLastWeek(issuedCars: map<Date, int>, today: Date) returns (carsIssued: array<int>)
    ensures fresh(carsIssued) && carsIssued.Length == WeekDays
    ensures forall i :: 0 <= i < WeekDays ==>
      (today - i in issuedCars ==> carsIssued[i] == issuedCars[today - i]) &&
      (today - i !in issuedCars ==> carsIssued[i] == 0)
  {
    carsIssued := new int[WeekDays];
    for i := 0 to WeekDays
      invariant forall j :: 0 <= j < i ==> carsIssued[j] == GetOrDefault(issuedCars, today - j, 0)
    {
      var date := today - i;
      carsIssued[i] := GetOrDefault(issuedCars, date, 0);
    }
  }
}
