/**
 * The car entity (Car.java), the payload callers submit for it, the
 * criteria of the repository's derived finders (CarRepository.java), and the
 * exceptions the service lets escape.
 */
module Cars {
  import opened Wrappers
  import opened Dates
  import opened Text

  /** The store-assigned identifier (a generated Long). */
  type CarId = nat

  /** A stored car: brand and release year are required, the other two may be null. */
  datatype Car = Car(
    id: CarId,
    brand: string,
    releaseYear: int,
    regDate: Option<Date>,
    ownerName: Option<string>)

  /** The fields of a car as a caller submits them; any of them may be missing. */
  datatype CarDetails = CarDetails(
    brand: Option<string>,
    releaseYear: Option<int>,
    regDate: Option<Date>,
    ownerName: Option<string>)

  /** One derived finder of the repository, with its argument. */
  datatype Criterion =
    | BrandContains(title: string)            // findByBrandContainingIgnoreCase
    | RegBetween(from: Date, to: Date)        // findByRegDateBetween
    | BrandIs(brand: string)                  // findByBrandIgnoreCase
    | YearIs(year: int)                       // findByReleaseYearEquals
    | OwnerIs(owner: string)                  // findByOwnerNameEquals

  /** The condition the derived query puts on a row. BETWEEN is inclusive; a null date never matches. */
  predicate Matches(c: Car, q: Criterion): (r: bool)
    ensures r && q.RegBetween? ==> c.regDate.Some?
    ensures r && q.OwnerIs? ==> c.ownerName.Some?
  {
    match q
    case BrandContains(t) => ContainsIgnoringCase(c.brand, t)
    case RegBetween(from, to) => c.regDate.Some? && from <= c.regDate.value <= to
    case BrandIs(b) => EqualsIgnoringCase(c.brand, b)
    case YearIs(y) => c.releaseYear == y
    case OwnerIs(o) => c.ownerName == Some(o)
  }

  predicate HasId(s: seq<Car>, id: CarId)
  {
    exists k :: 0 <= k < |s| && s[k].id == id
  }

  /** No identifier occurs twice: a table, or a list without repeated entities. */
  predicate DistinctIds(s: seq<Car>)
  {
    forall i, j :: 0 <= i < j < |s| ==> s[i].id != s[j].id
  }

  lemma SameIdSameCar(s: seq<Car>, a: Car, b: Car)
    requires DistinctIds(s) && a in s && b in s && a.id == b.id
    ensures a == b
  {
  }

  /** The exceptions the service's operations can end with. */
  datatype Error =
    | EntityNotFound        // jakarta.persistence.EntityNotFoundException from updateCar / deleteCarById
    | CarNotFound           // RuntimeException("Car not found") from findById
    | ConstraintViolation   // save rejects a car whose brand or release year is null
    | NullDereference       // NullPointerException on a null registration date or owner name

  /** How a void service operation ended: normally, or by throwing. */
  datatype Outcome = Done | Fail(error: Error)
}
