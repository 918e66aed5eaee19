/** CarService.determineChangedField and the priority order it reports changes in. */
module Changes {
  import opened Wrappers
  import opened Dates
  import opened Cars

  const OwnerLabel := "владелец"
  const BrandLabel := "марка"
  const YearLabel := "год выпуска"
  const RegDateLabel := "дата регистрации"

  /**
   * The label of the first field, in the order owner, brand, year, date, whose
   * old value differs from the car's new one, or "" when none does. The old
   * owner name and the new registration date are dereferenced, so a null there
   * throws (the date only when owner, brand and year are all unchanged).
   */
  function DetermineChangedField(oldOwnerName: Option<string>, oldBrand: string, oldYear: int,
                                 oldRegDate: string, car: Car): (r: Result<string, Error>)
    ensures oldOwnerName.None? ==> r == Failure(NullDereference)
    ensures r.Failure? ==> r.error == NullDereference
    ensures r.Success? ==> r.value in {"", OwnerLabel, BrandLabel, YearLabel, RegDateLabel}
  {
    if oldOwnerName.None? then Failure(NullDereference)
    else if oldOwnerName != car.ownerName then Success(OwnerLabel)
    else if oldBrand != car.brand then Success(BrandLabel)
    else if oldYear != car.releaseYear then Success(YearLabel)
    else if car.regDate.None? then Failure(NullDereference)
    else if oldRegDate != DateText(car.regDate.value) then Success(RegDateLabel)
    else Success("")
  }

  /** The fields an update is checked for, and the order they are checked in. */
  datatype Field = Owner | Brand | Year | RegDate

  const Priority: seq<Field> := [Owner, Brand, Year, RegDate]

  function Label(f: Field): string
  {
    match f
    case Owner => OwnerLabel
    case Brand => BrandLabel
    case Year => YearLabel
    case RegDate => RegDateLabel
  }

  predicate Differs(f: Field, before: Car, after: Car)
  {
    match f
    case Owner => before.ownerName != after.ownerName
    case Brand => before.brand != after.brand
    case Year => before.releaseYear != after.releaseYear
    case RegDate => before.regDate != after.regDate
  }

  /** The first field of the list on which the two cars differ. */
  function FirstChange(fields: seq<Field>, before: Car, after: Car): (r: Option<Field>)
    ensures r.None? <==> forall i :: 0 <= i < |fields| ==> !Differs(fields[i], before, after)
    ensures r.Some? ==> exists k :: 0 <= k < |fields| && fields[k] == r.value && Differs(r.value, before, after) &&
                          forall j :: 0 <= j < k ==> !Differs(fields[j], before, after)
  {
    if fields == [] then None
    else if Differs(fields[0], before, after) then Some(fields[0])
    else
      var r := FirstChange(fields[1..], before, after);
      assert forall i :: 0 < i < |fields| ==> fields[i] == fields[1..][i - 1];
      r
  }

  predicate Unchanged(before: Car, after: Car)
  {
    before.ownerName == after.ownerName && before.brand == after.brand &&
    before.releaseYear == after.releaseYear && before.regDate == after.regDate
  }

  /**
   * With the old owner and both dates present, determineChangedField reports
   * the label of the first field of Priority that changed, or "" when none did.
   */
  lemma ChangedFieldIsFirstDifference(before: Car, after: Car)
    requires before.ownerName.Some? && before.regDate.Some? && after.regDate.Some?
    ensures DetermineChangedField(before.ownerName, before.brand, before.releaseYear,
                                  DateText(before.regDate.value), after)
         == Success(match FirstChange(Priority, before, after) case None => "" case Some(f) => Label(f))
  {
    var p1, p2, p3 := [Brand, Year, RegDate], [Year, RegDate], [RegDate];
    assert Priority[1..] == p1 && p1[1..] == p2 && p2[1..] == p3 && p3[1..] == [];
    var f3 := FirstChange(p3, before, after);
    var f2 := FirstChange(p2, before, after);
    var f1 := FirstChange(p1, before, after);
    assert f3 == if Differs(RegDate, before, after) then Some(RegDate) else None;
    assert f2 == if Differs(Year, before, after) then Some(Year) else f3;
    assert f1 == if Differs(Brand, before, after) then Some(Brand) else f2;
    assert FirstChange(Priority, before, after) == if Differs(Owner, before, after) then Some(Owner) else f1;
    if DateText(before.regDate.value) == DateText(after.regDate.value) {
      DateTextInjective(before.regDate.value, after.regDate.value);
    }
  }

  /** determineChangedField returns "" exactly when none of the four fields changed. */
  lemma ChangedFieldEmptyIffUnchanged(before: Car, after: Car)
    requires before.ownerName.Some? && before.regDate.Some? && after.regDate.Some?
    ensures DetermineChangedField(before.ownerName, before.brand, before.releaseYear,
                                  DateText(before.regDate.value), after) == Success("")
        <==> Unchanged(before, after)
  {
    ChangedFieldIsFirstDifference(before, after);
    var r := FirstChange(Priority, before, after);
    if r.None? {
      assert !Differs(Priority[0], before, after) && !Differs(Priority[1], before, after);
      assert !Differs(Priority[2], before, after) && !Differs(Priority[3], before, after);
    } else {
      assert Label(r.value) != "";
    }
  }
}
