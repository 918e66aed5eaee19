/**
 * The car table and the repository operations over it (CarRepository.java and
 * the JpaRepository methods the service uses). The table is a sequence of rows
 * with distinct ids, in the order findAll returns them.
 */
module Repository {
  import opened Wrappers
  import opened Cars

  /** What a derived finder returns: the rows satisfying its criterion, in table order. */
  function Select(rows: seq<Car>, q: Criterion): (r: seq<Car>)
    ensures forall c :: c in r <==> c in rows && Matches(c, q)
    ensures |r| <= |rows|
    ensures DistinctIds(rows) ==> DistinctIds(r)
  {
    if rows == [] then []
    else
      var rest, last := rows[..|rows| - 1], rows[|rows| - 1];
      assert rows == rest + [last];
      assert DistinctIds(rows) ==> DistinctIds(Select(rest, q) + [last]) by {
        if DistinctIds(rows) {
          forall c | c in rest ensures c.id != last.id {
            var k :| 0 <= k < |rest| && rest[k] == c;
            assert rows[k] == c;
          }
          SnocDistinct(Select(rest, q), last, rest);
        }
      }
      Select(rest, q) + (if Matches(last, q) then [last] else [])
  }

  /** Appending a car whose id none of the rows of from carries keeps a list drawn from from distinct. */
  lemma SnocDistinct(s: seq<Car>, x: Car, from: seq<Car>)
    requires DistinctIds(s) && forall c :: c in s ==> c in from
    requires forall c :: c in from ==> c.id != x.id
    ensures DistinctIds(s + [x])
  {
    var r := s + [x];
    forall i, j | 0 <= i < j < |r| ensures r[i].id != r[j].id {
      assert r[i] == s[i] && r[i] in s;
      if j < |s| {
        assert r[j] == s[j];
      }
    }
  }

  /** A finder over a non-empty table: the finder over all rows but the last, plus the last if it matches. */
  lemma SelectCountSnoc(rows: seq<Car>, q: Criterion)
    requires rows != []
    ensures |Select(rows, q)| == |Select(rows[..|rows| - 1], q)| + if Matches(rows[|rows| - 1], q) then 1 else 0
  {
  }

  /** findById: the row with that id, if any. */
  function Lookup(rows: seq<Car>, id: CarId): (r: Option<Car>)
    ensures r.Some? <==> HasId(rows, id)
    ensures r.Some? ==> r.value in rows && r.value.id == id
  {
    if rows == [] then None
    else if rows[0].id == id then Some(rows[0])
    else
      assert HasId(rows, id) ==> HasId(rows[1..], id) by {
        if HasId(rows, id) {
          var k :| 0 <= k < |rows| && rows[k].id == id;
          assert rows[1..][k - 1].id == id;
        }
      }
      assert HasId(rows[1..], id) ==> HasId(rows, id) by {
        if HasId(rows[1..], id) {
          var k :| 0 <= k < |rows[1..]| && rows[1..][k].id == id;
          assert rows[k + 1].id == id;
        }
      }
      Lookup(rows[1..], id)
  }

  /** In a table, a stored car is what findById returns for its id. */
  lemma LookupFindsRow(rows: seq<Car>, c: Car)
    requires DistinctIds(rows) && c in rows
    ensures Lookup(rows, c.id) == Some(c)
  {
    var k :| 0 <= k < |rows| && rows[k] == c;
    assert HasId(rows, c.id);
    SameIdSameCar(rows, Lookup(rows, c.id).value, c);
  }

  /** The table after save of a new car: the row is appended. */
  lemma InsertAddsOneEntry(rows: seq<Car>, car: Car)
    requires DistinctIds(rows) && !HasId(rows, car.id)
    ensures DistinctIds(rows + [car])
    ensures forall id :: Lookup(rows + [car], id) == if id == car.id then Some(car) else Lookup(rows, id)
  {
    var r := rows + [car];
    forall i, j | 0 <= i < j < |r| ensures r[i].id != r[j].id {
      if j == |rows| {
        assert r[i] == rows[i];
      }
    }
    forall id ensures Lookup(r, id) == if id == car.id then Some(car) else Lookup(rows, id) {
      if id == car.id {
        LookupFindsRow(r, car);
      } else if HasId(rows, id) {
        LookupFindsRow(r, Lookup(rows, id).value);
      } else {
        forall k | 0 <= k < |r| ensures r[k].id != id {
          if k < |rows| {
            assert r[k] == rows[k];
          }
        }
      }
    }
  }

  /** The table after save of a car whose id is stored: that row is overwritten in place. */
  function Replace(rows: seq<Car>, car: Car): (r: seq<Car>)
    ensures |r| == |rows| && forall i :: 0 <= i < |r| ==> r[i].id == rows[i].id
    ensures forall c :: c in r ==> c == car || c in rows
  {
    seq(|rows|, i requires 0 <= i < |rows| => if rows[i].id == car.id then car else rows[i])
  }

  /** Replace leaves every position's id as it was. */
  lemma ReplaceKeepsIds(rows: seq<Car>, car: Car)
    requires DistinctIds(rows)
    ensures DistinctIds(Replace(rows, car))
    ensures forall id :: HasId(Replace(rows, car), id) <==> HasId(rows, id)
  {
    var r := Replace(rows, car);
    assert forall i :: 0 <= i < |r| ==> r[i].id == rows[i].id;
    forall id ensures HasId(r, id) <==> HasId(rows, id) {
      if HasId(r, id) {
        var k :| 0 <= k < |r| && r[k].id == id;
        assert rows[k].id == id;
      }
      if HasId(rows, id) {
        var k :| 0 <= k < |rows| && rows[k].id == id;
        assert r[k].id == id;
      }
    }
  }

  lemma ReplaceOverwritesOneEntry(rows: seq<Car>, car: Car)
    requires DistinctIds(rows) && HasId(rows, car.id)
    ensures DistinctIds(Replace(rows, car))
    ensures forall id :: HasId(Replace(rows, car), id) <==> HasId(rows, id)
    ensures forall id :: Lookup(Replace(rows, car), id) == if id == car.id then Some(car) else Lookup(rows, id)
  {
    var r := Replace(rows, car);
    ReplaceKeepsIds(rows, car);
    forall id ensures Lookup(r, id) == if id == car.id then Some(car) else Lookup(rows, id) {
      if id == car.id {
        var k :| 0 <= k < |rows| && rows[k].id == car.id;
        assert r[k] == car;
        LookupFindsRow(r, car);
      } else if HasId(rows, id) {
        var c := Lookup(rows, id).value;
        var k :| 0 <= k < |rows| && rows[k] == c;
        assert r[k] == c;
        LookupFindsRow(r, c);
      }
    }
  }

  /** deleteById: every row with that id is dropped, the others keep their order. */
  function Remove(rows: seq<Car>, id: CarId): (r: seq<Car>)
    ensures forall c :: c in r <==> c in rows && c.id != id
    ensures |r| <= |rows|
  {
    if rows == [] then []
    else
      assert rows == [rows[0]] + rows[1..];
      if rows[0].id == id then Remove(rows[1..], id)
      else [rows[0]] + Remove(rows[1..], id)
  }

  /** Deleting an id that is not stored changes nothing. */
  lemma {:induction false} RemoveAbsent(rows: seq<Car>, id: CarId)
    requires !HasId(rows, id)
    ensures Remove(rows, id) == rows
  {
    if rows != [] {
      assert !HasId(rows[1..], id) by {
        forall k | 0 <= k < |rows[1..]| ensures rows[1..][k].id != id {
          assert rows[1..][k] == rows[k + 1];
        }
      }
      assert rows[0].id != id;
      RemoveAbsent(rows[1..], id);
    }
  }

  /** Every row of the result is in the input and carries another id. */
  lemma RemoveDropsId(rows: seq<Car>, id: CarId)
    ensures !HasId(Remove(rows, id), id)
  {
    var r := Remove(rows, id);
    forall k | 0 <= k < |r| ensures r[k].id != id {
      assert r[k] in r;
    }
  }

  lemma TailDistinct(rows: seq<Car>)
    requires rows != [] && DistinctIds(rows)
    ensures DistinctIds(rows[1..])
  {
    var tail := rows[1..];
    forall i, j | 0 <= i < j < |tail| ensures tail[i].id != tail[j].id {
      assert tail[i] == rows[i + 1] && tail[j] == rows[j + 1];
    }
  }

  lemma ConsDistinct(x: Car, t: seq<Car>)
    requires DistinctIds(t) && forall c :: c in t ==> c.id != x.id
    ensures DistinctIds([x] + t)
  {
    var r := [x] + t;
    forall i, j | 0 <= i < j < |r| ensures r[i].id != r[j].id {
      assert r[j] == t[j - 1] && r[j] in t;
      if i > 0 {
        assert r[i] == t[i - 1];
      }
    }
  }

  /** Deleting keeps the ids of a table distinct. */
  lemma {:induction false} RemoveKeepsDistinct(rows: seq<Car>, id: CarId)
    requires DistinctIds(rows)
    ensures DistinctIds(Remove(rows, id))
  {
    if rows != [] {
      var tail := rows[1..];
      TailDistinct(rows);
      RemoveKeepsDistinct(tail, id);
      if rows[0].id != id {
        forall c | c in Remove(tail, id) ensures c.id != rows[0].id {
          var i :| 0 <= i < |tail| && tail[i] == c;
          assert tail[i] == rows[i + 1];
        }
        ConsDistinct(rows[0], Remove(tail, id));
      }
    }
  }

  /** On a table, deleting a stored id drops exactly one row. */
  lemma {:induction false} RemoveCount(rows: seq<Car>, id: CarId)
    requires DistinctIds(rows) && HasId(rows, id)
    ensures |Remove(rows, id)| == |rows| - 1
  {
    var tail := rows[1..];
    TailDistinct(rows);
    if rows[0].id == id {
      forall k | 0 <= k < |tail| ensures tail[k].id != id {
        assert tail[k] == rows[k + 1];
      }
      RemoveAbsent(tail, id);
    } else {
      var k :| 0 <= k < |rows| && rows[k].id == id;
      assert tail[k - 1].id == id;
      RemoveCount(tail, id);
    }
  }

  lemma RemoveDropsOneEntry(rows: seq<Car>, id: CarId)
    requires DistinctIds(rows)
    ensures DistinctIds(Remove(rows, id))
    ensures forall k :: Lookup(Remove(rows, id), k) == if k == id then None else Lookup(rows, k)
  {
    RemoveKeepsDistinct(rows, id);
    RemoveDropsId(rows, id);
    var r := Remove(rows, id);
    forall k ensures Lookup(r, k) == if k == id then None else Lookup(rows, k) {
      if k != id && HasId(rows, k) {
        LookupFindsRow(r, Lookup(rows, k).value);
      } else if k != id {
        forall i | 0 <= i < |r| ensures r[i].id != k {
          assert r[i] in r;
          var j :| 0 <= j < |rows| && rows[j] == r[i];
        }
      }
    }
  }
}
