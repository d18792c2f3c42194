/**
 * getSchools: the `cityId` query parameter chooses one of two reference
 * lists, which are parameters here instead of JSON imports.
 */
module SchoolController {
  import opened Wrappers

  /** A school of the reference data, tagged with its city. */
  datatype School = School(id: string, name: string, cityId: string)

  const CityIdRequired := "cityId is required"

  /** 400 with `{error}`, or 200 with the list as the JSON body. */
  datatype SchoolsReply = ErrorReply(status: int, error: string) | SchoolList(status: int, schools: seq<School>)

  /** `!cityId`: the parameter is missing or empty. */
  predicate IsFalsy(cityId: Option<string>) {
    cityId.None? || cityId.value == ""
  }

  function GetSchools(cityId: Option<string>, schools1: seq<School>, schools2: seq<School>): (r: SchoolsReply)
    ensures r.ErrorReply? <==> IsFalsy(cityId)
    ensures r.ErrorReply? ==> r == ErrorReply(400, CityIdRequired)
    ensures r.SchoolList? ==> r.status == 200 && (r.schools == schools1 || r.schools == schools2 || r.schools == [])
  {
    if IsFalsy(cityId) then ErrorReply(400, CityIdRequired)
    else if cityId.value == "1" then SchoolList(200, schools1)
    else if cityId.value == "2" then SchoolList(200, schools2)
    else SchoolList(200, [])
  }

  /** The schools of a catalogue that belong to a city, in catalogue order. */
  function SchoolsIn(catalogue: seq<School>, cityId: string): (r: seq<School>)
    ensures forall s :: s in r ==> s in catalogue && s.cityId == cityId
  {
    if catalogue == [] then []
    else
      var last := catalogue[|catalogue| - 1];
      SchoolsIn(catalogue[..|catalogue| - 1], cityId) + (if last.cityId == cityId then [last] else [])
  }

  predicate AllOfCity(schools: seq<School>, cityId: string) {
    forall s :: s in schools ==> s.cityId == cityId
  }

  lemma {:induction false} SchoolsInAppend(a: seq<School>, b: seq<School>, cityId: string)
    ensures SchoolsIn(a + b, cityId) == SchoolsIn(a, cityId) + SchoolsIn(b, cityId)
    decreases |b|
  {
    if b == [] {
      assert a + b == a;
    } else {
      assert (a + b)[..|a + b| - 1] == a + b[..|b| - 1];
      SchoolsInAppend(a, b[..|b| - 1], cityId);
    }
  }

  lemma {:induction false} SchoolsInAll(schools: seq<School>, cityId: string)
    requires AllOfCity(schools, cityId)
    ensures SchoolsIn(schools, cityId) == schools
    decreases |schools|
  {
    if schools != [] {
      var p, last := schools[..|schools| - 1], schools[|schools| - 1];
      assert schools == p + [last];
      assert last in schools;
      assert AllOfCity(p, cityId) by {
        forall s | s in p ensures s.cityId == cityId {
          assert s in schools;
        }
      }
      SchoolsInAll(p, cityId);
    }
  }

  lemma {:induction false} SchoolsInNone(schools: seq<School>, cityId: string)
    requires forall s :: s in schools ==> s.cityId != cityId
    ensures SchoolsIn(schools, cityId) == []
    decreases |schools|
  {
    if schools != [] {
      var p, last := schools[..|schools| - 1], schools[|schools| - 1];
      assert schools == p + [last];
      assert last in schools;
      assert forall s :: s in p ==> s.cityId != cityId by {
        forall s | s in p ensures s.cityId != cityId {
          assert s in schools;
        }
      }
      SchoolsInNone(p, cityId);
    }
  }

  /**
   * When each reference list holds the schools of its city, the reply to a
   * present id is that city's schools out of the whole catalogue; an unknown
   * id has none.
   */
  lemma GetSchoolsFiltersByCity(cityId: string, schools1: seq<School>, schools2: seq<School>)
    requires cityId != ""
    requires AllOfCity(schools1, "1") && AllOfCity(schools2, "2")
    ensures GetSchools(Some(cityId), schools1, schools2) == SchoolList(200, SchoolsIn(schools1 + schools2, cityId))
  {
    SchoolsInAppend(schools1, schools2, cityId);
    var inFirst, inSecond := SchoolsIn(schools1, cityId), SchoolsIn(schools2, cityId);
    if cityId == "1" {
      SchoolsInAll(schools1, "1");
      OtherCity(schools2, "2", "1");
      assert inFirst + inSecond == schools1;
    } else if cityId == "2" {
      OtherCity(schools1, "1", "2");
      SchoolsInAll(schools2, "2");
      assert inFirst + inSecond == schools2;
    } else {
      OtherCity(schools1, "1", cityId);
      OtherCity(schools2, "2", cityId);
      assert inFirst + inSecond == [];
    }
  }

  /** A list of one city's schools has none of another city's. */
  lemma OtherCity(schools: seq<School>, own: string, other: string)
    requires AllOfCity(schools, own) && own != other
    ensures SchoolsIn(schools, other) == []
  {
    SchoolsInNone(schools, other);
  }

  /** Id "1" gives the first list, id "2" the second, any other present id the empty list. */
  lemma DispatchById(cityId: string, schools1: seq<School>, schools2: seq<School>)
    requires cityId != ""
    ensures cityId == "1" ==> GetSchools(Some(cityId), schools1, schools2) == SchoolList(200, schools1)
    ensures cityId == "2" ==> GetSchools(Some(cityId), schools1, schools2) == SchoolList(200, schools2)
    ensures cityId != "1" && cityId != "2" ==> GetSchools(Some(cityId), schools1, schools2) == SchoolList(200, [])
  {
  }

  /** A missing id is rejected; an unknown id is an empty list, not an error. */
  lemma ScenarioMissingAndUnknown(schools1: seq<School>, schools2: seq<School>)
    ensures GetSchools(None, schools1, schools2) == ErrorReply(400, "cityId is required")
    ensures GetSchools(Some("99"), schools1, schools2) == SchoolList(200, [])
  {
  }
}
