/** The data shapes of the library: the read-only person and family records
    the statistics read, and the mutable summary record they produce. */
module Model {

  /** IPerson: read-only, so a value. Ages are exact reals (decimal rounding
      is not modelled). */
  datatype Person = Person(firstName: string, lastName: string, age: real)

  /** IFamily: an ID and a fixed, ordered collection of persons. */
  datatype Family = Family(id: int, persons: seq<Person>)

  /** The three properties of a FamilySummary at one moment. */
  datatype Summary = Summary(familyID: int, numberOfFamilyMembers: int, averageAge: real)

  /** FamilySummary: a record with settable properties. */
  class FamilySummary {
    var familyID: int
    var numberOfFamilyMembers: int
    var averageAge: real

    /** The current values of the three properties. */
    function Snapshot(): (s: Summary)
      reads this
      ensures s.familyID == familyID && s.numberOfFamilyMembers == numberOfFamilyMembers
      ensures s.averageAge == averageAge
    {
      Summary(familyID, numberOfFamilyMembers, averageAge)
    }

    /** The three-argument constructor stores each argument in its property. */
    constructor (iD: int, count: int, averageAge: real)
      ensures Snapshot() == Summary(iD, count, averageAge)
    {
      this.familyID, this.numberOfFamilyMembers, this.averageAge := iD, count, averageAge;
    }

    /** The parameterless constructor leaves every property at its default, zero. */
    constructor Default()
      ensures Snapshot() == Summary(0, 0, 0.0)
    {
      familyID, numberOfFamilyMembers, averageAge := 0, 0, 0.0;
    }

    /** The FamilyID setter; the other properties keep their values. */
    method SetFamilyID(value: int)
      modifies this
      ensures Snapshot() == old(Snapshot()).(familyID := value)
    {
      familyID := value;
    }

    /** The NumberOfFamilyMembers setter; the other properties keep their values. */
    method SetNumberOfFamilyMembers(value: int)
      modifies this
      ensures Snapshot() == old(Snapshot()).(numberOfFamilyMembers := value)
    {
      numberOfFamilyMembers := value;
    }

    /** The AverageAge setter; the other properties keep their values. */
    method SetAverageAge(value: real)
      modifies this
      ensures Snapshot() == old(Snapshot()).(averageAge := value)
    {
      averageAge := value;
    }
  }
}
