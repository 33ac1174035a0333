/** The birth-date rule of the employee actions: an error entry is recorded
    when both dates are given and the birth date is later than the hire date. */
module EmployeeDates {
  import opened Wrappers
  import opened Domain

  const BirthAfterHire: string := "Birth date cannot be greater than hire date"

  /** A ModelState entry: the key and the message. */
  datatype ModelError = ModelError(key: string, message: string)

  /** ValidateDatesForAdd. */
  function ValidateDatesForAdd(birthDate: Option<Date>, hireDate: Option<Date>): (errors: seq<ModelError>)
    ensures errors != [] <==> birthDate.Some? && hireDate.Some? && birthDate.value > hireDate.value
    ensures errors != [] ==> errors == [ModelError("BirthDate", BirthAfterHire)]
  {
    if birthDate.Some? && hireDate.Some? && birthDate.value > hireDate.value then
      [ModelError("BirthDate", BirthAfterHire)]
    else
      []
  }

  /** ValidateDatesForEdit: the controller repeats the add rule on the edit
      request's two dates. */
  function ValidateDatesForEdit(birthDate: Option<Date>, hireDate: Option<Date>): (errors: seq<ModelError>)
    ensures errors != [] <==> birthDate.Some? && hireDate.Some? && birthDate.value > hireDate.value
    ensures errors != [] ==> errors == [ModelError("BirthDate", BirthAfterHire)]
  {
    ValidateDatesForAdd(birthDate, hireDate)
  }

  /** Equal dates pass, because the comparison is strict; a missing date
      always passes. */
  lemma SameDayAndMissingDatesPass(d: Date, other: Option<Date>)
    ensures ValidateDatesForAdd(Some(d), Some(d)) == []
    ensures ValidateDatesForAdd(None, other) == [] && ValidateDatesForAdd(other, None) == []
  {
  }
}
