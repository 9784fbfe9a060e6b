/** BookSerializer.validate_publication_year of the books API. */
module ApiSerializers {
  import opened Wrappers

  /** The serializer's validation error. */
  datatype SerializerError = YearInFuture  // "Publication year cannot be in the future."

  /** A publication year is rejected exactly when it is later than the
      current year (read from the clock, here a parameter); an accepted year
      is returned unchanged. There is no lower bound. */
  function ValidatePublicationYear(value: int, currentYear: int): (r: Result<int, SerializerError>)
    ensures r.Failure? <==> value > currentYear
    ensures r.Success? ==> r.value == value
    ensures r.Failure? ==> r.error == YearInFuture
  {
    if value > currentYear then Failure(YearInFuture) else Success(value)
  }

  /** The current year itself is accepted, and so is every earlier year,
      however small. */
  lemma AcceptsUpToCurrentYear(value: int, currentYear: int)
    requires value <= currentYear
    ensures ValidatePublicationYear(value, currentYear) == Success(value)
  {
  }

  /** Validation is monotone in the clock: a year accepted now stays
      accepted in every later year. */
  lemma AcceptanceIsStable(value: int, currentYear: int, laterYear: int)
    requires currentYear <= laterYear
    requires ValidatePublicationYear(value, currentYear).Success?
    ensures ValidatePublicationYear(value, laterYear) == ValidatePublicationYear(value, currentYear)
  {
  }
}
