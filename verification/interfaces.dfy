/** The record shapes the dose service works with: one row of the drug
    reference table, the request it answers, the result it returns and the
    HTTP errors it raises. */
module Interfaces {

  /** One row of the reference table: a drug for one species, its dose rate
      in mg per kg of body weight and its concentration in mg per ml. */
  datatype DrugData = DrugData(
    drugName: string,
    species: string,
    doseRateMgPerKg: real,
    concentrationMgPerMl: real)

  /** A dose request: the species, the drug and the animal's weight in kg. */
  datatype CalculateDoseDto = CalculateDoseDto(species: string, drug: string, weight: real)

  /** A successful calculation: the matched row, the weight it was asked for,
      the total dose in mg and the volume to draw up in ml. */
  datatype DoseCalculationResult = DoseCalculationResult(
    drugInfo: DrugData,
    animalWeightKg: real,
    totalDoseMg: real,
    volumeToAdministerMl: real)

  /** The catalogue: the distinct drug names and the distinct species. */
  datatype DrugsAndSpecies = DrugsAndSpecies(drugs: seq<string>, species: seq<string>)

  /** The two HTTP statuses the service raises. */
  datatype HttpStatus = BadRequest | NotFound {
    function Code(): int {
      match this
      case BadRequest => 400
      case NotFound => 404
    }
  }

  /** An error carrying a caller-facing message and its HTTP status. */
  datatype HttpException = HttpException(message: string, status: HttpStatus)

  /** Either a value or the HTTP error that was thrown instead. */
  datatype Result<T> = Success(value: T) | Failure(error: HttpException)

  datatype Option<T> = None | Some(value: T)
}
