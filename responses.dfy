/**
 * The responses the handlers return: `Response`/`CommandResponse` (success
 * flag and message), their generic forms carrying an id, and the
 * `Error`/`Success` results of the projects service's handler base class.
 */
module Responses {

  /** `Response` and `CommandResponse`. */
  datatype Response = Response(isSuccessful: bool, message: string)

  /** `Response<int>` and `CommandResponse<int>`: the id travels in `Data`. */
  datatype DataResponse = DataResponse(isSuccessful: bool, message: string, data: int)

  /**
   * `Error(message)` and `Success(message, id)` of the projects service, or
   * `SaveFailed`: `SaveChangesAsync` threw `DbUpdateException` because the
   * database refused a foreign key, nothing was saved, and the exception
   * leaves the handler instead of a response.
   */
  datatype CommandResult = Error(message: string) | Success(message: string, id: int) | SaveFailed
}
