/** The response record of the scheduling endpoint. */
module Dtos {

  datatype Option<T> = None | Some(value: T)

  /** `RecommendedOrder` holds task titles; `ErrorMessage` is `None` on success. */
  datatype ScheduleResponseDto = ScheduleResponseDto(
    recommendedOrder: seq<string>,
    totalEstimatedHours: int,
    errorMessage: Option<string>)
}
