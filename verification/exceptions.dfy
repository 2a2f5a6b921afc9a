/** The error conditions of the modelled core, in place of the C++
    exceptions it throws, and the small wrappers that carry them. */
module Exceptions {

  /** One constructor per exception the modelled code can raise. */
  datatype Error =
    | ConversionUnavailable  // exceptions::charset_conv_error: no converter for the pair
    | BadCast                // std::bad_cast thrown by a failed dynamic_cast in copyFrom
    | NoRecipient            // exceptions::no_recipient
    | NoExpeditor            // exceptions::no_expeditor

  datatype Option<+T> = None | Some(value: T)

  datatype Result<+T> = Success(value: T) | Failure(error: Error)

  datatype Outcome = Pass | Fail(error: Error)
}
