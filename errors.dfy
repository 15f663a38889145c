/** The rows of the error tables the checks return. */
module Errors {
  /** One row of a report: the value of the report column (by default the
      certificate's Url) and the message. */
  datatype Entry = Entry(url: string, message: string)
}
