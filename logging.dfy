/** Entries written to the external structured logger. */
module Logging {

  datatype Level = Info | Warn | Error

  /** One logger call: its level and its text (the JSON debug payload is not modelled). */
  datatype LogEntry = LogEntry(level: Level, text: string)
}
