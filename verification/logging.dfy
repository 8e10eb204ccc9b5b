/** The log entries the tool emits, as (level, text) pairs. Printing them
    (timestamps, colours, the choice of stdout or stderr) is not modelled. */
module Logging {

  /** The levels of Classes/JsWatch/Logger.php. */
  datatype Level = Debug | Info | Ok | Warning | Error | Critical

  datatype LogEntry = LogEntry(level: Level, text: string)
}
