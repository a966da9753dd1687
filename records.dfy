/** The JSON document DataConvert writes for one course, and the CSV row it reads. */
module CourseData {

  /** One CSV line: its fields in column order. Snapshot rows have the columns
      availableSeats, capacity, code, credit, department, levels, title,
      waitlistAvailable, webEnabled; intermediate rows add the timestamp as a tenth. */
  type Row = seq<string>

  /** One observation of a course's seats, from one intermediate row. */
  datatype LogRecord = LogRecord(
    availableSeats: int,
    capacity: int,
    waitlistAvailable: string,
    webEnabled: bool,
    timestamp: int)

  /** The course document: static fields and the time series of observations. */
  datatype CourseAddDropLog = CourseAddDropLog(
    code: string,
    credit: int,
    department: string,
    levels: seq<string>,
    logRecords: seq<LogRecord>,
    title: string)
}
