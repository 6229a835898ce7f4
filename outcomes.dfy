/** Optional values, the error conditions of the calculator's core, and results
    that carry either a value or one of those errors. */
module Outcomes {

  datatype Option<+T> = None | Some(value: T) {
    function GetOr(default: T): T {
      match this
      case Some(v) => v
      case None => default
    }
  }

  /** Every way the modelled part of the calculator can fail. Each constructor
      stands for one `anyhow!` message of src/main.rs, one propagated library
      error, or one `.context(...)` wrapped around another error; the comment
      gives the condition (and the message where there is one). */
  datatype Error =
    | ExpectedYearMonth       // trimmed period text is not 7 bytes or not two '-'-separated parts
    | InvalidInteger          // a part does not parse as i32 / u32
    | MonthOutOfRange         // month outside 1..=12
    | InvalidDate             // chrono cannot represent the first day of that month
    | YearOutOfRange          // year outside 1800..=3000
    | SdmxStartInvalid(cause: Error)       // "Start must be YYYY-MM for SDMX mode"
    | SdmxEndInvalid(cause: Error)         // "End must be YYYY-MM for SDMX mode"
    | DatamapperStartInvalid(cause: Error) // "Start must be YYYY (or YYYY-MM) for DataMapper mode"
    | DatamapperEndInvalid(cause: Error)   // "End must be YYYY (or YYYY-MM) for DataMapper mode"
    | EndBeforeStart          // "--end must be >= start": SDMX end month earlier than the start
    | EndBeforeStartYear      // "--end must be >= start year": DataMapper end year earlier than the start
    | InvalidCodelistXml      // "Invalid SDMX Central codelist XML": the reader failed on the codelist
    | InvalidSdmxXml          // "Invalid SDMX XML": the reader failed on the data message
    | MalformedAttribute      // an attribute could not be read
    | UndecodableValue        // an attribute value or a text node has a bad escape
    | NoCountryCodes          // the codelist held no Code with an id
    | ObsValueNotNumeric      // an OBS_VALUE attribute does not parse as a number
    | NoObservations          // the data message held no usable Obs
    | NoDataAtOrAfterStart    // every observation is earlier than the start period
    | NoCpiData               // no last observation
    | InvalidCpiValues        // a selected index value is <= 0
    | MissingValues           // the DataMapper JSON has no "values" member
    | NoSeriesData            // no object for the indicator and country
    | NoNumericObservations   // no year of the range has a numeric value

  datatype Result<+T> = Ok(value: T) | Err(error: Error)
}
