/** Vocabulary shared by the whole model of the offline bank: failure-carrying
    wrappers, currency codes, the rate store and the errors the bank raises. */
module Common {

  datatype Option<+T> = None | Some(value: T)

  datatype Result<+T, +E> = Success(value: T) | Failure(error: E)

  /** The result of an operation that changes state and returns nothing else. */
  datatype Outcome<+E> = Pass | Fail(error: E)

  /** An ISO-4217 currency code such as "USD". */
  type Currency = string

  /** A location the bank reads a rates document from: a file path or a URL. */
  type Path = string

  /** A point in time; the clock and the time parser are outside the model. */
  type Instant = int

  /** The rate store: the rate for each (from, to) pair of currencies. */
  type Store = map<(Currency, Currency), real>

  /** Every rate in the feed is quoted against this currency. */
  const Base: Currency := "EUR"

  /** The exceptions the bank lets escape, one constructor per kind. */
  datatype Error =
    | UndefinedNamespacePrefix        // the rate query finds no feed envelope
    | MalformedRate                   // a rate attribute is missing or not a decimal
    | MissingCurrency                 // a currency attribute is missing
    | MissingFeedTime                 // the feed carries no readable time stamp
    | CannotOpen(path: Path)          // the document source cannot be opened
    | InvalidCache                    // save_rates was given no cache location
    | DownloadInterrupted             // the feed download stopped mid-copy
    | MissingBaseRate(currency: Currency)  // no EUR rate stored for this currency
    | ZeroBaseRate(currency: Currency)     // division by a zero EUR rate
}
