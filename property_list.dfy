/** Property-list values: the untyped `Any` that the app's codecs produce and
    consume, and the outcome of a failable `init?(propertyList:)`. */
module PropertyList {

  /** One property-list value. The codecs only ever cast to a string-keyed
      dictionary, an array, a string, an integer or a date; `Other` stands for
      every other leaf (booleans, floating-point numbers, raw data), told apart
      only by an identifier. A date is an integer timestamp. */
  datatype PList =
    | Dict(entries: map<string, PList>)
    | Arr(items: seq<PList>)
    | Str(text: string)
    | Int(number: int)
    | Date(timestamp: int)
    | Other(id: nat)

  /** What a failable initialiser can do with a property list: build a value,
      return `nil`, or stop the process with `fatalError`; the last carries the
      type tag that caused it. */
  datatype Decoded<+T> = Ok(value: T) | Absent | Fatal(tag: string)

  datatype Option<+T> = None | Some(value: T)
}
