# HealthyKitten event codec and events view model, in Dafny

HealthyKitten is an iOS demo that records HealthKit wakeups and application
events in a persisted, observable event log. This project models the two
parts of it that carry logic of their own:

- **The property-list codec** (`PropertyListSerializable.swift`). An `Event`
  is either an `HKEvent` (sample type, receive time, application state,
  payload dictionary) or an `AppEvent` (receive time, event text). Each
  event is written as a string-keyed record tagged with its variant name
  under `"type"`. The record is read back through a failable initialiser.
  That initialiser returns `nil` for an ill-formed record and stops the
  process with `fatalError` on an unknown tag. `UIApplicationState` is
  stored as its raw integer and `Int` as itself. The generic
  `SerializableArray` wrapper stores an array element by element. When it
  reads one back, it silently drops the elements that do not decode.
- **The events view model** (`EventsViewModel.swift`). It wraps the store
  cell that holds the event log. It derives four UI flags from whether the
  log is empty, clears the log, and keeps a list of observers. It calls
  every observer, in order, whenever the store reports an update.

Files:

- `property_list.dfy` (module `PropertyList`). `PList` stands for the
  untyped `Any`: `Dict`, `Arr`, `Str`, `Int`, `Date` and an `Other` leaf.
  `Decoded<T>` has three cases: `Ok`, `Absent` (the `nil` result) and
  `Fatal(tag)` (the `fatalError` trap).
- `property_list_serializable.dfy` (module `PropertyListSerializable`). It
  holds the `AppState`, `Int` and `Event` codecs and the `SerializableArray`
  collection with its generic codec. It also holds the round-trip and
  rejection lemmas, and the round trip of the whole persisted event log.
- `events_view_model.dfy` (module `EventsViewModels`). It holds the
  `DataStore<T>` class and the `EventsViewModel` class. `DataStore<T>` is a
  value plus update handlers. A write reports the handlers to invoke, in
  registration order.
  `EventsViewModel` holds its observers and derived flags.
  `NotifyObservers` and `DeleteAllData` return the observer calls they make
  as a trace of `Call(observer, events seen)`.

How the Swift constructs map to Dafny:

- An `as?` cast is a constructor test on `PList`.
- A dictionary lookup is `key in d` followed by `d[key]`.
- `flatMap` over the failable initialiser is `DecodeElements`. A trapping
  element ends the whole decoding with that element's tag, because
  `fatalError` aborts the `flatMap`.
- `init(_:)` and `init(arrayLiteral:)` of `SerializableArray` are the
  datatype constructor `SerializableArray(elements)`.
- `isEmpty` is the collection's default: start index equals end index.
- `UIApplicationState` is an enumeration imported from Objective-C. It is
  held as its raw integer, because Swift's raw-value initialiser for such an
  enumeration accepts every integer. The declared cases active, inactive and
  background are raw values 0, 1 and 2.

The source types the store and the view model over
`SerializableArray<HKSample>`. Here they are typed over `Event`, the only
event type in the source that has a property-list codec.

## Model

| member | source | states |
|---|---|---|
| PropertyListSerializable.FromRawValue | HealthyKitten/PropertyListSerializable.swift:93 | the raw-value initialiser succeeds for every integer, and the state carries that raw value |
| PropertyListSerializable.DecodeAppState | HealthyKitten/PropertyListSerializable.swift:89-94 | never traps; succeeds exactly on an integer, and the input is then that state's encoding; anything else is nil |
| PropertyListSerializable.EncodeAppState | HealthyKitten/PropertyListSerializable.swift:96-98 | the representation is an integer |
| PropertyListSerializable.AppStateRoundTrip | HealthyKitten/PropertyListSerializable.swift:88-99 | decoding a state's representation gives the same state, and distinct states encode differently |
| PropertyListSerializable.Description | HealthyKitten/PropertyListSerializable.swift:101-109 | a name exactly for the three declared cases, the entry of the table active/inactive/background at the raw value |
| PropertyListSerializable.DescriptionsDistinct | HealthyKitten/PropertyListSerializable.swift:101-109 | distinct declared cases have distinct descriptions |
| PropertyListSerializable.DecodeInt | HealthyKitten/PropertyListSerializable.swift:112-117 | never traps; succeeds exactly on an integer, and gives back that integer |
| PropertyListSerializable.EncodeInt | HealthyKitten/PropertyListSerializable.swift:119-121 | the representation is an integer |
| PropertyListSerializable.IntRoundTrip | HealthyKitten/PropertyListSerializable.swift:111-122 | decoding an integer's representation gives the same integer |
| PropertyListSerializable.DecodeEvent | HealthyKitten/PropertyListSerializable.swift:38-66 | traps exactly when the input is a dictionary whose string "type" is neither "HKEvent" nor "AppEvent", with that tag; a decoded event's record carries its own variant name as "type" |
| PropertyListSerializable.EncodeEvent | HealthyKitten/PropertyListSerializable.swift:68-85 | the record has exactly the variant's keys (five for HKEvent; type, receivedAt, appEvent for AppEvent) and "type" is the variant name |
| PropertyListSerializable.EventRoundTrip | HealthyKitten/PropertyListSerializable.swift:38-85 | decoding an event's representation gives the same event, for both variants |
| PropertyListSerializable.UntaggedIsAbsent | HealthyKitten/PropertyListSerializable.swift:39-43 | anything but a dictionary with a string "type" entry decodes to nil |
| PropertyListSerializable.HKEventFieldsRequired | HealthyKitten/PropertyListSerializable.swift:46-55 | an "HKEvent" record decodes, to an HKEvent, exactly when sampleType is a string, receivedAt a date, applicationState an integer and payload a dictionary; otherwise nil |
| PropertyListSerializable.AppEventFieldsRequired | HealthyKitten/PropertyListSerializable.swift:56-62 | an "AppEvent" record decodes, to an AppEvent, exactly when receivedAt is a date and appEvent a string; otherwise nil |
| PropertyListSerializable.DecodeThenEncode | HealthyKitten/PropertyListSerializable.swift:45-84 | re-encoding a decoded record gives the record restricted to its variant's keys: decoding reads nothing else |
| PropertyListSerializable.SerializableArray.IsEmpty | HealthyKitten/PropertyListSerializable.swift:141-149 | start index equals end index exactly when there are no elements |
| PropertyListSerializable.SerializableArray.StartIndex | HealthyKitten/PropertyListSerializable.swift:142-144 | the start index is 0, as an array's always is |
| PropertyListSerializable.SerializableArray.EndIndex | HealthyKitten/PropertyListSerializable.swift:146-148 | the end index lies exactly one element count beyond the start index |
| PropertyListSerializable.SerializableArray.At | HealthyKitten/PropertyListSerializable.swift:150-152 | a subscript within bounds yields the element at that index |
| PropertyListSerializable.SerializableArray.IndexAfter | HealthyKitten/PropertyListSerializable.swift:154-157 | traps exactly at the end index; any other index advances by one |
| PropertyListSerializable.SerializableArray.Walk | HealthyKitten/PropertyListSerializable.swift:154-157 | repeated index(after:) traps exactly when it would step from the end index, and otherwise lands the given number of places on |
| PropertyListSerializable.WalkStaysInBounds | HealthyKitten/PropertyListSerializable.swift:141-157 | stepping from a valid index never traps before the end index and lands the expected number of places on |
| PropertyListSerializable.WalkPastEnd | HealthyKitten/PropertyListSerializable.swift:154-157 | stepping from a valid index one place beyond the end index traps |
| PropertyListSerializable.IterationVisitsEachIndexOnce | HealthyKitten/PropertyListSerializable.swift:141-157 | from the start index, one step per element reaches the end index, and one more step traps |
| PropertyListSerializable.EncodeElements | HealthyKitten/PropertyListSerializable.swift:177-179 | one representation per element, same length, same order |
| PropertyListSerializable.DecodeElements | HealthyKitten/PropertyListSerializable.swift:171-173 | element-wise decoding never yields nil, and a result is never longer than the input |
| PropertyListSerializable.DecodeArray | HealthyKitten/PropertyListSerializable.swift:167-175 | nil exactly when the input is not an array; a decoded array is never longer than the input |
| PropertyListSerializable.EncodeArray | HealthyKitten/PropertyListSerializable.swift:177-179 | the representation is an array with one entry per element |
| PropertyListSerializable.SerializableArray.MapFrom | HealthyKitten/PropertyListSerializable.swift:178 | the collection's map from a valid index has one entry per remaining index, each the function applied to the element at that index |
| PropertyListSerializable.EncodeArrayIsCollectionMap | HealthyKitten/PropertyListSerializable.swift:177-179 | the encoding equals the collection's own map: the start index, index(after:) and the subscript visit every element in order |
| PropertyListSerializable.MapFromEncodesSuffix | HealthyKitten/PropertyListSerializable.swift:141-157 | mapping from any valid index over the collection gives the encodings of the elements from that index on |
| PropertyListSerializable.DecodeKeepsExactlyTheDecodable | HealthyKitten/PropertyListSerializable.swift:167-175 | with no trapping element, decoding succeeds and keeps exactly the elements that decode, in their original order, each with its decoded value |
| PropertyListSerializable.FirstFatalElementAborts | HealthyKitten/PropertyListSerializable.swift:171-173 | the first element that traps makes the whole array decoding trap with its tag |
| PropertyListSerializable.ElementsRoundTrip | HealthyKitten/PropertyListSerializable.swift:167-179 | element-wise decoding inverts element-wise encoding whenever the element codec round-trips |
| PropertyListSerializable.ArrayRoundTrip | HealthyKitten/PropertyListSerializable.swift:167-179 | decode(encode(xs)) == xs for the array wrapper: same length and order |
| PropertyListSerializable.EventLogRoundTrip | HealthyKitten/PropertyListSerializable.swift:133-179 | the persisted event log, an array of events, reads back exactly as written |
| EventsViewModels.Notifications | HealthyKitten/EventsViewModel.swift:49-53 | one pass calls each observer exactly once, in registration order |
| EventsViewModels.Dispatch | HealthyKitten/EventsViewModel.swift:18-26 | a subscriber whose handler is not registered gets no calls; a registered one gets calls that begin with a full notification pass |
| EventsViewModels.DispatchRepeats | HealthyKitten/EventsViewModel.swift:18-26 | a subscriber gets exactly one notification pass per registration of its handler, and nothing else |
| EventsViewModels.DispatchOnce | HealthyKitten/EventsViewModel.swift:18-26 | a view model whose handler is registered once gets exactly one notification pass per store update |
| EventsViewModels.DataStore.constructor | HealthyKitten/AppDelegate.swift:20 | a new cell holds its default value and no handlers |
| EventsViewModels.DataStore.AddUpdateHandler | HealthyKitten/EventsViewModel.swift:20 | the handler is appended after earlier ones, and the value is unchanged |
| EventsViewModels.DataStore.SetValue | HealthyKitten/EventsViewModel.swift:37 | the cell holds the new value, keeps its handlers, and reports all of them in registration order as the ones to invoke |
| EventsViewModels.EventsViewModel.constructor | HealthyKitten/EventsViewModel.swift:18-26 | wraps the store, starts with no observers, and registers its own handler exactly once (its invariant) |
| EventsViewModels.EventsViewModel.Events | HealthyKitten/EventsViewModel.swift:29 | the store's elements, same count and each at its own index |
| EventsViewModels.EventsViewModel.EmptyStateViewHidden | HealthyKitten/EventsViewModel.swift:31 | true exactly when the stored log is non-empty |
| EventsViewModels.EventsViewModel.HasContentViewHidden | HealthyKitten/EventsViewModel.swift:32 | true exactly when the stored log is empty |
| EventsViewModels.EventsViewModel.ClearButtonEnabled | HealthyKitten/EventsViewModel.swift:33 | true exactly when the stored log is non-empty |
| EventsViewModels.EventsViewModel.ExportButtonEnabled | HealthyKitten/EventsViewModel.swift:34 | true exactly when the stored log is non-empty |
| EventsViewModels.FlagsAgree | HealthyKitten/EventsViewModel.swift:31-34 | the empty-state flag is the negation of the content flag, and both button flags equal it |
| EventsViewModels.EventsViewModel.DeleteAllData | HealthyKitten/EventsViewModel.swift:36-38 | the log becomes empty, content hidden, both buttons disabled, handlers and observers unchanged, the invariant kept; exactly one notification pass over the empty log follows |
| EventsViewModels.EventsViewModel.AddObserver | HealthyKitten/EventsViewModel.swift:45-47 | the callback is appended at the end, earlier observers unchanged, the invariant kept |
| EventsViewModels.EventsViewModel.NotifyObservers | HealthyKitten/EventsViewModel.swift:49-53 | every registered observer is called exactly once, in registration order, seeing the current events |

## Left out

- EventsViewModels.EventsViewModel.NotifyObservers: an observer is an identifier. The trace records that it was called and what it could see. Its effects are not modelled, because a callback is arbitrary code.
- EventsViewModels.DataStore.SetValue: it returns the handlers to invoke, in registration order, instead of running them. A handler is a closure, which the model cannot store. Only the view model's own handler is then run, by `DeleteAllData`.
- EventsViewModels.EventsViewModel.DeleteAllData: handlers of other subscribers to the same store are listed but not run, because their code is not part of this model.
- The view model's handler holds its owner weakly and does nothing once the owner is gone. Deallocation is not modelled, so that case is missing.
- `UserDefaultsDataStore` and `Storable` are not part of this model. `DataStore` keeps the value in memory and starts from its default value, as on first launch. Writing to disk and reading a persisted value back are not modelled, and neither is falling back to the default when a persisted value does not decode.
- Foundation bridging is not modelled: an `NSNumber` that holds a boolean or a double does not pass as an integer here. Integers are unbounded rather than 64-bit, and a date is an integer timestamp rather than a floating-point one.
- `Event.description` interpolates a date and a dictionary with Foundation formatting, so it is not modelled. Only the fixed `UIApplicationState` names are.
- The store element type is `Event` rather than the source's `HKSample`, because `HKSample` has no property-list codec in the source.
- The HealthKit queries, the `Calendar` and `Date()` windows and the floating-point sleep total are not modelled. Neither are the HealthKit manager's observer-query plumbing, app-lifecycle and notification-permission code, the unread-counter badge reset, the view controllers and main-queue dispatch. These are framework, UI or floating-point code.
- `EventsViewController` matches on `.Sleep` and `.StepCount`, which are not cases of `Event`. It plays no part here.
- The Swift code does not reject payload values that are not property lists when it encodes. They pass through unchanged, since a payload is any map of `PList` values.
- String comparison follows code units. Swift compares `String` values by Unicode canonical equivalence, both in the `switch` on the tag and in dictionary key lookup. So a tag or key written with a different but canonically equivalent sequence of characters (the Kelvin sign U+212A for "K", say) matches in Swift but not in the model.
- PropertyListSerializable.SerializableArray.At: an index out of bounds is excluded by a precondition rather than modelled as a trap. The bounds check belongs to the `Array` subscript, which is outside this code. By contrast, the end-index check in `index(after:)` is an explicit `fatalError` in the code, and is modelled as the `None` outcome. Every use of the subscript in the model stays within bounds.
- PropertyListSerializable.Description: for a state outside the three declared cases, the `switch` has no branch. The model reads that as a trap (`None`); it gives no name for such a state.
- An unknown tag stops the process; it is never a `nil` result. The model follows that code.
