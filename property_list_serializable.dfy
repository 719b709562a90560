/** The property-list codecs: `Event`, `UIApplicationState`, `Int` and the
    generic `SerializableArray` wrapper, each with a failable decoder
    (`init?(propertyList:)`) and an encoder (`propertyListRepresentation()`). */
module PropertyListSerializable {
  import opened PropertyList

  // ---------------------------------------------------------------------------
  // UIApplicationState
  // ---------------------------------------------------------------------------

  /** `UIApplicationState`, an enumeration imported from Objective-C, held
      as its raw integer. The declared cases active, inactive and background
      have raw values 0, 1 and 2. The raw-value initialiser Swift generates
      for an imported enumeration does not check the value, so every other
      integer is a state as well. */
  datatype AppState = AppState(rawValue: int)

  const Active := AppState(0)
  const Inactive := AppState(1)
  const Background := AppState(2)

  /** The names `description` gives the declared cases, indexed by raw value. */
  const StateNames: seq<string> := ["active", "inactive", "background"]

  /** One of the three declared cases. */
  predicate IsDeclaredCase(s: AppState)
  {
    0 <= s.rawValue < |StateNames|
  }

  /** `UIApplicationState(rawValue:)`: succeeds for every integer. */
  function FromRawValue(raw: int): (r: Option<AppState>)
    ensures r.Some? && r.value.rawValue == raw
  {
    Some(AppState(raw))
  }

  /** `UIApplicationState.init?(propertyList:)`: any integer names a state;
      anything else is `nil`, never a trap. */
  function DecodeAppState(p: PList): (r: Decoded<AppState>)
    ensures !r.Fatal?
    ensures r.Ok? <==> p.Int?
    ensures r.Ok? ==> p == Int(r.value.rawValue)
  {
    if p.Int? then Ok(FromRawValue(p.number).value) else Absent
  }

  /** `UIApplicationState.propertyListRepresentation()`: the raw value. */
  function EncodeAppState(s: AppState): (r: PList)
    ensures r.Int?
  {
    Int(s.rawValue)
  }

  lemma AppStateRoundTrip(s: AppState)
    ensures DecodeAppState(EncodeAppState(s)) == Ok(s)
    ensures forall t: AppState :: t != s ==> EncodeAppState(t) != EncodeAppState(s)
  {
  }

  /** `UIApplicationState.description`: a switch over the three declared
      cases. A state outside them has no branch; the model reads that as a
      trap (`None`). */
  function Description(s: AppState): (name: Option<string>)
    ensures name.Some? <==> IsDeclaredCase(s)
    ensures name.Some? ==> name.value == StateNames[s.rawValue]
  {
    if s == Active then Some("active")
    else if s == Inactive then Some("inactive")
    else if s == Background then Some("background")
    else None
  }

  lemma DescriptionsDistinct(s: AppState, t: AppState)
    requires IsDeclaredCase(s) && IsDeclaredCase(t) && s != t
    ensures Description(s).value != Description(t).value
  {
  }

  // ---------------------------------------------------------------------------
  // Int
  // ---------------------------------------------------------------------------

  /** `Int.init?(propertyList:)`: an integer, or `nil`. */
  function DecodeInt(p: PList): (r: Decoded<int>)
    ensures !r.Fatal?
    ensures r.Ok? <==> p.Int?
    ensures r.Ok? ==> p == Int(r.value)
  {
    if p.Int? then Ok(p.number) else Absent
  }

  /** `Int.propertyListRepresentation()`: the integer itself. */
  function EncodeInt(n: int): (r: PList)
    ensures r.Int?
  {
    Int(n)
  }

  lemma IntRoundTrip(n: int)
    ensures DecodeInt(EncodeInt(n)) == Ok(n)
  {
  }

  // ---------------------------------------------------------------------------
  // Event
  // ---------------------------------------------------------------------------

  /** A received event: a HealthKit wakeup or an application event. */
  datatype Event =
    | HKEvent(sampleType: string, receivedAt: int, applicationState: AppState, payload: map<string, PList>)
    | AppEvent(receivedAt: int, appEvent: string)

  const TypeKey := "type"
  const SampleTypeKey := "sampleType"
  const ReceivedAtKey := "receivedAt"
  const ApplicationStateKey := "applicationState"
  const PayloadKey := "payload"
  const AppEventKey := "appEvent"

  const HKEventTag := "HKEvent"
  const AppEventTag := "AppEvent"

  /** The variant name an encoded event carries under "type". */
  function Tag(e: Event): string
  {
    match e
    case HKEvent(_, _, _, _) => HKEventTag
    case AppEvent(_, _) => AppEventTag
  }

  /** The keys of an encoded event's record. */
  function FieldsOf(e: Event): set<string>
  {
    match e
    case HKEvent(_, _, _, _) => {TypeKey, SampleTypeKey, ReceivedAtKey, ApplicationStateKey, PayloadKey}
    case AppEvent(_, _) => {TypeKey, ReceivedAtKey, AppEventKey}
  }

  /** A string-keyed dictionary with a string "type" entry. */
  predicate IsTagged(p: PList)
  {
    p.Dict? && TypeKey in p.entries && p.entries[TypeKey].Str?
  }

  /** A tagged record whose tag is neither of the two variant names. */
  predicate HasUnknownTag(p: PList)
  {
    IsTagged(p) && p.entries[TypeKey].text != HKEventTag && p.entries[TypeKey].text != AppEventTag
  }

  /** The fields an "HKEvent" record must carry, each of the right kind. */
  predicate HKEventFieldsValid(d: map<string, PList>)
  {
    && SampleTypeKey in d && d[SampleTypeKey].Str?
    && ReceivedAtKey in d && d[ReceivedAtKey].Date?
    && ApplicationStateKey in d && d[ApplicationStateKey].Int?
    && PayloadKey in d && d[PayloadKey].Dict?
  }

  /** The fields an "AppEvent" record must carry, each of the right kind. */
  predicate AppEventFieldsValid(d: map<string, PList>)
  {
    && ReceivedAtKey in d && d[ReceivedAtKey].Date?
    && AppEventKey in d && d[AppEventKey].Str?
  }

  function DecodeHKEvent(d: map<string, PList>): Decoded<Event>
  {
    if SampleTypeKey in d && d[SampleTypeKey].Str? && ReceivedAtKey in d && d[ReceivedAtKey].Date?
       && ApplicationStateKey in d && PayloadKey in d && d[PayloadKey].Dict?
    then
      match DecodeAppState(d[ApplicationStateKey])
      case Ok(state) =>
        Ok(HKEvent(d[SampleTypeKey].text, d[ReceivedAtKey].timestamp, state, d[PayloadKey].entries))
      case _ => Absent
    else
      Absent
  }

  function DecodeAppEvent(d: map<string, PList>): Decoded<Event>
  {
    if ReceivedAtKey in d && d[ReceivedAtKey].Date? && AppEventKey in d && d[AppEventKey].Str? then
      Ok(AppEvent(d[ReceivedAtKey].timestamp, d[AppEventKey].text))
    else
      Absent
  }

  /** `Event.init?(propertyList:)`. A record that is not a tagged dictionary
      is `nil`; an unknown tag stops the process; a known tag decodes the
      fields of its variant, or is `nil` when one is missing or ill-typed. */
  function DecodeEvent(p: PList): (r: Decoded<Event>)
    ensures r.Fatal? <==> HasUnknownTag(p)
    ensures r.Fatal? ==> HasUnknownTag(p) && r.tag == p.entries[TypeKey].text
    ensures r.Ok? ==> IsTagged(p) && p.entries[TypeKey] == Str(Tag(r.value))
  {
    if IsTagged(p) then
      var tag := p.entries[TypeKey].text;
      if tag == HKEventTag then DecodeHKEvent(p.entries)
      else if tag == AppEventTag then DecodeAppEvent(p.entries)
      else Fatal(tag)
    else
      Absent
  }

  /** `Event.propertyListRepresentation()`: a record tagged with the variant
      name, holding exactly that variant's fields. */
  function EncodeEvent(e: Event): (r: PList)
    ensures r.Dict? && r.entries.Keys == FieldsOf(e)
    ensures r.entries[TypeKey] == Str(Tag(e))
  {
    match e
    case HKEvent(sampleType, receivedAt, state, payload) =>
      Dict(map[TypeKey := Str(HKEventTag),
               SampleTypeKey := Str(sampleType),
               ReceivedAtKey := Date(receivedAt),
               ApplicationStateKey := EncodeAppState(state),
               PayloadKey := Dict(payload)])
    case AppEvent(receivedAt, appEvent) =>
      Dict(map[TypeKey := Str(AppEventTag),
               ReceivedAtKey := Date(receivedAt),
               AppEventKey := Str(appEvent)])
  }

  /** Decoding inverts encoding, for both variants. */
  lemma EventRoundTrip(e: Event)
    ensures DecodeEvent(EncodeEvent(e)) == Ok(e)
  {
  }

  /** Anything but a dictionary with a string "type" entry decodes to `nil`. */
  lemma UntaggedIsAbsent(p: PList)
    requires !IsTagged(p)
    ensures DecodeEvent(p) == Absent
  {
  }

  /** An "HKEvent" record decodes exactly when its four fields are present
      and well-typed (the state any integer); otherwise it is `nil`. */
  lemma HKEventFieldsRequired(d: map<string, PList>)
    requires TypeKey in d && d[TypeKey] == Str(HKEventTag)
    ensures DecodeEvent(Dict(d)).Ok? <==> HKEventFieldsValid(d)
    ensures !HKEventFieldsValid(d) ==> DecodeEvent(Dict(d)) == Absent
    ensures DecodeEvent(Dict(d)).Ok? ==> DecodeEvent(Dict(d)).value.HKEvent?
  {
  }

  /** An "AppEvent" record decodes exactly when "receivedAt" is a date and
      "appEvent" a string; otherwise it is `nil`. */
  lemma AppEventFieldsRequired(d: map<string, PList>)
    requires TypeKey in d && d[TypeKey] == Str(AppEventTag)
    ensures DecodeEvent(Dict(d)).Ok? <==> AppEventFieldsValid(d)
    ensures !AppEventFieldsValid(d) ==> DecodeEvent(Dict(d)) == Absent
    ensures DecodeEvent(Dict(d)).Ok? ==> DecodeEvent(Dict(d)).value.AppEvent?
  {
  }

  /** Decoding reads only the variant's own fields: re-encoding a decoded
      record gives back the record with every other key dropped. */
  lemma DecodeThenEncode(p: PList)
    requires DecodeEvent(p).Ok?
    ensures p.Dict?
    ensures EncodeEvent(DecodeEvent(p).value)
            == Dict(map k | k in p.entries && k in FieldsOf(DecodeEvent(p).value) :: p.entries[k])
  {
  }

  // ---------------------------------------------------------------------------
  // SerializableArray
  // ---------------------------------------------------------------------------

  /** A wrapper around an array whose elements have a property-list codec,
      and a collection indexed from 0 to the element count. */
  datatype SerializableArray<T> = SerializableArray(elements: seq<T>) {

    /** The first valid index. */
    function StartIndex(): (start: int)
      ensures start == 0
    {
      0
    }

    /** The index one past the last element. */
    function EndIndex(): (end: int)
      ensures end - StartIndex() == |elements|
    {
      |elements|
    }

    /** The collection's `isEmpty`: start and end index coincide. */
    function IsEmpty(): (empty: bool)
      ensures empty <==> elements == []
    {
      StartIndex() == EndIndex()
    }

    /** The collection subscript. */
    function At(i: int): (x: T)
      requires StartIndex() <= i < EndIndex()
      ensures x == elements[i] && x in elements
    {
      elements[i]
    }

    /** `index(after:)`: the next index, or a trap when asked to step past
        the end index. Only the end index itself is refused. */
    function IndexAfter(i: int): (next: Option<int>)
      ensures next.None? <==> i == |elements|
      ensures next.Some? ==> next.value == i + 1
    {
      if i == EndIndex() then None else Some(i + 1)
    }

    /** Applies `index(after:)` `steps` times from `i`; `None` once it traps. */
    function Walk(i: int, steps: nat): (last: Option<int>)
      ensures last.None? <==> i <= EndIndex() < i + steps
      ensures last.Some? ==> last.value == i + steps
      decreases steps
    {
      if steps == 0 then Some(i)
      else
        match IndexAfter(i)
        case None => None
        case Some(j) => Walk(j, steps - 1)
    }

    /** `map` as the collection provides it: from index `i`, apply `f` to
        the element at each index, stepping with `index(after:)` until the
        end index. */
    function MapFrom<U>(f: T -> U, i: int): (mapped: seq<U>)
      requires StartIndex() <= i <= EndIndex()
      ensures |mapped| == EndIndex() - i
      ensures forall k :: 0 <= k < |mapped| ==> mapped[k] == f(At(i + k))
      decreases EndIndex() - i
    {
      if i == EndIndex() then []
      else [f(At(i))] + MapFrom(f, IndexAfter(i).value)
    }
  }

  /** Stepping with `index(after:)` from a valid index never traps before the
      end index and lands on the index `steps` further on. */
  lemma {:induction false} WalkStaysInBounds<T>(a: SerializableArray<T>, i: int, steps: nat)
    requires 0 <= i && i + steps <= |a.elements|
    ensures a.Walk(i, steps) == Some(i + steps)
    decreases steps
  {
    if steps > 0 {
      WalkStaysInBounds(a, i + 1, steps - 1);
    }
  }

  /** Iterating from the start index reaches the end index after exactly one
      step per element, and one more step traps. */
  lemma {:induction false} IterationVisitsEachIndexOnce<T>(a: SerializableArray<T>)
    ensures a.Walk(a.StartIndex(), |a.elements|) == Some(a.EndIndex())
    ensures a.Walk(a.StartIndex(), |a.elements| + 1) == None
  {
    WalkStaysInBounds(a, 0, |a.elements|);
    WalkPastEnd(a, 0, |a.elements| + 1);
  }

  lemma {:induction false} WalkPastEnd<T>(a: SerializableArray<T>, i: int, steps: nat)
    requires 0 <= i <= |a.elements| && i + steps == |a.elements| + 1
    ensures a.Walk(i, steps) == None
    decreases steps
  {
    if i < |a.elements| {
      WalkPastEnd(a, i + 1, steps - 1);
    }
  }

  /** The element-wise encoding: one property list per element, in order. */
  function EncodeElements<T>(xs: seq<T>, encodeElement: T -> PList): (ps: seq<PList>)
    ensures |ps| == |xs|
    ensures forall i :: 0 <= i < |xs| ==> ps[i] == encodeElement(xs[i])
  {
    if xs == [] then [] else [encodeElement(xs[0])] + EncodeElements(xs[1..], encodeElement)
  }

  /** The element-wise decoding (`flatMap` over the failable initialiser):
      elements that decode to `nil` are dropped, and an element that traps
      stops the whole decoding. */
  function DecodeElements<T>(ps: seq<PList>, decodeElement: PList -> Decoded<T>): (r: Decoded<seq<T>>)
    ensures !r.Absent?
    ensures r.Ok? ==> |r.value| <= |ps|
  {
    if ps == [] then Ok([])
    else
      var head := decodeElement(ps[0]);
      if head.Fatal? then Fatal(head.tag)
      else
        var rest := DecodeElements(ps[1..], decodeElement);
        if head.Absent? || rest.Fatal? then rest
        else Ok([head.value] + rest.value)
  }

  /** `SerializableArray.init?(propertyList:)`: `nil` for anything but an
      array, otherwise the elements that decode. */
  function DecodeArray<T>(p: PList, decodeElement: PList -> Decoded<T>): (r: Decoded<SerializableArray<T>>)
    ensures r.Absent? <==> !p.Arr?
    ensures r.Ok? ==> |r.value.elements| <= |p.items|
  {
    if p.Arr? then
      match DecodeElements(p.items, decodeElement)
      case Ok(xs) => Ok(SerializableArray(xs))
      case Fatal(tag) => Fatal(tag)
    else
      Absent
  }

  /** `SerializableArray.propertyListRepresentation()`: an array holding the
      encoding of each element, in order. */
  function EncodeArray<T>(a: SerializableArray<T>, encodeElement: T -> PList): (r: PList)
    ensures r.Arr? && |r.items| == |a.elements|
  {
    Arr(EncodeElements(a.elements, encodeElement))
  }

  /** The encoder's element-wise encoding is the collection's own `map`:
      walking the indices with `index(after:)` and the subscript visits the
      elements in order. */
  lemma EncodeArrayIsCollectionMap<T>(a: SerializableArray<T>, encodeElement: T -> PList)
    ensures EncodeArray(a, encodeElement) == Arr(a.MapFrom(encodeElement, a.StartIndex()))
  {
    MapFromEncodesSuffix(a, encodeElement, 0);
  }

  lemma {:induction false} MapFromEncodesSuffix<T>(a: SerializableArray<T>, encodeElement: T -> PList, i: int)
    requires 0 <= i <= |a.elements|
    ensures a.MapFrom(encodeElement, i) == EncodeElements(a.elements[i..], encodeElement)
    decreases |a.elements| - i
  {
    if i < |a.elements| {
      MapFromEncodesSuffix(a, encodeElement, i + 1);
      assert a.elements[i..][1..] == a.elements[i + 1..];
    }
  }

  /** `kept` lists, in increasing order, the positions in `ps` of exactly the
      elements that decode, and `xs` holds what they decode to. */
  ghost predicate KeptPositions<T>(ps: seq<PList>, decodeElement: PList -> Decoded<T>, xs: seq<T>, kept: seq<int>)
  {
    && |kept| == |xs|
    && (forall k :: 0 <= k < |kept| ==> 0 <= kept[k] < |ps| && decodeElement(ps[kept[k]]) == Ok(xs[k]))
    && (forall k, l :: 0 <= k < l < |kept| ==> kept[k] < kept[l])
    && (forall j :: 0 <= j < |ps| && decodeElement(ps[j]).Ok? ==> j in kept)
  }

  /** Prepending an element moves every kept position one place on. */
  lemma ShiftPositions<T>(p: PList, ps: seq<PList>, decodeElement: PList -> Decoded<T>, xs: seq<T>, kept: seq<int>)
    returns (shifted: seq<int>)
    requires KeptPositions(ps, decodeElement, xs, kept)
    ensures |shifted| == |kept|
    ensures forall k :: 0 <= k < |shifted| ==> shifted[k] == kept[k] + 1
    ensures forall j :: 1 <= j < |ps| + 1 && decodeElement(([p] + ps)[j]).Ok? ==> j in shifted
  {
    var all := [p] + ps;
    shifted := seq(|kept|, k requires 0 <= k < |kept| => kept[k] + 1);
    forall j | 1 <= j < |all| && decodeElement(all[j]).Ok? ensures j in shifted {
      assert all[j] == ps[j - 1];
      var k :| 0 <= k < |kept| && kept[k] == j - 1;
      assert shifted[k] == j;
    }
  }

  /** Prepending an element that does not decode shifts every kept position
      by one. */
  lemma KeptPositionsSkip<T>(p: PList, ps: seq<PList>, decodeElement: PList -> Decoded<T>, xs: seq<T>, kept: seq<int>)
    returns (shifted: seq<int>)
    requires KeptPositions(ps, decodeElement, xs, kept)
    requires !decodeElement(p).Ok?
    ensures KeptPositions([p] + ps, decodeElement, xs, shifted)
  {
    var all := [p] + ps;
    shifted := ShiftPositions(p, ps, decodeElement, xs, kept);
    forall k | 0 <= k < |shifted| ensures 0 <= shifted[k] < |all| && decodeElement(all[shifted[k]]) == Ok(xs[k]) {
      assert all[shifted[k]] == ps[kept[k]];
    }
    forall k, l | 0 <= k < l < |shifted| ensures shifted[k] < shifted[l] {
      assert kept[k] < kept[l];
    }
    forall j | 0 <= j < |all| && decodeElement(all[j]).Ok? ensures j in shifted {
      assert j != 0;
    }
  }

  /** Prepending an element that decodes adds position 0 in front of the
      shifted positions. */
  lemma KeptPositionsCons<T>(p: PList, ps: seq<PList>, decodeElement: PList -> Decoded<T>, xs: seq<T>, kept: seq<int>)
    returns (kept': seq<int>)
    requires KeptPositions(ps, decodeElement, xs, kept)
    requires decodeElement(p).Ok?
    ensures KeptPositions([p] + ps, decodeElement, [decodeElement(p).value] + xs, kept')
  {
    var all := [p] + ps;
    var ys := [decodeElement(p).value] + xs;
    var shifted := ShiftPositions(p, ps, decodeElement, xs, kept);
    kept' := [0] + shifted;
    forall k | 0 <= k < |kept'| ensures 0 <= kept'[k] < |all| && decodeElement(all[kept'[k]]) == Ok(ys[k]) {
      if k > 0 {
        assert kept'[k] == shifted[k - 1] == kept[k - 1] + 1;
        assert all[kept'[k]] == ps[kept[k - 1]];
      }
    }
    forall k, l | 0 <= k < l < |kept'| ensures kept'[k] < kept'[l] {
      assert kept'[l] == kept[l - 1] + 1;
      if k > 0 {
        assert kept'[k] == kept[k - 1] + 1;
      }
    }
    forall j | 0 <= j < |all| && decodeElement(all[j]).Ok? ensures j in kept' {
      if j > 0 {
        assert j in shifted;
      }
    }
  }

  /** With no trapping element, decoding succeeds and keeps exactly the
      elements that decode, in their original order: `kept` lists their
      positions in increasing order. */
  lemma {:induction false} DecodeKeepsExactlyTheDecodable<T>(ps: seq<PList>, decodeElement: PList -> Decoded<T>)
    returns (kept: seq<int>)
    requires forall j :: 0 <= j < |ps| ==> !decodeElement(ps[j]).Fatal?
    ensures DecodeElements(ps, decodeElement).Ok?
    ensures KeptPositions(ps, decodeElement, DecodeElements(ps, decodeElement).value, kept)
  {
    if ps == [] {
      kept := [];
    } else {
      var tail := ps[1..];
      forall j | 0 <= j < |tail| ensures !decodeElement(tail[j]).Fatal? {
        assert tail[j] == ps[j + 1];
      }
      var keptTail := DecodeKeepsExactlyTheDecodable(tail, decodeElement);
      assert [ps[0]] + tail == ps;
      var xs := DecodeElements(tail, decodeElement).value;
      if decodeElement(ps[0]).Ok? {
        kept := KeptPositionsCons(ps[0], tail, decodeElement, xs, keptTail);
      } else {
        kept := KeptPositionsSkip(ps[0], tail, decodeElement, xs, keptTail);
      }
    }
  }

  /** The first element that traps decides the outcome: the whole array
      decoding traps with that element's tag. */
  lemma {:induction false} FirstFatalElementAborts<T>(ps: seq<PList>, decodeElement: PList -> Decoded<T>, j: int)
    requires 0 <= j < |ps| && decodeElement(ps[j]).Fatal?
    requires forall k :: 0 <= k < j ==> !decodeElement(ps[k]).Fatal?
    ensures DecodeElements(ps, decodeElement) == Fatal(decodeElement(ps[j]).tag)
  {
    if j > 0 {
      var tail := ps[1..];
      assert tail[j - 1] == ps[j];
      forall k | 0 <= k < j - 1 ensures !decodeElement(tail[k]).Fatal? {
        assert tail[k] == ps[k + 1];
      }
      FirstFatalElementAborts(tail, decodeElement, j - 1);
    }
  }

  /** Element-wise decoding inverts element-wise encoding whenever the
      element codec round-trips on every element. */
  lemma {:induction false} ElementsRoundTrip<T>(xs: seq<T>, encodeElement: T -> PList, decodeElement: PList -> Decoded<T>)
    requires forall i :: 0 <= i < |xs| ==> decodeElement(encodeElement(xs[i])) == Ok(xs[i])
    ensures DecodeElements(EncodeElements(xs, encodeElement), decodeElement) == Ok(xs)
  {
    if xs != [] {
      var ps := EncodeElements(xs, encodeElement);
      assert ps[0] == encodeElement(xs[0]);
      assert ps[1..] == EncodeElements(xs[1..], encodeElement);
      forall i | 0 <= i < |xs[1..]| ensures decodeElement(encodeElement(xs[1..][i])) == Ok(xs[1..][i]) {
        assert xs[1..][i] == xs[i + 1];
      }
      ElementsRoundTrip(xs[1..], encodeElement, decodeElement);
      assert [xs[0]] + xs[1..] == xs;
    }
  }

  /** The array codec round-trips: same length, same elements, same order. */
  lemma ArrayRoundTrip<T>(a: SerializableArray<T>, encodeElement: T -> PList, decodeElement: PList -> Decoded<T>)
    requires forall i :: 0 <= i < |a.elements| ==> decodeElement(encodeElement(a.elements[i])) == Ok(a.elements[i])
    ensures DecodeArray(EncodeArray(a, encodeElement), decodeElement) == Ok(a)
  {
    ElementsRoundTrip(a.elements, encodeElement, decodeElement);
  }

  /** The persisted event log round-trips through its property list. */
  lemma EventLogRoundTrip(log: SerializableArray<Event>)
    ensures DecodeArray(EncodeArray(log, EncodeEvent), DecodeEvent) == Ok(log)
  {
    forall i | 0 <= i < |log.elements|
      ensures DecodeEvent(EncodeEvent(log.elements[i])) == Ok(log.elements[i])
    {
      EventRoundTrip(log.elements[i]);
    }
    ArrayRoundTrip(log, EncodeEvent, DecodeEvent);
  }
}
