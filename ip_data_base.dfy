/** The property access of `IpDataBaseOnPremise`: the type-directed dispatch
    of `TryGetValue` to one of the abstract getters, the property type taken
    from the engine's metadata, and the one-shot population of the lower-cased
    dictionary behind `AsDictionary`. The getters themselves belong to the
    subclass; here they are the `fetch` function of a `Source`. */
module IpDataBase {
  import opened Common
  import opened ClrTypes

  /** The abstract getters `TryGetValue` can dispatch to. */
  datatype Getter =
    | WeightedStringList
    | WeightedDoubleList
    | WeightedFloatList
    | WeightedIntegerList
    | WeightedBoolList
    | IpAddress
    | WeightedIpList
    | Values

  /** `IAspectPropertyValue<t>` and the non-generic `IAspectPropertyValue`. */
  function IAspectPropertyValueOf(t: ClrType): ClrType {
    ClrType("FiftyOne.Pipeline.Engines.Data", "IAspectPropertyValue`1", [t])
  }
  const IAspectPropertyValueType := ClrType("FiftyOne.Pipeline.Engines.Data", "IAspectPropertyValue", [])

  /** The `T` of the `AspectPropertyValue<T>` each getter returns. */
  function ValueTypeOf(g: Getter): ClrType {
    match g
    case WeightedStringList => WeightedListOf(StringType)
    case WeightedDoubleList => WeightedListOf(DoubleType)
    case WeightedFloatList => WeightedListOf(SingleType)
    case WeightedIntegerList => WeightedListOf(Int32Type)
    case WeightedBoolList => WeightedListOf(BooleanType)
    case IpAddress => IpAddressType
    case WeightedIpList => WeightedListOf(IpAddressType)
    case Values => ReadOnlyListOf(StringType)
  }

  /** The run-time type of a getter's result. */
  function ResultTypeOf(g: Getter): ClrType {
    AspectPropertyValueOf(ValueTypeOf(g))
  }

  /** The inner types each getter serves: the reference table against which
      the `if` chain of `TryGetValue` is checked. */
  predicate Accepts(g: Getter, t: ClrType) {
    match g
    case WeightedStringList => t == StringType || t == WeightedListOf(StringType)
    case WeightedDoubleList => t == DoubleType || t == WeightedListOf(DoubleType)
    case WeightedFloatList => t == SingleType || t == WeightedListOf(SingleType)
    case WeightedIntegerList => t == Int32Type || t == WeightedListOf(Int32Type)
    case WeightedBoolList => t == BooleanType || t == WeightedListOf(BooleanType)
    case IpAddress => t == IpAddressType
    case WeightedIpList => t == WeightedListOf(IpAddressType)
    case Values => t == ObjectType
  }

  /** The getter `TryGetValue` calls for an inner type, tried in the order of
      its `if` chain; None when no branch matches (the value stays null). */
  function GetterFor(inner: ClrType): (r: Option<Getter>)
    ensures forall g :: r == Some(g) <==> Accepts(g, inner)
    ensures r == None <==> forall g :: !Accepts(g, inner)
  {
    if inner == StringType || inner == WeightedListOf(StringType) then Some(WeightedStringList)
    else if inner == DoubleType || inner == WeightedListOf(DoubleType) then Some(WeightedDoubleList)
    else if inner == SingleType || inner == WeightedListOf(SingleType) then Some(WeightedFloatList)
    else if inner == Int32Type || inner == WeightedListOf(Int32Type) then Some(WeightedIntegerList)
    else if inner == BooleanType || inner == WeightedListOf(BooleanType) then Some(WeightedBoolList)
    else if inner == IpAddressType then Some(IpAddress)
    else if inner == WeightedListOf(IpAddressType) then Some(WeightedIpList)
    else if inner == ObjectType then Some(Values)
    else None
  }

  /** Whether `(T)obj` succeeds for an `obj` of run-time type
      `AspectPropertyValue<v>`: `T` is that class, one of its interfaces, or
      object. */
  predicate CastSucceeds(target: ClrType, v: ClrType) {
    target == AspectPropertyValueOf(v) || target == IAspectPropertyValueOf(v) ||
    target == IAspectPropertyValueType || target == ObjectType
  }

  /** One entry of the engine's property metadata. */
  datatype PropertyMeta = PropertyMeta(name: string, ptype: ClrType)

  /** The first metadata entry named `name`, if any. */
  function FindProperty(props: seq<PropertyMeta>, name: string): (r: Option<PropertyMeta>)
    ensures r.Some? ==> r.value in props && r.value.name == name
    ensures r.None? <==> forall i | 0 <= i < |props| :: props[i].name != name
  {
    if props == [] then None
    else if props[0].name == name then Some(props[0])
    else FindProperty(props[1..], name)
  }

  /** `GetPropertyType`: object when the engine has no metadata; the indexer of
      the metadata dictionary throws for a name it does not hold. */
  function GetPropertyType(metadata: Option<seq<PropertyMeta>>, name: string): (r: Result<ClrType, Error>)
    ensures metadata.None? ==> r == Success(ObjectType)
    ensures metadata.Some? && r.Success? ==> PropertyMeta(name, r.value) in metadata.value
    ensures metadata.Some? && r.Failure? <==>
      metadata.Some? && forall p | p in metadata.value :: p.name != name
    ensures r.Failure? ==> r.error == KeyNotFoundException
  {
    match metadata
    case None => Success(ObjectType)
    case Some(props) =>
      match FindProperty(props, name)
      case None => Failure(KeyNotFoundException)
      case Some(p) => Success(p.ptype)
  }

  /** The type `TryGetValue` dispatches on: the property's own type when `T`
      is object, otherwise `T`'s first generic argument (an empty
      `GenericTypeArguments` makes the index throw). */
  function InnerType(requested: ClrType, key: string, metadata: Option<seq<PropertyMeta>>): Result<ClrType, Error> {
    if requested == ObjectType then GetPropertyType(metadata, key)
    else if |requested.args| == 0 then Failure(IndexOutOfRangeException)
    else Success(requested.args[0])
  }

  /** What a data instance offers `TryGetValue` before its dictionary is
      populated: `HasResults()`, `PropertyIsAvailable(key)`, the getter call
      `g(key)`, and the engine's property metadata. */
  datatype Source<V> = Source(
    hasResults: Result<bool, Error>,
    available: string -> Result<bool, Error>,
    fetch: (Getter, string) -> Result<V, Error>,
    metadata: Option<seq<PropertyMeta>>)

  /** The outcome of `TryGetValue<T>(key, out value)`: false, true with a
      (possibly null) value, or an exception. */
  datatype Lookup<V> = NotFound | Found(value: Option<V>) | Raised(error: Error)

  /** ASCII `ToLowerInvariant`. */
  function LowerInvariant(s: string): (r: string)
    ensures |r| == |s|
    ensures forall i | 0 <= i < |s| :: r[i] == (if 'A' <= s[i] <= 'Z' then (s[i] as int + 32) as char else s[i])
  {
    if s == [] then [] else
      [if 'A' <= s[0] <= 'Z' then (s[0] as int + 32) as char else s[0]] + LowerInvariant(s[1..])
  }

  /** The message of the exception thrown when the getter's result does not
      cast to `T`. */
  function CastFailure<V>(key: string, requested: ClrType, actual: ClrType): Lookup<V> {
    match PrettyTypeName(requested)
    case Failure(e) => Raised(e)
    case Success(expected) =>
      match PrettyTypeName(actual)
      case Failure(e) => Raised(e)
      case Success(actualName) =>
        Raised(PipelineException("Expected property '" + key + "' to be of type '" + expected +
          "' but it is '" + actualName + "'"))
  }

  /** A failed cast always throws: `PipelineException` exactly when both
      types format, and otherwise the formatting exception. */
  lemma CastFailureRaises<V>(key: string, requested: ClrType, actual: ClrType)
    ensures CastFailure<V>(key, requested, actual).Raised?
    ensures CastFailure<V>(key, requested, actual).error.PipelineException? <==>
      WellNamed(requested) && WellNamed(actual)
    ensures !(WellNamed(requested) && WellNamed(actual)) ==>
      CastFailure<V>(key, requested, actual).error == ArgumentOutOfRangeException("length")
  {
    PrettyTypeNameSucceedsIff(requested);
    PrettyTypeNameSucceedsIff(actual);
    PrettyTypeNameFailure(requested);
    PrettyTypeNameFailure(actual);
  }

  /** `TryGetValue<T>(key, out value)` with `T` = `requested`. Once the
      dictionary is populated it answers from the dictionary under the
      lower-cased key; before that it answers false without results, and
      otherwise exactly `PropertyIsAvailable(key)`, calling the getter the
      inner type selects only when the property is available. */
  function TryGetValue<V>(populated: bool, dictionary: map<string, Option<V>>, src: Source<V>,
                          key: string, requested: ClrType): (r: Lookup<V>)
    ensures populated ==>
      (r.NotFound? <==> LowerInvariant(key) !in dictionary) &&
      (r.Found? ==> r.value == dictionary[LowerInvariant(key)]) && !r.Raised?
    ensures !populated && src.hasResults == Success(false) ==> r == NotFound
    ensures !populated && src.hasResults == Success(true) && src.available(key).Success? ==>
      (r.NotFound? <==> !src.available(key).value)
    ensures !populated && r.Found? ==>
      src.hasResults == Success(true) && src.available(key) == Success(true) &&
      InnerType(requested, key, src.metadata).Success? &&
      var g := GetterFor(InnerType(requested, key, src.metadata).value);
      (r.value.Some? <==> g.Some?) &&
      (g.Some? ==> src.fetch(g.value, key) == Success(r.value.value) &&
                   CastSucceeds(requested, ValueTypeOf(g.value)))
    ensures !populated && src.hasResults.Failure? ==> r == Raised(src.hasResults.error)
    ensures !populated && src.hasResults == Success(true) && src.available(key).Failure? ==>
      r == Raised(src.available(key).error)
    ensures !populated && src.hasResults == Success(true) && src.available(key) == Success(true) ==>
      match InnerType(requested, key, src.metadata)
      case Failure(e) => r == Raised(e)
      case Success(inner) =>
        match GetterFor(inner)
        case None => r == Found(None)
        case Some(g) =>
          match src.fetch(g, key)
          case Failure(e) => r == Raised(e)
          case Success(obj) =>
            (CastSucceeds(requested, ValueTypeOf(g)) ==> r == Found(Some(obj))) &&
            (!CastSucceeds(requested, ValueTypeOf(g)) ==> r == CastFailure(key, requested, ResultTypeOf(g)))
  {
    if populated then
      var k := LowerInvariant(key);
      if k in dictionary then Found(dictionary[k]) else NotFound
    else
      match src.hasResults
      case Failure(e) => Raised(e)
      case Success(has) =>
        if !has then NotFound
        else
          match src.available(key)
          case Failure(e) => Raised(e)
          case Success(available) =>
            if !available then NotFound
            else
              match InnerType(requested, key, src.metadata)
              case Failure(e) => Raised(e)
              case Success(inner) =>
                match GetterFor(inner)
                case None => Found(None)
                case Some(g) =>
                  match src.fetch(g, key)
                  case Failure(e) => Raised(e)
                  case Success(obj) =>
                    if CastSucceeds(requested, ValueTypeOf(g)) then Found(Some(obj))
                    else CastFailure(key, requested, ResultTypeOf(g))
  }

  /** The framework's `GetAs<T>(key)`: the value `TryGetValue` found, a
      missing-property exception when it answered false. */
  function GetAs<V>(lookup: Lookup<V>, key: string): (r: Result<Option<V>, Error>)
    ensures r.Success? <==> lookup.Found?
    ensures lookup.NotFound? ==> r == Failure(PropertyMissingException(key))
    ensures lookup.Found? ==> r == Success(lookup.value)
    ensures lookup.Raised? ==> r == Failure(lookup.error)
  {
    match lookup
    case NotFound => Failure(PropertyMissingException(key))
    case Found(v) => Success(v)
    case Raised(e) => Failure(e)
  }

  /** ASCII `Equals(..., InvariantCultureIgnoreCase)`. */
  predicate EqualsIgnoreCase(a: string, b: string) {
    LowerInvariant(a) == LowerInvariant(b)
  }

  /** The `T` that `AsDictionary` asks `GetAs<T>` for, by the property's type;
      NetworkId is a single string rather than a weighted list. A type with no
      branch throws. */
  function DictionaryRequest(p: PropertyMeta): (r: Result<ClrType, Error>)
    ensures r.Failure? <==>
      p.ptype !in {StringType, DoubleType, Int32Type, SingleType, BooleanType, IpAddressType}
    ensures p.ptype == StringType && EqualsIgnoreCase(p.name, "NetworkId") ==>
      r == Success(AspectPropertyValueOf(StringType))
  {
    if p.ptype == StringType then
      if EqualsIgnoreCase(p.name, "NetworkId") then Success(AspectPropertyValueOf(StringType))
      else Success(AspectPropertyValueOf(WeightedListOf(StringType)))
    else if p.ptype == DoubleType then Success(AspectPropertyValueOf(WeightedListOf(DoubleType)))
    else if p.ptype == Int32Type then Success(AspectPropertyValueOf(WeightedListOf(Int32Type)))
    else if p.ptype == SingleType then Success(AspectPropertyValueOf(WeightedListOf(SingleType)))
    else if p.ptype == BooleanType then Success(AspectPropertyValueOf(WeightedListOf(BooleanType)))
    else if p.ptype == IpAddressType then Success(AspectPropertyValueOf(IpAddressType))
    else
      Failure(GeneralException("Unknown property type in data file. Property " + p.name +
        " has type " + p.ptype.name))
  }

  /** Every request other than NetworkId's asks for the result type of the
      getter that `TryGetValue` picks for the property's own type. */
  lemma DictionaryRequestGetter(p: PropertyMeta)
    requires DictionaryRequest(p).Success?
    requires !(p.ptype == StringType && EqualsIgnoreCase(p.name, "NetworkId"))
    ensures GetterFor(p.ptype).Some?
    ensures DictionaryRequest(p).value == ResultTypeOf(GetterFor(p.ptype).value)
  {
    var t := p.ptype;
    if t == StringType {
      assert GetterFor(t) == Some(WeightedStringList);
    } else if t == DoubleType {
      assert GetterFor(t) == Some(WeightedDoubleList);
    } else if t == Int32Type {
      assert GetterFor(t) == Some(WeightedIntegerList);
    } else if t == SingleType {
      assert GetterFor(t) == Some(WeightedFloatList);
    } else if t == BooleanType {
      assert GetterFor(t) == Some(WeightedBoolList);
    } else {
      assert GetterFor(t) == Some(IpAddress);
    }
  }

  /** The value `AsDictionary` stores for one property: `GetAs<T>` of its
      request, asked of the not-yet-populated instance. */
  function DictionaryEntry<V>(p: PropertyMeta, src: Source<V>): Result<Option<V>, Error> {
    match DictionaryRequest(p)
    case Failure(e) => Failure(e)
    case Success(t) => GetAs(TryGetValue(false, map[], src, p.name, t), p.name)
  }

  /** The dictionary `AsDictionary` builds from the properties in enumeration
      order, each stored under its lower-cased name with the value `entry`
      gives it; the first property that throws stops the population. */
  function Populate<V>(props: seq<PropertyMeta>, entry: PropertyMeta -> Result<Option<V>, Error>)
    : Result<map<string, Option<V>>, Error>
  {
    if props == [] then Success(map[])
    else
      match Populate(props[..|props| - 1], entry)
      case Failure(e) => Failure(e)
      case Success(d) =>
        var p := props[|props| - 1];
        match entry(p)
        case Failure(e) => Failure(e)
        case Success(v) => Success(d[LowerInvariant(p.name) := v])
  }

  /** The populated dictionary holds exactly the lower-cased property names. */
  lemma {:induction false} PopulateKeys<V>(props: seq<PropertyMeta>, entry: PropertyMeta -> Result<Option<V>, Error>)
    requires Populate(props, entry).Success?
    ensures Populate(props, entry).value.Keys == set p | p in props :: LowerInvariant(p.name)
  {
    if props != [] {
      var init := props[..|props| - 1];
      PopulateKeys(init, entry);
      assert props == init + [props[|props| - 1]];
    }
  }

  /** A property whose type has no branch, or whose value cannot be read,
      makes the whole population throw. */
  lemma {:induction false} PopulateFailsOnBadEntry<V>(props: seq<PropertyMeta>, entry: PropertyMeta -> Result<Option<V>, Error>, i: nat)
    requires i < |props|
    requires entry(props[i]).Failure?
    ensures Populate(props, entry).Failure?
  {
    if i < |props| - 1 {
      PopulateFailsOnBadEntry(props[..|props| - 1], entry, i);
    }
  }

  /** The value stored for a property whose lower-cased name no later
      property shares is the one `entry` gave it. */
  lemma {:induction false} PopulateValue<V>(props: seq<PropertyMeta>, entry: PropertyMeta -> Result<Option<V>, Error>, i: nat)
    requires i < |props|
    requires forall j | i < j < |props| :: LowerInvariant(props[j].name) != LowerInvariant(props[i].name)
    requires Populate(props, entry).Success?
    ensures entry(props[i]).Success?
    ensures LowerInvariant(props[i].name) in Populate(props, entry).value
    ensures Populate(props, entry).value[LowerInvariant(props[i].name)] == entry(props[i]).value
  {
    var init := props[..|props| - 1];
    if i < |props| - 1 {
      PopulateValue(init, entry, i);
    }
  }

  /** For every property other than NetworkId whose metadata entry is found
      under its name, `AsDictionary`'s request and the indexer's
      `GetAs<object>` reach the same getter and return the same value. */
  lemma EntryAgreesWithIndexer<V>(p: PropertyMeta, src: Source<V>)
    requires GetPropertyType(src.metadata, p.name) == Success(p.ptype)
    requires !(p.ptype == StringType && EqualsIgnoreCase(p.name, "NetworkId"))
    requires DictionaryEntry(p, src).Success?
    ensures DictionaryEntry(p, src) == GetAs(TryGetValue(false, map[], src, p.name, ObjectType), p.name)
  {
    var t := DictionaryRequest(p).value;
    DictionaryRequestGetter(p);
    var g := GetterFor(p.ptype).value;
    assert Accepts(g, p.ptype);
    assert InnerType(t, p.name, src.metadata) == Success(ValueTypeOf(g));
    assert Accepts(g, ValueTypeOf(g)) by {
      match g
      case WeightedStringList =>
      case WeightedDoubleList =>
      case WeightedFloatList =>
      case WeightedIntegerList =>
      case WeightedBoolList =>
      case IpAddress =>
      case WeightedIpList =>
      case Values =>
    }
    assert GetterFor(ValueTypeOf(g)) == Some(g);
  }

  /** The indexer and the populated dictionary agree on every property other
      than NetworkId whose metadata entry is found under its name and whose
      lower-cased name no later property shares: once populated,
      `TryGetValue` answers with what the indexer returned before. */
  lemma IndexerAgreesWithDictionary<V>(props: seq<PropertyMeta>, src: Source<V>, i: nat, requested: ClrType)
    requires i < |props|
    requires forall j | i < j < |props| :: LowerInvariant(props[j].name) != LowerInvariant(props[i].name)
    requires GetPropertyType(src.metadata, props[i].name) == Success(props[i].ptype)
    requires !(props[i].ptype == StringType && EqualsIgnoreCase(props[i].name, "NetworkId"))
    requires Populate(props, p => DictionaryEntry(p, src)).Success?
    ensures
      var d := Populate(props, p => DictionaryEntry(p, src)).value;
      var indexer := GetAs(TryGetValue(false, map[], src, props[i].name, ObjectType), props[i].name);
      indexer.Success? &&
      TryGetValue(true, d, src, props[i].name, requested) == Found(indexer.value)
  {
    var entry := p => DictionaryEntry(p, src);
    PopulateValue(props, entry, i);
    var d := Populate(props, entry).value;
    var e := DictionaryEntry(props[i], src);
    assert entry(props[i]) == e;
    EntryAgreesWithIndexer(props[i], src);
    var k := LowerInvariant(props[i].name);
    assert k in d && d[k] == e.value;
    PopulatedLookup(d, src, props[i].name, requested);
  }

  /** Once populated, `TryGetValue` answers from the dictionary alone. */
  lemma PopulatedLookup<V>(d: map<string, Option<V>>, src: Source<V>, key: string, requested: ClrType)
    requires LowerInvariant(key) in d
    ensures TryGetValue(true, d, src, key, requested) == Found(d[LowerInvariant(key)])
  {
    var r := TryGetValue(true, d, src, key, requested);
    assert r.Found? && r.value == d[LowerInvariant(key)];
  }

  /** NetworkId is asked for as `AspectPropertyValue<string>`, so `TryGetValue`
      dispatches its inner type `string` to the weighted-string getter, whose
      `AspectPropertyValue<IReadOnlyList<IWeightedValue<string>>>` does not
      cast to the requested type: an available NetworkId property makes
      `AsDictionary` throw. */
  lemma NetworkIdEntryThrows<V>(p: PropertyMeta, src: Source<V>)
    requires p.ptype == StringType && EqualsIgnoreCase(p.name, "NetworkId")
    requires src.hasResults == Success(true) && src.available(p.name) == Success(true)
    requires src.fetch(WeightedStringList, p.name).Success?
    ensures DictionaryEntry(p, src).Failure?
    ensures DictionaryEntry(p, src).error.PipelineException?
  {
    assert DictionaryRequest(p) == Success(AspectPropertyValueOf(StringType));
    SingleStringRequestThrows(src, p.name);
  }

  lemma SingleStringRequestThrows<V>(src: Source<V>, key: string)
    requires src.hasResults == Success(true) && src.available(key) == Success(true)
    requires src.fetch(WeightedStringList, key).Success?
    ensures TryGetValue(false, map[], src, key, AspectPropertyValueOf(StringType)).Raised?
    ensures TryGetValue(false, map[], src, key, AspectPropertyValueOf(StringType)).error.PipelineException?
  {
    var t := AspectPropertyValueOf(StringType);
    assert InnerType(t, key, src.metadata) == Success(StringType);
    assert GetterFor(StringType) == Some(WeightedStringList);
    assert !CastSucceeds(t, ValueTypeOf(WeightedStringList));
    WellNamedResult(t);
    WellNamedResult(ResultTypeOf(WeightedStringList));
  }

  lemma WellNamedResult(t: ClrType)
    requires t == AspectPropertyValueOf(StringType) || t == ResultTypeOf(WeightedStringList)
    ensures PrettyTypeName(t).Success?
  {
    assert "AspectPropertyValue`1"[19] == '`';
    assert "IReadOnlyList`1"[13] == '`';
    assert "IWeightedValue`1"[14] == '`';
    var w := WeightedValueOf(StringType);
    assert WellNamed(w) by { assert w.args[0] == StringType; }
    assert WellNamed(ReadOnlyListOf(w)) by { assert ReadOnlyListOf(w).args[0] == w; }
    PrettyTypeNameSucceedsIff(t);
  }
}
