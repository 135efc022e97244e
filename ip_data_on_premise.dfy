/** `IpDataOnPremise`: the data instance of the on-premise engine. It holds
    the native result sets in a `ResultsManager`, answers each getter from the
    first result set that contains the property, and inherits the dispatch
    and the dictionary of `IpDataBaseOnPremise`, which this class carries as
    its own state. */
module IpDataOnPremise {
  import opened Common
  import opened ClrTypes
  import opened IpDataBase
  import opened ResultsManagement

  /** `Constants.IPV4_LENGTH` and `Constants.IPV6_LENGTH`. */
  const IPV4_LENGTH := 4
  const IPV6_LENGTH := 16

  /** The native IP address types. */
  datatype IpType = Invalid | IPv4 | IPv6

  /** A native IP address: its type and the bytes its copy function
      writes. */
  datatype NativeAddress = NativeAddress(ipType: IpType, bytes: seq<byte>)

  /** What a native result set reports for one property: whether it has a
      value, the message explaining why not, and the value in each shape the
      getters ask for (an opaque handle to a native weighted list, a string
      vector, an address). */
  datatype NativeValue = NativeValue(
    hasValue: bool,
    noValueMessage: string,
    handle: nat,
    strings: seq<string>,
    address: NativeAddress)

  /** A native result set (`ResultsIpiSwig`): the properties it contains. */
  datatype NativeResults = NativeResults(values: map<string, NativeValue>) {
    /** `containsProperty`. */
    predicate ContainsProperty(p: string) {
      p in values
    }
  }

  /** The native weighted lists a getter wraps. */
  datatype ListKind = Weighted(getter: Getter) | WeightedWkt(decimalPlaces: byte)

  /** The `Value` of an `AspectPropertyValue`: a wrapper over a native
      weighted list, a list of strings, or an address. */
  datatype Payload =
    | WeightedList(kind: ListKind, handle: nat)
    | Strings(items: seq<string>)
    | Address(bytes: seq<byte>)

  /** An `AspectPropertyValue`, with its `Value` (if set) and its
      `NoValueMessage` (if set). */
  datatype AspectValue = AspectValue(value: Option<Payload>, noValueMessage: Option<string>)

  /** A new `AspectPropertyValue` nothing has been set on. */
  const NoValue := AspectValue(None, None)

  /** The results list; None once Dispose has set it to null. */
  type ResultsList = Option<seq<Option<NativeResults>>>

  /** The entries before position `i` are all result sets without `p`. */
  ghost predicate SkipsTo(list: seq<Option<NativeResults>>, p: string, i: int) {
    i <= |list| && forall j | 0 <= j < i :: list[j].Some? && !list[j].value.ContainsProperty(p)
  }

  /** `GetResultsContainingProperty`: the first result set in list order that
      contains `p`, or null when none does; calling `containsProperty` on a
      null entry throws. */
  function FirstContaining(list: seq<Option<NativeResults>>, p: string): (r: Result<Option<NativeResults>, Error>)
    ensures r == Success(None) <==> SkipsTo(list, p, |list|)
    ensures r.Failure? ==> r.error == NullReferenceException
    ensures r.Success? && r.value.Some? ==> r.value.value.ContainsProperty(p) && r.value in list
  {
    if list == [] then Success(None)
    else if list[0].None? then Failure(NullReferenceException)
    else if list[0].value.ContainsProperty(p) then Success(list[0])
    else
      var r := FirstContaining(list[1..], p);
      assert SkipsTo(list, p, |list|) <==> SkipsTo(list[1..], p, |list| - 1) by {
        assert forall i | 0 <= i < |list| - 1 :: list[1..][i] == list[i + 1];
      }
      r
  }

  /** The entry `FirstContaining` stops at when it does not run off the end:
      every entry before it is a result set without `p`, and it is either
      the result set returned or the null entry that threw. */
  lemma {:induction false} FirstContainingStop(list: seq<Option<NativeResults>>, p: string) returns (i: nat)
    requires FirstContaining(list, p) != Success(None)
    ensures i < |list| && SkipsTo(list, p, i)
    ensures FirstContaining(list, p).Success? ==> list[i] == FirstContaining(list, p).value
    ensures FirstContaining(list, p).Failure? ==> list[i].None?
  {
    if list[0].None? || list[0].value.ContainsProperty(p) {
      i := 0;
    } else {
      var k := FirstContainingStop(list[1..], p);
      i := k + 1;
      assert forall j | 0 <= j < k :: list[1..][j] == list[j + 1];
      assert list[i] == list[1..][k];
    }
  }

  /** The LINQ `Any(r => r.containsProperty(p))` of `PropertyIsAvailable`,
      which stops at the first match and throws on a null entry before it. */
  function AnyContains(list: seq<Option<NativeResults>>, p: string): Result<bool, Error> {
    if list == [] then Success(false)
    else if list[0].None? then Failure(NullReferenceException)
    else if list[0].value.ContainsProperty(p) then Success(true)
    else AnyContains(list[1..], p)
  }

  /** `PropertyIsAvailable(p)` is true exactly when
      `GetResultsContainingProperty(p)` is non-null, and the two throw on the
      same lists. */
  lemma {:induction false} AvailableIffContaining(list: seq<Option<NativeResults>>, p: string)
    ensures AnyContains(list, p).Success? <==> FirstContaining(list, p).Success?
    ensures AnyContains(list, p).Success? ==>
      (AnyContains(list, p).value <==> FirstContaining(list, p).value.Some?)
  {
    if list != [] && list[0].Some? && !list[0].value.ContainsProperty(p) {
      AvailableIffContaining(list[1..], p);
    }
  }

  /** `GetResultsContainingProperty` on the list as the `ResultsList` getter
      returns it: iterating a null list throws. */
  function ContainingIn(list: ResultsList, p: string): Result<Option<NativeResults>, Error> {
    match list
    case None => Failure(NullReferenceException)
    case Some(l) => FirstContaining(l, p)
  }

  /** `PropertyIsAvailable(p)` on the list as the `ResultsList` getter returns
      it: LINQ `Any` on a null source throws `ArgumentNullException`. */
  function AvailableIn(list: ResultsList, p: string): Result<bool, Error> {
    match list
    case None => Failure(ArgumentNullException("source"))
    case Some(l) => AnyContains(l, p)
  }

  /** The `AspectPropertyValue` a getter builds from a native value: the
      value when the native value has one, otherwise the native message. */
  function FromNative(nv: NativeValue, payload: Payload): (r: AspectValue)
    ensures r.value.Some? != r.noValueMessage.Some?
    ensures nv.hasValue <==> r.value == Some(payload)
    ensures !nv.hasValue <==> r.noValueMessage == Some(nv.noValueMessage)
  {
    if nv.hasValue then AspectValue(Some(payload), None)
    else AspectValue(None, Some(nv.noValueMessage))
  }

  /** The bytes of the `IPAddress` built for a native address: the copy into
      a zeroed 16-byte buffer, cut to its first 4 bytes for IPv4. */
  function AddressBytes(a: NativeAddress): (r: seq<byte>)
    ensures |r| == if a.ipType == IPv4 then IPV4_LENGTH else IPV6_LENGTH
    ensures forall i | 0 <= i < |r| :: r[i] == if i < |a.bytes| then a.bytes[i] else 0
  {
    var buffer := seq(IPV6_LENGTH, i requires 0 <= i < IPV6_LENGTH => if i < |a.bytes| then a.bytes[i] else 0);
    if a.ipType == IPv4 then buffer[..IPV4_LENGTH] else buffer
  }

  /** `GetValueAsIpAddress` on a native value: an address when it has a
      valid one, nothing when its type is invalid, the message otherwise.
      Never both a value and a message; an address always has the 4 or 16
      bytes the `IPAddress` constructor accepts. */
  function AddressValue(nv: NativeValue): (r: AspectValue)
    ensures !(r.value.Some? && r.noValueMessage.Some?)
    ensures r.value.Some? <==> nv.hasValue && nv.address.ipType != Invalid
    ensures r.noValueMessage.Some? <==> !nv.hasValue
    ensures r.noValueMessage.Some? ==> r.noValueMessage.value == nv.noValueMessage
    ensures r.value.Some? ==>
      r.value.value.Address? &&
      |r.value.value.bytes| == (if nv.address.ipType == IPv4 then IPV4_LENGTH else IPV6_LENGTH) &&
      forall i | 0 <= i < |r.value.value.bytes| ::
        r.value.value.bytes[i] == if i < |nv.address.bytes| then nv.address.bytes[i] else 0
  {
    if !nv.hasValue then AspectValue(None, Some(nv.noValueMessage))
    else if nv.address.ipType == Invalid then NoValue
    else AspectValue(Some(Address(AddressBytes(nv.address))), None)
  }

  /** What getter `g` makes of a native value. */
  function ValueOf(g: Getter, nv: NativeValue): AspectValue {
    match g
    case Values => FromNative(nv, Strings(nv.strings))
    case IpAddress => AddressValue(nv)
    case _ => FromNative(nv, WeightedList(Weighted(g), nv.handle))
  }

  /** The result of getter `g` for property `p`: no value and no message when
      no result set contains `p`, otherwise what `g` makes of the first
      containing set's native value. */
  function Fetch(list: ResultsList, g: Getter, p: string): (r: Result<AspectValue, Error>)
    ensures r.Success? <==> ContainingIn(list, p).Success?
    ensures ContainingIn(list, p) == Success(None) ==> r == Success(NoValue)
    ensures ContainingIn(list, p).Success? && ContainingIn(list, p).value.Some? ==>
      var nv := ContainingIn(list, p).value.value.values[p];
      r == Success(ValueOf(g, nv)) &&
      (g != IpAddress ==> (r.value.value.Some? <==> nv.hasValue) &&
                          (r.value.noValueMessage.Some? <==> !nv.hasValue))
  {
    match ContainingIn(list, p)
    case Failure(e) => Failure(e)
    case Success(None) => Success(NoValue)
    case Success(Some(results)) => Success(ValueOf(g, results.values[p]))
  }

  /** What this instance offers the dispatch of `TryGetValue`. */
  function SourceOf(list: ResultsList, metadata: Option<seq<PropertyMeta>>): Source<AspectValue> {
    Source(HasResultsOf(list), k => AvailableIn(list, k), (g, k) => Fetch(list, g, k), metadata)
  }

  /** `AsDictionary` on a not-yet-populated instance: the metadata holds the
      properties in enumeration order (reading the values of a null
      metadata dictionary throws). */
  function PopulateFrom(list: ResultsList, metadata: Option<seq<PropertyMeta>>): Result<map<string, Option<AspectValue>>, Error> {
    match metadata
    case None => Failure(NullReferenceException)
    case Some(props) => Populate(props, EntryOf(list, metadata))
  }

  /** The value `AsDictionary` stores for each property. */
  function EntryOf(list: ResultsList, metadata: Option<seq<PropertyMeta>>): PropertyMeta -> Result<Option<AspectValue>, Error> {
    p => DictionaryEntry(p, SourceOf(list, metadata))
  }

  /** Once `Populate` has failed on a prefix of the properties it fails on
      the whole with the same exception. */
  lemma {:induction false} PopulatePrefixFailure<V>(props: seq<PropertyMeta>, entry: PropertyMeta -> Result<Option<V>, Error>, n: nat)
    requires n <= |props|
    requires Populate(props[..n], entry).Failure?
    ensures Populate(props, entry) == Populate(props[..n], entry)
    decreases |props| - n
  {
    if n < |props| {
      assert props[..n + 1][..n] == props[..n];
      PopulatePrefixFailure(props, entry, n + 1);
    } else {
      assert props[..n] == props;
    }
  }

  /** One more property extends a successful population. */
  lemma PopulateStep<V>(props: seq<PropertyMeta>, entry: PropertyMeta -> Result<Option<V>, Error>, i: nat,
                        dict: map<string, Option<V>>, v: Result<Option<V>, Error>)
    requires i < |props| && Populate(props[..i], entry) == Success(dict) && entry(props[i]) == v
    ensures v.Failure? ==> Populate(props[..i + 1], entry) == Failure(v.error)
    ensures v.Success? ==>
      Populate(props[..i + 1], entry) == Success(dict[LowerInvariant(props[i].name) := v.value])
  {
    assert props[..i + 1][..i] == props[..i];
  }

  class IpDataOnPremise {
    /** `Results`. */
    const results: ResultsManager<NativeResults>
    /** The engine's property metadata, `Pipeline.ElementAvailableProperties`
        for this engine's element, in enumeration order. */
    const metadata: Option<seq<PropertyMeta>>
    /** `_dictionaryPopulated`. */
    var dictionaryPopulated: bool
    /** The base class's dictionary of property values. */
    var dictionary: map<string, Option<AspectValue>>

    ghost predicate Valid()
      reads this, results
    {
      results.Valid()
    }

    constructor (metadata: Option<seq<PropertyMeta>>)
      ensures Valid() && fresh(results)
      ensures this.metadata == metadata
      ensures results.resultsList == Some([]) && !results.resultsAccessed && !results.disposed
      ensures !dictionaryPopulated && dictionary == map[]
    {
      this.metadata := metadata;
      results := new ResultsManager();
      dictionaryPopulated := false;
      dictionary := map[];
    }

    /** `SetResults`: adds a native result set, which throws once any lookup
        has read the results list. */
    method SetResults(r: Option<NativeResults>) returns (o: Outcome<Error>)
      requires Valid()
      modifies results`resultsList
      ensures Valid()
      ensures o == Pass <==> !old(results.resultsAccessed) && old(results.resultsList).Some?
      ensures o == Pass ==> results.resultsList == Some(old(results.resultsList).value + [r])
      ensures o.Fail? ==> results.resultsList == old(results.resultsList)
      ensures old(results.resultsAccessed) ==> o == Fail(PipelineException(CannotUpdateResults))
    {
      o := results.AddResult(r);
    }

    /** `GetResultsContainingProperty`: reads the results list and returns
        its first result set containing `p`. */
    method GetResultsContainingProperty(p: string) returns (r: Result<Option<NativeResults>, Error>)
      modifies results`resultsAccessed
      ensures results.resultsAccessed
      ensures r == ContainingIn(results.resultsList, p)
    {
      var list := results.GetResultsList();
      if list.None? {
        return Failure(NullReferenceException);
      }
      var l := list.value;
      var i := 0;
      while i < |l|
        invariant 0 <= i <= |l|
        invariant FirstContaining(l, p) == FirstContaining(l[i..], p)
      {
        if l[i].None? {
          return Failure(NullReferenceException);
        }
        if l[i].value.ContainsProperty(p) {
          return Success(l[i]);
        }
        assert l[i..][1..] == l[i + 1..];
        i := i + 1;
      }
      r := Success(None);
    }

    /** `PropertyIsAvailable`: reads the results list and asks whether some
        result set contains `p`. */
    method PropertyIsAvailable(p: string) returns (r: Result<bool, Error>)
      modifies results`resultsAccessed
      ensures results.resultsAccessed
      ensures r == AvailableIn(results.resultsList, p)
    {
      var list := results.GetResultsList();
      if list.None? {
        return Failure(ArgumentNullException("source"));
      }
      r := AnyContains(list.value, p);
    }

    /** The weighted-list getters (`GetValuesAsWeightedBoolList`,
        `...DoubleList`, `...IntegerList`, `...StringList`, and the float and
        IP lists that have the same shape). */
    method GetValuesAsWeightedList(g: Getter, p: string) returns (r: Result<AspectValue, Error>)
      requires g !in {IpAddress, Values}
      modifies results`resultsAccessed
      ensures results.resultsAccessed
      ensures r == Fetch(results.resultsList, g, p)
    {
      var found := GetResultsContainingProperty(p);
      match found
      case Failure(e) => r := Failure(e);
      case Success(None) => r := Success(NoValue);
      case Success(Some(res)) =>
        var nv := res.values[p];
        if nv.hasValue {
          r := Success(AspectValue(Some(WeightedList(Weighted(g), nv.handle)), None));
        } else {
          r := Success(AspectValue(None, Some(nv.noValueMessage)));
        }
    }

    /** `GetValuesAsWeightedWKTStringList`: the native WKT strings of `p`
        formatted with `decimalPlaces` decimal places. */
    method GetValuesAsWeightedWktStringList(p: string, decimalPlaces: byte) returns (r: Result<AspectValue, Error>)
      modifies results`resultsAccessed
      ensures results.resultsAccessed
      ensures r.Success? <==> ContainingIn(results.resultsList, p).Success?
      ensures ContainingIn(results.resultsList, p) == Success(None) ==> r == Success(NoValue)
      ensures ContainingIn(results.resultsList, p).Success? && ContainingIn(results.resultsList, p).value.Some? ==>
        var nv := ContainingIn(results.resultsList, p).value.value.values[p];
        r == Success(FromNative(nv, WeightedList(WeightedWkt(decimalPlaces), nv.handle)))
    {
      var found := GetResultsContainingProperty(p);
      match found
      case Failure(e) => r := Failure(e);
      case Success(None) => r := Success(NoValue);
      case Success(Some(res)) =>
        var nv := res.values[p];
        if nv.hasValue {
          r := Success(AspectValue(Some(WeightedList(WeightedWkt(decimalPlaces), nv.handle)), None));
        } else {
          r := Success(AspectValue(None, Some(nv.noValueMessage)));
        }
    }

    /** `GetValues`: the native string vector of `p`, copied in order. */
    method GetValues(p: string) returns (r: Result<AspectValue, Error>)
      modifies results`resultsAccessed
      ensures results.resultsAccessed
      ensures r == Fetch(results.resultsList, Values, p)
    {
      var found := GetResultsContainingProperty(p);
      match found
      case Failure(e) => r := Failure(e);
      case Success(None) => r := Success(NoValue);
      case Success(Some(res)) =>
        var nv := res.values[p];
        if nv.hasValue {
          var items := CopyStrings(nv.strings);
          r := Success(AspectValue(Some(Strings(items)), None));
        } else {
          r := Success(AspectValue(None, Some(nv.noValueMessage)));
        }
    }

    /** `GetValueAsIpAddress`: copies the native address into a 16-byte
        buffer and shrinks it to 4 bytes for IPv4; an invalid address sets
        neither the value nor the message. */
    method GetValueAsIpAddress(p: string) returns (r: Result<AspectValue, Error>)
      modifies results`resultsAccessed
      ensures results.resultsAccessed
      ensures r == Fetch(results.resultsList, IpAddress, p)
    {
      var found := GetResultsContainingProperty(p);
      match found
      case Failure(e) => r := Failure(e);
      case Success(None) => r := Success(NoValue);
      case Success(Some(res)) =>
        var nv := res.values[p];
        if nv.hasValue {
          if nv.address.ipType != Invalid {
            var address := new byte[IPV6_LENGTH](_ => 0);
            CopyOfIpAddress(nv.address, address);
            if nv.address.ipType == IPv4 {
              address := Resize(address, IPV4_LENGTH);
            }
            assert address[..] == AddressBytes(nv.address);
            r := Success(AspectValue(Some(Address(address[..])), None));
          } else {
            r := Success(NoValue);
          }
        } else {
          r := Success(AspectValue(None, Some(nv.noValueMessage)));
        }
    }

    /** The getter `TryGetValue` calls for `g`. */
    method Get(g: Getter, p: string) returns (r: Result<AspectValue, Error>)
      modifies results`resultsAccessed
      ensures results.resultsAccessed
      ensures r == Fetch(results.resultsList, g, p)
    {
      match g
      case Values => r := GetValues(p);
      case IpAddress => r := GetValueAsIpAddress(p);
      case _ => r := GetValuesAsWeightedList(g, p);
    }

    /** `TryGetValue<T>(key, out value)` with `T` = `requested`, as
        `IpDataBase.TryGetValue` specifies it for this instance's state. The
        results list is read, and so closed for `SetResults`, exactly when
        the dictionary is not populated and there are results. */
    method TryGetValue(key: string, requested: ClrType) returns (r: Lookup<AspectValue>)
      modifies results`resultsAccessed
      ensures r == IpDataBase.TryGetValue(dictionaryPopulated, dictionary,
        SourceOf(results.resultsList, metadata), key, requested)
      ensures results.resultsAccessed ==
        (old(results.resultsAccessed) || (!dictionaryPopulated && results.HasResults() == Success(true)))
    {
      if dictionaryPopulated {
        var k := LowerInvariant(key);
        return if k in dictionary then Found(dictionary[k]) else NotFound;
      }
      var has := results.HasResults();
      if has.Failure? {
        return Raised(has.error);
      }
      if !has.value {
        return NotFound;
      }
      var available := PropertyIsAvailable(key);
      if available.Failure? {
        return Raised(available.error);
      }
      if !available.value {
        return NotFound;
      }
      var inner := InnerType(requested, key, metadata);
      if inner.Failure? {
        return Raised(inner.error);
      }
      var g := GetterFor(inner.value);
      if g.None? {
        return Found(None);
      }
      var obj := Get(g.value, key);
      if obj.Failure? {
        return Raised(obj.error);
      }
      if CastSucceeds(requested, ValueTypeOf(g.value)) {
        r := Found(Some(obj.value));
      } else {
        r := CastFailure(key, requested, ResultTypeOf(g.value));
      }
    }

    /** `GetAs<T>(key)`. */
    method GetAs(key: string, requested: ClrType) returns (r: Result<Option<AspectValue>, Error>)
      modifies results`resultsAccessed
      ensures r == IpDataBase.GetAs(IpDataBase.TryGetValue(dictionaryPopulated, dictionary,
        SourceOf(results.resultsList, metadata), key, requested), key)
    {
      var lookup := TryGetValue(key, requested);
      r := IpDataBase.GetAs(lookup, key);
    }

    /** One iteration of the population loop of `AsDictionary`: the request
        for the property's type, then `GetAs` of it. */
    method DictionaryValue(p: PropertyMeta) returns (v: Result<Option<AspectValue>, Error>)
      requires !dictionaryPopulated
      modifies results`resultsAccessed
      ensures v == DictionaryEntry(p, SourceOf(results.resultsList, metadata))
    {
      var request := DictionaryRequest(p);
      if request.Failure? {
        return Failure(request.error);
      }
      v := GetAs(p.name, request.value);
    }

    /** The population loop of `AsDictionary`: every property in turn, the
        first that throws ending the pass with its exception. */
    method PopulateDictionary(props: seq<PropertyMeta>) returns (r: Result<map<string, Option<AspectValue>>, Error>)
      requires !dictionaryPopulated && metadata == Some(props)
      modifies results`resultsAccessed
      ensures results.resultsList == old(results.resultsList)
      ensures r == Populate(props, EntryOf(results.resultsList, metadata))
    {
      ghost var entry := EntryOf(results.resultsList, metadata);
      var dict: map<string, Option<AspectValue>> := map[];
      var i := 0;
      while i < |props|
        invariant 0 <= i <= |props|
        invariant Populate(props[..i], entry) == Success(dict)
        invariant results.resultsList == old(results.resultsList)
      {
        var p := props[i];
        var v := DictionaryValue(p);
        PopulateStep(props, entry, i, dict, v);
        if v.Failure? {
          PopulatePrefixFailure(props, entry, i + 1);
          return Failure(v.error);
        }
        dict := dict[LowerInvariant(p.name) := v.value];
        i := i + 1;
      }
      assert props[..i] == props;
      r := Success(dict);
    }

    /** `AsDictionary`: the first call that gets through populates the
        dictionary from every property of the metadata and sets the flag;
        later calls return the dictionary as it is. A property that throws
        leaves the instance unpopulated. */
    method AsDictionary() returns (r: Result<map<string, Option<AspectValue>>, Error>)
      modifies this`dictionaryPopulated, this`dictionary, results`resultsAccessed
      ensures results.resultsList == old(results.resultsList)
      ensures old(dictionaryPopulated) ==>
        dictionaryPopulated && dictionary == old(dictionary) && r == Success(dictionary)
      ensures !old(dictionaryPopulated) ==>
        match PopulateFrom(results.resultsList, metadata)
        case Failure(e) =>
          r == Failure(e) && !dictionaryPopulated && dictionary == old(dictionary)
        case Success(d) =>
          dictionaryPopulated && dictionary == old(dictionary) + d && r == Success(dictionary)
    {
      if !dictionaryPopulated {
        if metadata.None? {
          return Failure(NullReferenceException);
        }
        var populated := PopulateDictionary(metadata.value);
        if populated.Failure? {
          return Failure(populated.error);
        }
        dictionary := dictionary + populated.value;
        dictionaryPopulated := true;
      }
      r := Success(dictionary);
    }
  }

  /** `vector.ToList()`: a new list holding the vector's strings in order. */
  method CopyStrings(vector: seq<string>) returns (list: seq<string>)
    ensures list == vector
  {
    list := [];
    var i := 0;
    while i < |vector|
      invariant 0 <= i <= |vector|
      invariant list == vector[..i]
    {
      list := list + [vector[i]];
      i := i + 1;
    }
  }

  /** The native `getCopyOfIpAddress(copy, copy.Length)`: writes the
      address's bytes into the front of `copy`, as many as fit. */
  method CopyOfIpAddress(a: NativeAddress, copy: array<byte>)
    modifies copy
    ensures forall i | 0 <= i < copy.Length ::
      copy[i] == if i < |a.bytes| then a.bytes[i] else old(copy[i])
  {
    var i := 0;
    while i < copy.Length && i < |a.bytes|
      invariant 0 <= i <= copy.Length && i <= |a.bytes|
      invariant forall j | 0 <= j < copy.Length ::
        copy[j] == if j < i then a.bytes[j] else old(copy[j])
    {
      copy[i] := a.bytes[i];
      i := i + 1;
    }
  }

  /** `Array.Resize(ref a, n)`: a new array of length `n` holding the first
      elements of `a`, zero-filled past its end. */
  method Resize(a: array<byte>, n: nat) returns (b: array<byte>)
    ensures fresh(b) && b.Length == n
    ensures forall i | 0 <= i < n :: b[i] == if i < a.Length then a[i] else 0
  {
    b := new byte[n](_ => 0);
    var i := 0;
    while i < n && i < a.Length
      invariant 0 <= i <= n && i <= a.Length
      invariant forall j | 0 <= j < n :: b[j] == if j < i then a[j] else 0
    {
      b[i] := a[i];
      i := i + 1;
    }
  }
}
