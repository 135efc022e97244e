# IP Intelligence on-premise data access, modelled in Dafny

This project models the core of the 51Degrees IP Intelligence .NET on-premise
engine's data access layer. It covers five parts:

- **The results holder** (`ResultsManager` in `IpDataBaseOnPremise`). It collects
  the native result sets of one request until someone first reads them, then
  refuses more, and disposes every non-null result exactly once.
- **The data instance** (`IpDataBaseOnPremise` and `IpDataOnPremise`):
  - `TryGetValue<T>` picks the getter from the inner type of `T`. For `T = object`
    it takes that type from the engine's property metadata.
  - It casts the getter's `AspectPropertyValue<...>` to `T`. A failed cast becomes
    a `PipelineException` that names the "pretty" type names.
  - Each getter answers from the first result set that contains the property.
    It sets exactly one of `Value` and `NoValueMessage`.
  - IP addresses are copied into a 16-byte buffer, which is cut to 4 bytes for IPv4.
  - `AsDictionary` fills a lower-cased dictionary once, then answers from it.
- **`UTF8StringSwig`**, the proxy of a native byte vector:
  - its ownership of the native memory (`swigRelease`, `Dispose`);
  - the `Capacity` setter;
  - the bounds-checked `CopyTo` overloads and `ToArray`;
  - its enumerator, a cursor that detects a change of size.
- **`UTF8Marshaler`**, which frames strings as NUL-terminated UTF-8 buffers and
  reads them back. UTF-8 itself follows section 3 of RFC 3629. Decoding replaces
  each maximal ill-formed subpart with U+FFFD.
- **`MetaDataService`**, which memoizes the default profile of each component.
  It has a one-shot "populate all" pass and is cleared whenever an engine refreshes.

Files and modules:

| file | module | contents |
|---|---|---|
| `common.dfy` | `Common` | `Option`, `Result`, `Outcome`, `Error` (one constructor per .NET exception thrown), `byte`, `int32`, `uint32` |
| `clr_types.dfy` | `ClrTypes` | .NET types as reflection sees them; the pretty type name |
| `results_manager.dfy` | `ResultsManagement` | `ResultsManager<R>` |
| `ip_data_base.dfy` | `IpDataBase` | getter dispatch, `GetPropertyType`, `TryGetValue`, the dictionary population |
| `ip_data_on_premise.dfy` | `IpDataOnPremise` | the getters over native results; the class `IpDataOnPremise`, which also carries the base class's dictionary state |
| `utf8.dfy` | `Utf8` | the UTF-8 encoder and decoder |
| `utf8_marshaler.dfy` | `Utf8Marshaling` | `UTF8Marshaler` |
| `utf8_string_swig.dfy` | `Utf8StringSwigs` | `UTF8StringSwig` and its enumerator |
| `meta_data_service.dfy` | `MetaDataServices` | `MetaDataService` |

C# exceptions are modelled as `Failure`/`Fail`/`Raised` values that carry an `Error`.
A C# `null` is `None`.
Native calls are modelled as follows:

- A native result set is a map from property name to the value reported for it.
- The native byte vector is a `seq<byte>` with a capacity.
- Native memory handed over by the marshaler is an `array?<byte>`.

Places where the model follows the code rather than its documentation:

- **`GetPropertyType`** falls back to `object` only when the engine has no
  metadata at all. For a name missing from existing metadata, the dictionary
  indexer throws `KeyNotFoundException`.
- **`NetworkId` in `AsDictionary`**: a `NetworkId` string property is requested
  as `AspectPropertyValue<string>`. `TryGetValue` sends its inner type `string`
  to the weighted-string getter. That result does not cast to the requested
  type, so when `NetworkId` is available `AsDictionary` throws a
  `PipelineException` (`IpDataBase.NetworkIdEntryThrows`).
- **"Enumeration finished."**: this `Current` error is never raised. `MoveNext`
  never moves past the last element, and after the end `Current` reports
  "Collection modified." (`Utf8StringSwigs.CurrentOfReachable`).

## Model

| member | source | states |
|---|---|---|
| `ResultsManagement.ResultsManager.GetResultsList` | FiftyOne.IpIntelligence.Shared/Data/IpDataBaseOnPremise.cs:61-71 | reading the list sets `ResultsAccessed` and returns the list; it never clears the flag |
| `ResultsManagement.ResultsManager.AddResult` | FiftyOne.IpIntelligence.Shared/Data/IpDataBaseOnPremise.cs:94-105 | before any read, appends exactly that result at the end (after which `HasResults` is true); after a read, throws `PipelineException` and leaves the list unchanged |
| `ResultsManagement.ResultsManager.Dispose` | FiftyOne.IpIntelligence.Shared/Data/IpDataBaseOnPremise.cs:121-151 | the first call disposes the non-null results in list order and nulls the list; later calls change nothing |
| `ResultsManagement.NonNullIsTheNonNullEntries` | FiftyOne.IpIntelligence.Shared/Data/IpDataBaseOnPremise.cs:139-145 | the results `Dispose` disposes are exactly the non-null entries, one call per entry |
| `ClrTypes.IndexOf` | FiftyOne.IpIntelligence.Shared/Data/IpDataBaseOnPremise.cs:589 | `IndexOf` gives the first position of the character, or -1 exactly when it is absent |
| `ClrTypes.PrettyTypeNameSucceedsIff` | FiftyOne.IpIntelligence.Shared/Data/IpDataBaseOnPremise.cs:580-600 | formatting succeeds iff every generic type in the tree has a back-tick in its name; otherwise `Substring(0, -1)` throws |
| `ClrTypes.PrettyArgsSucceedIff` | FiftyOne.IpIntelligence.Shared/Data/IpDataBaseOnPremise.cs:593-598 | the argument loop succeeds iff every argument formatted so far is well named |
| `ClrTypes.PrettyTypeNameGeneric` | FiftyOne.IpIntelligence.Shared/Data/IpDataBaseOnPremise.cs:580-607 | a generic type's pretty name is the name before the back-tick, then `<`, the arguments' pretty names joined by `", "`, then `>` |
| `ClrTypes.PrettyTypeNameBalanced` | FiftyOne.IpIntelligence.Shared/Data/IpDataBaseOnPremise.cs:580-600 | the pretty name has one `<` and one `>` per generic type in the tree |
| `IpDataBase.GetterFor` | FiftyOne.IpIntelligence.Shared/Data/IpDataBaseOnPremise.cs:523-559 | the `if` chain selects getter `g` iff the inner type is in `g`'s table of accepted types, and selects none iff no table holds it |
| `IpDataBase.FindProperty` | FiftyOne.IpIntelligence.Shared/Data/IpDataBaseOnPremise.cs:461 | the metadata entry with that name, or none exactly when no entry has it |
| `IpDataBase.GetPropertyType` | FiftyOne.IpIntelligence.Shared/Data/IpDataBaseOnPremise.cs:454-468 | null metadata gives `object`; otherwise the property's own type; a name that is not in the metadata throws `KeyNotFoundException` |
| `IpDataBase.TryGetValue` | FiftyOne.IpIntelligence.Shared/Data/IpDataBaseOnPremise.cs:491-576 | once populated, answers from the dictionary under the lower-cased key; otherwise false without results and false iff the property is unavailable; every exception of `HasResults`, `PropertyIsAvailable`, the type lookup or the getter propagates; an inner type no getter serves yields a null value; a getter result that casts to `T` is returned as found, and one that does not raises the cast failure; a found value is always a selected getter's value that casts to `T` |
| `IpDataBase.GetAs` | FiftyOne.IpIntelligence.Shared/Data/IpDataBaseOnPremise.cs:386-395 | returns exactly the value `TryGetValue` found; a property that is not found throws `PropertyMissingException`; an exception `TryGetValue` raised is rethrown unchanged |
| `IpDataBase.CastFailureRaises` | FiftyOne.IpIntelligence.Shared/Data/IpDataBaseOnPremise.cs:561-571 | a result of the wrong type always throws: a `PipelineException` naming both types exactly when both types format, and otherwise the `Substring` exception of the formatting |
| `IpDataBase.LowerInvariant` | FiftyOne.IpIntelligence.Shared/Data/IpDataBaseOnPremise.cs:389 | lower-casing keeps the length and maps `A`-`Z` to `a`-`z`, and nothing else |
| `IpDataBase.DictionaryRequest` | FiftyOne.IpIntelligence.Shared/Data/IpDataBaseOnPremise.cs:382-431 | throws iff the property type has no branch; `NetworkId` (any case) asks for a single string |
| `IpDataBase.DictionaryRequestGetter` | FiftyOne.IpIntelligence.Shared/Data/IpDataBaseOnPremise.cs:382-426 | every non-`NetworkId` type the dictionary accepts is requested as the result type of the getter `TryGetValue` picks for it |
| `IpDataBase.PopulateKeys` | FiftyOne.IpIntelligence.Shared/Data/IpDataBaseOnPremise.cs:377-434 | the populated dictionary's keys are exactly the lower-cased property names |
| `IpDataBase.PopulateFailsOnBadEntry` | FiftyOne.IpIntelligence.Shared/Data/IpDataBaseOnPremise.cs:427-431 | a property that throws makes the whole population throw |
| `IpDataBase.PopulateValue` | FiftyOne.IpIntelligence.Shared/Data/IpDataBaseOnPremise.cs:382-426 | a property whose lower-cased name no later property shares is stored with the value its request returned |
| `IpDataBase.EntryAgreesWithIndexer` | FiftyOne.IpIntelligence.Shared/Data/IpDataBaseOnPremise.cs:382-426 | for every type other than `NetworkId`, the dictionary's request and `GetAs<object>` reach the same getter and the same value |
| `IpDataBase.IndexerAgreesWithDictionary` | FiftyOne.IpIntelligence.Shared/Data/IpDataBaseOnPremise.cs:494-500 | after population, `TryGetValue` returns what the indexer returned before population |
| `IpDataBase.PopulatedLookup` | FiftyOne.IpIntelligence.Shared/Data/IpDataBaseOnPremise.cs:494-500 | once populated, a key present in the dictionary is found with the stored value, whatever the sources say |
| `IpDataBase.NetworkIdEntryThrows` | FiftyOne.IpIntelligence.Shared/Data/IpDataBaseOnPremise.cs:384-390 | an available `NetworkId` property makes its dictionary entry throw `PipelineException` |
| `IpDataBase.SingleStringRequestThrows` | FiftyOne.IpIntelligence.Shared/Data/IpDataBaseOnPremise.cs:523-571 | asking `TryGetValue` for `AspectPropertyValue<string>` of an available property throws `PipelineException` |
| `IpDataOnPremise.FirstContaining` | FiftyOne.IpIntelligence.Engine.OnPremise/Data/IpDataOnPremise.cs:85-95 | null iff every entry is a result set without the property; a found set contains the property and is an entry of the list; the only exception is a null reference |
| `IpDataOnPremise.FirstContainingStop` | FiftyOne.IpIntelligence.Engine.OnPremise/Data/IpDataOnPremise.cs:85-95 | when the walk stops early, every entry before the stop is a set without the property, and the stop is the returned set or the null entry that threw |
| `IpDataOnPremise.AvailableIffContaining` | FiftyOne.IpIntelligence.Engine.OnPremise/Data/IpDataOnPremise.cs:101-105 | `PropertyIsAvailable` is true iff `GetResultsContainingProperty` is non-null, and the two throw on the same lists |
| `IpDataOnPremise.FromNative` | FiftyOne.IpIntelligence.Engine.OnPremise/Data/IpDataOnPremise.cs:112-125 | exactly one of `Value` and `NoValueMessage` is set: the value iff the native value has one, the native message otherwise |
| `IpDataOnPremise.AddressBytes` | FiftyOne.IpIntelligence.Engine.OnPremise/Data/IpDataOnPremise.cs:258-265 | 4 bytes for IPv4 and 16 otherwise, each the native byte at that position, or 0 past the native bytes |
| `IpDataOnPremise.AddressValue` | FiftyOne.IpIntelligence.Engine.OnPremise/Data/IpDataOnPremise.cs:252-272 | never sets both `Value` and `NoValueMessage`; sets a `Value` iff the native value has a valid address, and then it is 4 bytes for IPv4 and 16 otherwise (the lengths the `IPAddress` constructor accepts), copied from the native bytes and zero-padded; sets the message iff there is no value, and it is the native message |
| `IpDataOnPremise.Fetch` | FiftyOne.IpIntelligence.Engine.OnPremise/Data/IpDataOnPremise.cs:107-127 | when no result set contains the property the value is empty; otherwise it is built from the first containing set, with `Value` set iff that set has a value |
| `IpDataOnPremise.PopulatePrefixFailure` | FiftyOne.IpIntelligence.Shared/Data/IpDataBaseOnPremise.cs:377-433 | the first property that throws ends the population with that exception |
| `IpDataOnPremise.IpDataOnPremise.constructor` | FiftyOne.IpIntelligence.Engine.OnPremise/Data/IpDataOnPremise.cs:65-72 | a new instance has an empty, unread results list and an unpopulated dictionary |
| `IpDataOnPremise.IpDataOnPremise.SetResults` | FiftyOne.IpIntelligence.Engine.OnPremise/Data/IpDataOnPremise.cs:77-80 | appends the result set iff no lookup has read the list; once one has, throws `PipelineException` |
| `IpDataOnPremise.IpDataOnPremise.GetResultsContainingProperty` | FiftyOne.IpIntelligence.Engine.OnPremise/Data/IpDataOnPremise.cs:85-95 | the loop returns `FirstContaining` of the list and marks the list as read |
| `IpDataOnPremise.IpDataOnPremise.PropertyIsAvailable` | FiftyOne.IpIntelligence.Engine.OnPremise/Data/IpDataOnPremise.cs:101-105 | whether some result set contains the property, throwing on a null entry before a match and `ArgumentNullException("source")` on the list `Dispose` set to null; marks the list as read |
| `IpDataOnPremise.IpDataOnPremise.GetValuesAsWeightedList` | FiftyOne.IpIntelligence.Engine.OnPremise/Data/IpDataOnPremise.cs:107-171 | each weighted-list getter returns `Fetch` for its getter: the native list iff the containing set has a value, else its message |
| `IpDataOnPremise.IpDataOnPremise.GetValuesAsWeightedWktStringList` | FiftyOne.IpIntelligence.Engine.OnPremise/Data/IpDataOnPremise.cs:220-241 | the WKT list for the requested decimal places iff the containing set has a value, else its message; empty when no set contains it |
| `IpDataOnPremise.IpDataOnPremise.GetValues` | FiftyOne.IpIntelligence.Engine.OnPremise/Data/IpDataOnPremise.cs:173-196 | the native strings in their order iff the containing set has a value, else its message |
| `IpDataOnPremise.IpDataOnPremise.GetValueAsIpAddress` | FiftyOne.IpIntelligence.Engine.OnPremise/Data/IpDataOnPremise.cs:243-276 | the address bytes built in the array (copy, then resize for IPv4) equal `AddressBytes` |
| `IpDataOnPremise.IpDataOnPremise.Get` | FiftyOne.IpIntelligence.Shared/Data/IpDataBaseOnPremise.cs:523-559 | the getter that a dispatch result names returns `Fetch` for it |
| `IpDataOnPremise.IpDataOnPremise.TryGetValue` | FiftyOne.IpIntelligence.Shared/Data/IpDataBaseOnPremise.cs:491-576 | agrees with `IpDataBase.TryGetValue` on the instance's state (the dictionary, the result sets' availability and getters, the metadata), so it returns a getter's value that casts to `T`, raises the cast failure otherwise, and propagates every exception; the results list is read (and so closed for `SetResults`) iff the dictionary is unpopulated and results exist |
| `IpDataOnPremise.IpDataOnPremise.GetAs` | FiftyOne.IpIntelligence.Shared/Data/IpDataBaseOnPremise.cs:386-395 | `IpDataBase.GetAs` over the instance's `TryGetValue`: the found value itself, `PropertyMissingException` when not found, and the raised exception rethrown |
| `IpDataOnPremise.IpDataOnPremise.DictionaryValue` | FiftyOne.IpIntelligence.Shared/Data/IpDataBaseOnPremise.cs:382-431 | one iteration of the population loop gives the property's dictionary entry |
| `IpDataOnPremise.IpDataOnPremise.PopulateDictionary` | FiftyOne.IpIntelligence.Shared/Data/IpDataBaseOnPremise.cs:377-433 | the loop over the metadata returns `Populate` of its properties, the first throwing property ending it with that exception; the results list is untouched |
| `IpDataOnPremise.IpDataOnPremise.AsDictionary` | FiftyOne.IpIntelligence.Shared/Data/IpDataBaseOnPremise.cs:367-441 | populates at most once; success merges `Populate` of the metadata into the dictionary and sets the flag; a throwing property leaves the instance unpopulated; later calls change nothing |
| `IpDataOnPremise.CopyStrings` | FiftyOne.IpIntelligence.Engine.OnPremise/Data/IpDataOnPremise.cs:184-187 | the copied list equals the native vector, in order |
| `IpDataOnPremise.CopyOfIpAddress` | FiftyOne.IpIntelligence.Engine.OnPremise/Data/IpDataOnPremise.cs:258-259 | the address bytes are written to the front of the buffer; the other cells are unchanged |
| `IpDataOnPremise.Resize` | FiftyOne.IpIntelligence.Engine.OnPremise/Data/IpDataOnPremise.cs:260-264 | a new array of the new length keeps the leading bytes, zero-filled past the old end |
| `Utf8.EncodeChar` | FiftyOne.IpIntelligence.Engine.OnPremise/Interop/Marshaler/UTF8Marshaller.cs:50 | 1 to 4 bytes; one byte iff the character is below U+0080; a multi-byte sequence has a lead byte in 0xC2..0xF4 and continuation bytes |
| `Utf8.DecodeOneEncodeChar` | FiftyOne.IpIntelligence.Engine.OnPremise/Interop/Marshaler/UTF8Marshaller.cs:50-84 | decoding a character's encoding gives the character back and consumes exactly its bytes |
| `Utf8.DecodeEncode` | FiftyOne.IpIntelligence.Engine.OnPremise/Interop/Marshaler/UTF8Marshaller.cs:50-84 | `GetString(GetBytes(s)) == s` |
| `Utf8.EncodeAppend` | FiftyOne.IpIntelligence.Engine.OnPremise/Interop/Marshaler/UTF8Marshaller.cs:50 | encoding a concatenation concatenates the encodings |
| `Utf8.EncodeZeroIffNul` | FiftyOne.IpIntelligence.Engine.OnPremise/Interop/Marshaler/UTF8Marshaller.cs:50-74 | the encoding holds a zero byte iff the string holds U+0000 |
| `Utf8Marshaling.Frame` | FiftyOne.IpIntelligence.Engine.OnPremise/Interop/Marshaler/UTF8Marshaller.cs:50-55 | the buffer is one byte longer than the UTF-8 bytes and ends in zero |
| `Utf8Marshaling.FirstZero` | FiftyOne.IpIntelligence.Engine.OnPremise/Interop/Marshaler/UTF8Marshaller.cs:71-78 | the walk stops at a zero byte with no zero byte before it |
| `Utf8Marshaling.TruncateAtNul` | FiftyOne.IpIntelligence.Engine.OnPremise/Interop/Marshaler/UTF8Marshaller.cs:74 | the string up to its first U+0000; equal to the string iff it holds none |
| `Utf8Marshaling.UnframeFrame` | FiftyOne.IpIntelligence.Engine.OnPremise/Interop/Marshaler/UTF8Marshaller.cs:50-85 | reading back a marshalled string gives the string cut at its first U+0000 |
| `Utf8Marshaling.UnframeEncoded` | FiftyOne.IpIntelligence.Engine.OnPremise/Interop/Marshaler/UTF8Marshaller.cs:50-85 | a buffer holding a NUL-free string's encoding, a zero byte and anything after reads back as that string |
| `Utf8Marshaling.RoundTrip` | FiftyOne.IpIntelligence.Engine.OnPremise/Interop/Marshaler/UTF8Marshaller.cs:50-85 | a string without U+0000 survives the round trip through native memory |
| `Utf8Marshaling.Utf8Marshaler.MarshalManagedToNative` | FiftyOne.IpIntelligence.Engine.OnPremise/Interop/Marshaler/UTF8Marshaller.cs:41-57 | null gives the zero pointer; a non-string throws `MarshalDirectiveException` with the incompatible-type message; a string gives a fresh buffer holding its UTF-8 bytes and one zero |
| `Utf8Marshaling.Utf8Marshaler.MarshalNativeToManaged` | FiftyOne.IpIntelligence.Engine.OnPremise/Interop/Marshaler/UTF8Marshaller.cs:69-86 | decodes exactly the bytes before the first zero byte; the zero pointer throws |
| `Utf8Marshaling.MarshalerStatics.GetInstance` | FiftyOne.IpIntelligence.Engine.OnPremise/Interop/Marshaler/UTF8Marshaller.cs:134-141 | the first call creates the instance, and every later call returns that same instance |
| `Utf8StringSwigs.Wrap32` | FiftyOne.IpIntelligence.Engine.OnPremise/Interop/Swig/UTF8StringSwig.cs:149 | unchecked `int` addition: congruent to the sum modulo 2^32, and the sum itself when it fits |
| `Utf8StringSwigs.GuardsAgreeWithoutOverflow` | FiftyOne.IpIntelligence.Engine.OnPremise/Interop/Swig/UTF8StringSwig.cs:149-150 | when the sums fit an `int`, the guard as written is the exact range test |
| `Utf8StringSwigs.CopyToGuardWraps` | FiftyOne.IpIntelligence.Engine.OnPremise/Interop/Swig/UTF8StringSwig.cs:149-150 | the guard as written lets through a range the exact test rejects |
| `Utf8StringSwigs.Utf8StringSwig.constructor` | FiftyOne.IpIntelligence.Engine.OnPremise/Interop/Swig/UTF8StringSwig.cs:18-21 | the proxy keeps the handle and the ownership flag it is given |
| `Utf8StringSwigs.Utf8StringSwig.SetCapacity` | FiftyOne.IpIntelligence.Engine.OnPremise/Interop/Swig/UTF8StringSwig.cs:102-106 | throws `ArgumentOutOfRangeException("Capacity")` iff the value is negative or below the size; otherwise the capacity becomes at least the value |
| `Utf8StringSwigs.Utf8StringSwig.CopyTo` | FiftyOne.IpIntelligence.Engine.OnPremise/Interop/Swig/UTF8StringSwig.cs:137-153 | rejects a null array, then negative arguments in order, then a range past either end (the array is then unchanged); otherwise `array[arrayIndex+i] = this[index+i]` for `i < count`, and no other cell changes |
| `Utf8StringSwigs.Utf8StringSwig.CopyToArray` | FiftyOne.IpIntelligence.Engine.OnPremise/Interop/Swig/UTF8StringSwig.cs:127-130 | copies the whole vector to the front of the array; fails iff the array is shorter than the vector |
| `Utf8StringSwigs.Utf8StringSwig.CopyToArrayAt` | FiftyOne.IpIntelligence.Engine.OnPremise/Interop/Swig/UTF8StringSwig.cs:132-135 | copies the whole vector from `arrayIndex`; fails iff it does not fit |
| `Utf8StringSwigs.Utf8StringSwig.ToArray` | FiftyOne.IpIntelligence.Engine.OnPremise/Interop/Swig/UTF8StringSwig.cs:155-159 | a new array of length `Count` holding the bytes in order |
| `Utf8StringSwigs.Utf8StringSwig.Dispose` | FiftyOne.IpIntelligence.Engine.OnPremise/Interop/Swig/UTF8StringSwig.cs:49-59 | zeroes the handle; frees native memory only if owned, and at most once over the proxy's life |
| `Utf8StringSwigs.SwigRelease` | FiftyOne.IpIntelligence.Engine.OnPremise/Interop/Swig/UTF8StringSwig.cs:27-38 | null gives the zero handle; memory that is not owned throws `ApplicationException` before touching the proxy, which stays exactly as it was; otherwise returns the original handle, clears ownership and disposes without freeing, leaving the items and capacity as they were |
| `Utf8StringSwigs.Step` | FiftyOne.IpIntelligence.Engine.OnPremise/Interop/Swig/UTF8StringSwig.cs:213-223 | moves iff `currentIndex+1 < size` and the size is unchanged; a move advances by one and caches that byte; otherwise the cached byte is cleared |
| `Utf8StringSwigs.CurrentOfReachable` | FiftyOne.IpIntelligence.Engine.OnPremise/Interop/Swig/UTF8StringSwig.cs:194-204 | `Current` gives the cached byte iff there is one; it never throws "Enumeration finished." |
| `Utf8StringSwigs.DrainYieldsRest` | FiftyOne.IpIntelligence.Engine.OnPremise/Interop/Swig/UTF8StringSwig.cs:213-223 | from any reachable state on an unmodified collection, the remaining bytes are yielded in order |
| `Utf8StringSwigs.ForeachYieldsItems` | FiftyOne.IpIntelligence.Engine.OnPremise/Interop/Swig/UTF8StringSwig.cs:186-223 | a `foreach` over an unmodified collection yields every byte once, in index order, `Count` times |
| `Utf8StringSwigs.Utf8StringSwigEnumerator.constructor` | FiftyOne.IpIntelligence.Engine.OnPremise/Interop/Swig/UTF8StringSwig.cs:186-191 | a new enumerator is not started (`currentIndex` = -1) and remembers `Count` |
| `Utf8StringSwigs.Utf8StringSwigEnumerator.Current` | FiftyOne.IpIntelligence.Engine.OnPremise/Interop/Swig/UTF8StringSwig.cs:194-204 | throws "Enumeration not started." before the first move; otherwise gives the cached byte iff there is one |
| `Utf8StringSwigs.Utf8StringSwigEnumerator.MoveNext` | FiftyOne.IpIntelligence.Engine.OnPremise/Interop/Swig/UTF8StringSwig.cs:213-223 | updates the cursor as `Step` does |
| `Utf8StringSwigs.Utf8StringSwigEnumerator.Reset` | FiftyOne.IpIntelligence.Engine.OnPremise/Interop/Swig/UTF8StringSwig.cs:225-231 | returns to not started; throws "Collection modified." iff the size changed since construction |
| `Utf8StringSwigs.Utf8StringSwigEnumerator.Dispose` | FiftyOne.IpIntelligence.Engine.OnPremise/Interop/Swig/UTF8StringSwig.cs:233-236 | returns to not started |
| `MetaDataServices.AllComponents` | FiftyOne.IpIntelligence.Shared/Services/MetaDataService.cs:89 | the components of all engines: exactly the components some engine has |
| `MetaDataServices.Matches` | FiftyOne.IpIntelligence.Shared/Services/MetaDataService.cs:89-90 | exactly the components with that id |
| `MetaDataServices.SingleMatchIffUnique` | FiftyOne.IpIntelligence.Shared/Services/MetaDataService.cs:89-91 | there is one match iff one position holds the id, and the match is the component there |
| `MetaDataServices.DefaultProfileForSome` | FiftyOne.IpIntelligence.Shared/Services/MetaDataService.cs:89-95 | the answer is profile `p` iff exactly one component across all engines has the id and its default profile is `p` |
| `MetaDataServices.DefaultProfileForNone` | FiftyOne.IpIntelligence.Shared/Services/MetaDataService.cs:89-95 | the answer is null when no component has the id, when several do, or when the only one has no default profile |
| `MetaDataServices.ComponentIds` | FiftyOne.IpIntelligence.Shared/Services/MetaDataService.cs:156-158 | one id per component, in engine order: every component's id is visited, and every visited id has at least one matching component, so the populate pass asks only about ids the rule can answer from |
| `MetaDataServices.NewMetaDataService` | FiftyOne.IpIntelligence.Shared/Services/MetaDataService.cs:63-74 | null engines throw `ArgumentNullException("engines")`; otherwise empty caches and the populate flag unset |
| `MetaDataServices.MetaDataService.DefaultProfileIdForComponent` | FiftyOne.IpIntelligence.Shared/Services/MetaDataService.cs:85-97 | a cached answer is returned unchanged; a miss computes the matching rule and caches it; every cached answer is that rule's answer for the current data |
| `MetaDataServices.MetaDataService.LookUpAll` | FiftyOne.IpIntelligence.Shared/Services/MetaDataService.cs:156-162 | the populate loop keeps every cached answer correct and leaves exactly the old keys plus the visited ids in the cache |
| `MetaDataServices.MetaDataService.DefaultProfilesIds` | FiftyOne.IpIntelligence.Shared/Services/MetaDataService.cs:147-166 | the populate pass runs once until cleared; afterwards every component id of every engine is a key, each with the rule's answer |
| `MetaDataServices.MetaDataService.ClearData` | FiftyOne.IpIntelligence.Shared/Services/MetaDataService.cs:179-184 | both caches are empty and the populate flag is false |
| `MetaDataServices.MetaDataService.RefreshCompleted` | FiftyOne.IpIntelligence.Shared/Services/MetaDataService.cs:174-177 | after an engine reloads, the caches are cleared, so later answers reflect the new data |

## Left out

- Locks, double-checked locking and `ConcurrentDictionary` atomicity: only the sequential behaviour is modelled.
- Finalizers and `GC.SuppressFinalize` are not modelled.
- The `disposing` argument of `ResultsManager.Dispose(bool)` selects nothing in the code and is not modelled.
- Native calls (`ResultsIpiSwig`, the native value wrappers, `delete_UTF8StringSwig`) are not modelled as code:
  - a native result set is a map from property names to the values it reports;
  - a native weighted list is an opaque handle;
  - freeing native memory is a ghost counter.
- `IpDataOnPremise.IpDataOnPremise.GetValuesAsWeightedList`: the float and IP-address weighted lists are given the same shape as the other weighted lists. `IpDataOnPremise.cs` does not override `GetValuesAsWeightedFloatList` or `GetValuesAsWeightedIPList`, so their on-premise behaviour is not known.
- `IpDataBase.CastSucceeds`: the cast `(T)obj` succeeds only for `AspectPropertyValue<V>`, `IAspectPropertyValue<V>`, `IAspectPropertyValue` and `object`. Interface variance, other base types and unboxing a null value are not modelled.
- `IpDataBase.GetAs`: the framework's `GetAs<T>` is not part of this model. It is taken as `TryGetValue`, with `PropertyMissingException` when that answers false. The missing-property service's other reasons are not modelled.
- The framework's dictionary `TryGetValue` and `PopulateFrom` are taken as a lookup by lower-cased key and a map merge.
- `IpDataBase.IndexerAgreesWithDictionary`: holds for every requested `T` because the populated lookup here returns the stored value without casting it to `T`; the framework's dictionary lookup then casts, which is not modelled. The indexer itself asks for `object`.
- `IpDataBase.LowerInvariant`: `ToLowerInvariant` and case-insensitive comparison cover ASCII only.
- Metadata entries whose value is null are not modelled. The metadata is a sequence in enumeration order, and a name lookup finds its first entry.
- `Constants.IPV4_LENGTH` and `Constants.IPV6_LENGTH` are taken as 4 and 16. `Constants` is not part of this model.
- `Utf8StringSwigs.Utf8StringSwig.CopyTo`: the `array.Rank > 1` check is not modelled, because a Dafny `array` has one dimension.
- `Utf8StringSwigs.Utf8StringSwig.SetCapacity`: states only that the capacity becomes at least the requested value, because native `reserve` may allocate more.
- `Utf8StringSwigs.Utf8StringSwig.Count`: `Count` casts the native `uint` size to `int`. The model keeps the size at most `int.MaxValue` and does not model that wrap.
- The other list members of `UTF8StringSwig` (`Add`, `Insert`, `Remove`, `GetRange` and so on) are outside this model.
- The non-generic `IEnumerator.Current` returns the same value as `Current` and is not modelled separately.
- `Utf8Marshaling.Utf8Marshaler.MarshalNativeToManaged`: requires a zero byte in the buffer. Without one the source reads past the end of the native memory, which cannot be modelled.
- `CleanUpNativeData`, `CleanUpManagedData` and `GetNativeDataSize` free or size native memory. They are not modelled.
- UTF-8 operates on Unicode scalar values. The UTF-16 lone surrogates that a .NET string can hold, and their U+FFFD replacement by the encoder, are not modelled.
- `MetaDataServices.NewMetaDataService`: the engines are a sequence of non-null component sequences. A null engine in the array, which the constructor dereferences when it subscribes to `RefreshCompleted` and throws `NullReferenceException` for, is not representable.
- `MetaDataServices.MetaDataService.DefaultProfilesIds`: returns a snapshot of the cache, not the live dictionary that later lookups keep filling.
- The engines' `RefreshCompleted` event subscription is modelled by the `RefreshCompleted` method, which receives the reloaded components.
- `ComponentIdForProfile` is commented out in the source. Its cache, `_profileIdToComponentId`, is only cleared.

## Findings

| source | as written | input that shows it | evidently intended | confidence | as-written member | corrected member |
|---|---|---|---|---|---|---|
| FiftyOne.IpIntelligence.Engine.OnPremise/Interop/Swig/UTF8StringSwig.cs:149 | `index+count > this.Count` or `arrayIndex+count > array.Length`, in unchecked 32-bit arithmetic, so the sums can wrap to negative values | `index = 1`, `arrayIndex = 1`, `count = int.MaxValue`, a 2-byte vector and a 2-byte array: both sums wrap to `int.MinValue` and pass the guard; the loop writes `array[1]`, then the native read at index 2 fails | reject every range that runs past the vector or the array with "Number of elements to copy is too large.", leaving the array untouched | not executed | `Utf8StringSwigs.CopyToGuardWraps` | `Utf8StringSwigs.Utf8StringSwig.CopyTo` |
