# NEmberJS envelope formatter, modelled in Dafny

NEmberJS's JSON media type formatter sits between ASP.NET Web API and Json.NET.
Before a response body is written it decides, from a type alone, whether the
payload has to be wrapped in an Ember-style root envelope (`EnvelopeWrite`), and
before a request body is read it decides whether to parse into `EnvelopeRead<T>`
instead of `T`. The decision (`ShouldEnvelope`) is cached per type in a
`ConcurrentDictionary`, and so is the constructed `EnvelopeRead<T>` type.

This project models that decision engine and the two transforms built on it:

- `clr_types.dfy` (module `ClrTypes`): a .NET runtime type as an immutable
  datatype. It covers `object`, the non-generic `IEnumerable`, `string`,
  `DateTime`, `decimal`, the primitive types, arrays, `Nullable<T>`, closed generic
  types (definition plus a non-empty argument list) and non-generic declared types.
  The metadata the anonymous-type test reads are derived from the descriptor:
  `Name`, `IsGenericType`, `[CompilerGenerated]` and the `TypeAttributes` flag word
  (a `bv32`, with `NotPublic` = 0 as in .NET).
- `text.dfy` (module `Text`): the ordinal `StartsWith` and `Contains` string tests.
- `classifier.dfy` (module `Classifier`): `GetInnerType`, `IsAnonymousType`, and
  `ShouldEnvelope`. The classifier is written as an ordered list of rules
  (`Classify`); the first rule that matches decides.
- `classifier_properties.dfy`: the verdict worked out shape by shape.
- `memo.dfy` (module `Memo`): `GetOrAdd` on an append-only map.
- `formatter.dfy` (module `Formatter`): the state of the two caches,
  `WriteToStream` and `ReadFromStream`. Each returns what it hands to the base
  Json.NET formatter and the updated caches.
- `session.dfy` (module `Session`): a formatter serving a sequence of bodies. It
  proves the caches change nothing observable.
- `transform_properties.dfy`: the write and read paths on particular values.

Three consequences of the code are easy to miss, and the model keeps them:

- Only `IEnumerable<T>` itself is unwrapped by `GetInnerType`. The test
  `typeof(IEnumerable<>).IsAssignableFrom(type.GetGenericTypeDefinition())` compares
  open generic definitions, and an open `List<>` is not assignable to the open
  `IEnumerable<>`. So `List<int>` and `HashSet<string>` are classified as a whole
  and enveloped, although a reader might expect sequences of scalars to pass
  through raw (`ClassifierProperties.OtherGenericsClassifiedWhole`). For a
  non-null value the write path unwraps only arrays, because a runtime type is
  never an interface (`TransformProperties.WriteUnwrapsOnlyArrays`). A null is
  classified by its declared type, so `IEnumerable<T>` and `Nullable<T>` slots
  are still unwrapped for it (`TransformProperties.NullFallsBackToDeclared`).
- The visibility conjunct of the anonymous-type test masks with
  `TypeAttributes.NotPublic`, whose value is 0, so it holds for every type. A
  public type named like an anonymous type is therefore treated as anonymous,
  although the conjunct reads as if it required a non-public type
  (`Classifier.IsAnonymousType`).
- An anonymous type with no properties (`new { }`) is not generic, so it fails
  the `IsGenericType` conjunct and is enveloped
  (`ClassifierProperties.EmptyAnonymousTypeEnveloped`).

Values handed to the write path are `Null`, an `Instance` of some runtime type,
or an `EnvelopeWrite` wrapper around another value. The object's contents are an
opaque number, because the transform never looks at them.

## Model

| member | source | states |
|---|---|---|
| Classifier.GetInnerType | NEmberJS/MediaTypeFormatters/NEmberJSJsonMediaTypeFormatter.cs:129-149 | The inner type is the type itself or a proper component of it, so at most one layer is removed. It differs from the type exactly for arrays, `Nullable<T>` and `IEnumerable<T>`, and is the element, the underlying type or the first type argument respectively. |
| Classifier.Classify | NEmberJS/MediaTypeFormatters/NEmberJSJsonMediaTypeFormatter.cs:87-127 | The rule chosen for a type matches it, and no rule earlier in the evaluation order matches it. The checks therefore apply first-match in the source's order. |
| Classifier.ShouldEnvelope | NEmberJS/MediaTypeFormatters/NEmberJSJsonMediaTypeFormatter.cs:87-127 | A type is not enveloped iff it is `object` or `IEnumerable`, or its inner type is `string`, `DateTime`, `decimal`, a primitive or anonymous. The same verdict is also read off an independent table of outer shapes. |
| ClassifierProperties.ScalarShapesPassThrough | NEmberJS/MediaTypeFormatters/NEmberJSJsonMediaTypeFormatter.cs:98-118 | Strings, dates, decimals and primitives are not enveloped. Neither are their arrays, nullables or `IEnumerable<T>` sequences. |
| ClassifierProperties.AnonymousShapesPassThrough | NEmberJS/MediaTypeFormatters/NEmberJSJsonMediaTypeFormatter.cs:120-123 | Anonymous types are not enveloped. Neither are arrays, nullables or `IEnumerable<T>` of them. |
| ClassifierProperties.DeclaredTypesEnveloped | NEmberJS/MediaTypeFormatters/NEmberJSJsonMediaTypeFormatter.cs:126 | Every non-generic declared type is enveloped, and so are its arrays and `IEnumerable<T>` sequences. |
| ClassifierProperties.ContainersInheritElementVerdict | NEmberJS/MediaTypeFormatters/NEmberJSJsonMediaTypeFormatter.cs:129-149 | Wrapping a non-container type (other than `object` and `IEnumerable`) in an array, a nullable or an `IEnumerable<T>` leaves its verdict unchanged. |
| ClassifierProperties.OuterOnlyExemption | NEmberJS/MediaTypeFormatters/NEmberJSJsonMediaTypeFormatter.cs:89-98 | `object` and `IEnumerable` are exempt only as the outer type. `object[]`, `IEnumerable<object>`, `IEnumerable[]` and `IEnumerable<IEnumerable>` are enveloped. |
| ClassifierProperties.NestedContainersEnveloped | NEmberJS/MediaTypeFormatters/NEmberJSJsonMediaTypeFormatter.cs:129-149 | Two nested containers are enveloped whatever they hold, because only one layer is stripped. `int?[]` is enveloped. |
| ClassifierProperties.OtherGenericsClassifiedWhole | NEmberJS/MediaTypeFormatters/NEmberJSJsonMediaTypeFormatter.cs:142-146 | A generic type whose definition is not `IEnumerable<>` is not unwrapped. If it is not compiler-generated it is enveloped, even when it holds only scalars. |
| Classifier.IsAnonymousType | NEmberJS/MediaTypeFormatters/NEmberJSJsonMediaTypeFormatter.cs:151-162 | A type is anonymous iff it is a constructed generic type whose definition is compiler-generated and whose name contains `AnonymousType` and starts with `<>` or `VB$`. Its visibility flags play no part. |
| ClassifierProperties.CSharpAnonymousTypeExample | NEmberJS/MediaTypeFormatters/NEmberJSJsonMediaTypeFormatter.cs:158-161 | A C# anonymous type `<>f__AnonymousType0<int, string>` with any attribute flags is anonymous and not enveloped. An array of it is not enveloped either. |
| ClassifierProperties.VisualBasicAnonymousTypeExample | NEmberJS/MediaTypeFormatters/NEmberJSJsonMediaTypeFormatter.cs:160 | A sequence of a Visual Basic anonymous type `VB$AnonymousType_0<decimal>` is not enveloped. |
| ClassifierProperties.EmptyAnonymousTypeEnveloped | NEmberJS/MediaTypeFormatters/NEmberJSJsonMediaTypeFormatter.cs:159 | The non-generic compiler-generated type of `new { }` fails the generic conjunct and is enveloped. |
| Text.StartsWith | NEmberJS/MediaTypeFormatters/NEmberJSJsonMediaTypeFormatter.cs:160 | The prefix test is true iff the name is the prefix followed by some suffix. |
| Text.Contains | NEmberJS/MediaTypeFormatters/NEmberJSJsonMediaTypeFormatter.cs:159 | The name test is true iff the pattern occurs in the name at some index. |
| Memo.GetOrAdd | NEmberJS/MediaTypeFormatters/NEmberJSJsonMediaTypeFormatter.cs:63 | The lookup returns the table's entry for the key, and the key set grows by exactly that key. No existing entry changes. A present key leaves the table as it was. An absent key is stored with the factory's value, and that value is returned. A table that agrees with the factory still agrees afterwards, and the answer is then the factory's value. |
| Memo.GetOrAddStable | NEmberJS/MediaTypeFormatters/NEmberJSJsonMediaTypeFormatter.cs:81 | A second lookup of a key returns the first answer and changes nothing, whatever factory is passed the second time. |
| Formatter.SerializedType | NEmberJS/MediaTypeFormatters/NEmberJSJsonMediaTypeFormatter.cs:59-61 | The classified type is the value's runtime type whenever the value is non-null. The declared type is used only for null. |
| Formatter.WriteCallFor | NEmberJS/MediaTypeFormatters/NEmberJSJsonMediaTypeFormatter.cs:56-69 | The declared type is forwarded unchanged. The payload is the value or `EnvelopeWrite(value)`. A non-null value is wrapped iff its runtime type is enveloped, and a null is wrapped, kept as null inside, iff the declared type is enveloped. |
| Formatter.ReadTargetFor | NEmberJS/MediaTypeFormatters/NEmberJSJsonMediaTypeFormatter.cs:78-84 | The parse target is `EnvelopeRead<T>` iff `T` is enveloped, and `T` itself iff it is not. |
| Formatter.WriteToStream | NEmberJS/MediaTypeFormatters/NEmberJSJsonMediaTypeFormatter.cs:49-70 | The declared type is forwarded. The payload is wrapped iff the cached verdict for the classified type says so. The verdict cache gains only that type, and the envelope-type cache is untouched. When the verdict is already cached, neither cache changes. From coherent caches the result is the uncached write decision and the caches stay coherent. |
| Formatter.ReadFromStream | NEmberJS/MediaTypeFormatters/NEmberJSJsonMediaTypeFormatter.cs:72-85 | The verdict cache gains only the declared type. With an "envelope" verdict the target is the cached wrapper type, and that cache gains only this key. Otherwise the target is the declared type and that cache is untouched. When everything needed is already cached, neither cache changes. From coherent caches the target is the uncached read decision. |
| Session.Step | NEmberJS/MediaTypeFormatters/NEmberJSJsonMediaTypeFormatter.cs:49-85 | Serving one body adds exactly its classified type to the verdict cache. From coherent caches the response is the uncached decision, and the envelope-type cache gains the declared type exactly when a read is enveloped. From coherent caches, a body whose lookups all hit the cache leaves the caches unchanged. |
| Session.Serve | NEmberJS/MediaTypeFormatters/NEmberJSJsonMediaTypeFormatter.cs:22-26 | Across any sequence of bodies, one response is given per body, the verdict cache gains exactly the classified types, and no entry of either cache changes. |
| Session.ServeKeepsCoherent | NEmberJS/MediaTypeFormatters/NEmberJSJsonMediaTypeFormatter.cs:22-26 | From coherent caches, serving any sequence of bodies leaves the caches coherent. |
| Session.ServeBuildsReadEnvelopes | NEmberJS/MediaTypeFormatters/NEmberJSJsonMediaTypeFormatter.cs:78-81 | From coherent caches, the envelope-type cache gains exactly the declared types of the enveloped reads. |
| Session.ServeAsPrescribed | NEmberJS/MediaTypeFormatters/NEmberJSJsonMediaTypeFormatter.cs:49-85 | From coherent caches, every response in a sequence equals the uncached decision for its body. |
| Session.ServedFromStartAsPrescribed | NEmberJS/MediaTypeFormatters/NEmberJSJsonMediaTypeFormatter.cs:22-26 | From a freshly constructed formatter, after any sequence of bodies, the caches are coherent. The verdict cache holds exactly the classified types, and the envelope-type cache holds exactly the declared types of the enveloped reads. Every response was the uncached decision. |
| Session.WarmServeKeepsCaches | NEmberJS/MediaTypeFormatters/NEmberJSJsonMediaTypeFormatter.cs:22-26 | Serving bodies whose lookups are all already cached, from coherent caches, leaves both caches exactly as they were. |
| Session.ServingAgainChangesNothing | NEmberJS/MediaTypeFormatters/NEmberJSJsonMediaTypeFormatter.cs:63-81 | From coherent caches, serving a sequence of bodies a second time gives the same responses and leaves the caches as the first pass left them. |
| Session.RepeatedRequestStable | NEmberJS/MediaTypeFormatters/NEmberJSJsonMediaTypeFormatter.cs:78-81 | Serving the same body twice gives the same response and leaves the caches as the first time did. |
| Session.ResponseIndependentOfHistory | NEmberJS/MediaTypeFormatters/NEmberJSJsonMediaTypeFormatter.cs:63 | Two formatters with coherent caches but different histories give the same response to a body. |
| TransformProperties.RuntimeTypeWins | NEmberJS/MediaTypeFormatters/NEmberJSJsonMediaTypeFormatter.cs:59-61 | For a non-null value the declared type does not affect the payload. |
| TransformProperties.DomainObjectThroughObjectSlot | NEmberJS/MediaTypeFormatters/NEmberJSJsonMediaTypeFormatter.cs:59-69 | A domain object written through an `object` slot is wrapped, and `object` is still forwarded as the declared type. |
| TransformProperties.NullFallsBackToDeclared | NEmberJS/MediaTypeFormatters/NEmberJSJsonMediaTypeFormatter.cs:59-67 | A null declared as a domain type becomes `EnvelopeWrite(null)`. A null declared as `object` or `string` passes as null, and so does a null declared as `IEnumerable<int>` or `int?`, whose type is still unwrapped. |
| TransformProperties.PrimitiveValuePassesThrough | NEmberJS/MediaTypeFormatters/NEmberJSJsonMediaTypeFormatter.cs:63-67 | A boxed primitive is passed on unchanged whatever its declared type. |
| TransformProperties.WrappersAreEnveloped | NEmberJS/MediaTypeFormatters/NEmberJSJsonMediaTypeFormatter.cs:63-82 | An already wrapped value is wrapped again. Reading into `EnvelopeRead<T>` would substitute `EnvelopeRead<EnvelopeRead<T>>`. |
| TransformProperties.WriteUnwrapsOnlyArrays | NEmberJS/MediaTypeFormatters/NEmberJSJsonMediaTypeFormatter.cs:59-61 | For a non-null value whose runtime type is one `GetType()` can return, the classified type is unwrapped by `GetInnerType` only if it is an array. |
| TransformProperties.SequenceBehindEnumerableSlot | NEmberJS/MediaTypeFormatters/NEmberJSJsonMediaTypeFormatter.cs:59-84 | A `List<int>` written through a slot declared as `IEnumerable<int>` is wrapped. A body read as `IEnumerable<int>` is parsed directly. |
| TransformProperties.ReadTargets | NEmberJS/MediaTypeFormatters/NEmberJSJsonMediaTypeFormatter.cs:78-84 | A domain type and `IEnumerable<T>` of it are read through the envelope. `object` and primitive arrays are read directly. |

## Left out

- The constructor's serializer settings are not modelled: camel-case names, ISO dates, null-value handling and the whitespace-trimming converter (lines 30-42). They configure Json.NET and make no decision.
- `AddMetaProvider` (lines 44-47) only forwards to the Ember JSON converter, and that converter is not part of this model.
- `IsSideLoad` (lines 164-167) is never called by the formatter.
- The `ArgumentNullException` branch of `IsAnonymousType` (lines 153-156) cannot be reached from `ShouldEnvelope`. A type descriptor here is always a value.
- The base `WriteToStreamAsync` / `ReadFromStreamAsync` calls are asynchronous stream I/O and Json.NET serialization. The model stops at the arguments handed to them. A serialize-then-read round trip would need the envelope classes and the converter, which are not part of this model.
- `ConcurrentDictionary` thread safety is not modelled. The caches are sequential maps, and races between first lookups appear only as different orders of lookups (`Session.ResponseIndependentOfHistory`).
- `MakeGenericType` (line 81) failing is not modelled. The model assumes `EnvelopeRead<T>` accepts every enveloped type as its argument. The declaration of `EnvelopeRead<T>` is not part of this model. If it carried a constraint such as `where T : class`, the read path would throw for enveloped structs and `Nullable<S>`, and the model does not show that. Pointers, by-refs and `void` cannot be arguments either, but they are not representable in `ClrTypes`.
- `String.StartsWith(string)` is culture-sensitive in .NET. The model compares ordinally, which agrees on the ASCII patterns used here except for culture-ignorable characters inside a type name.
- The model also admits descriptors .NET cannot build, such as `Nullable<string>` or `Nullable<int?>`. They go through the same rules. The descriptors .NET can build are classified as the source classifies them.
- `Value.Instance` accepts any runtime type, including interfaces such as `IEnumerable<int>` and `Nullable<T>`, which `GetType()` never returns. For such a value the model lets the `IEnumerable<T>` or `Nullable<T>` branch of `GetInnerType` apply on the write path, which the program cannot do. `ClrType.CanBeRuntimeType` names the types `GetType()` can return, and `TransformProperties.WriteUnwrapsOnlyArrays` states the write path for them.
- `Declared` and `Definition` are assumed never to describe a framework type that has its own constructor. For example, `System.String` is always `StringType`, and `IEnumerable<>` is always `EnumerableOfT`. The model does not enforce this. A `Declared` copy of `string` would be a second cache key and would be enveloped.
- `TypeAttributes` of framework types, arrays and nullables are taken to be `Public`. The only flag the classifier reads, `NotPublic`, is zero, so no verdict depends on this.
