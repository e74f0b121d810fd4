/**
 The envelope transform of the JSON media type formatter. On the write path it
 picks the type to classify, consults the verdict cache and wraps the value in
 an `EnvelopeWrite` when the verdict says so; on the read path it classifies the
 declared target type and substitutes `EnvelopeRead<T>`, memoised in a second
 cache. Both caches are threaded through as plain maps.

 The transforms end where the base JSON formatter begins: the model returns the
 (type, payload) pair that the base `WriteToStreamAsync` receives and the type
 that the base `ReadFromStreamAsync` is asked to parse into.
 */
module Formatter {
  import opened ClrTypes
  import opened Classifier
  import Memo

  /** The `EnvelopeWrite` class: the outgoing wrapper. */
  const EnvelopeWriteType: ClrType := Declared(TypeInfo("EnvelopeWrite", "EnvelopeWrite", false, Public))

  /** The open `EnvelopeRead<>` definition: the incoming wrapper. */
  const EnvelopeReadDefinition: GenericDefinition :=
    Definition(TypeInfo("EnvelopeRead`1", "EnvelopeRead`1", false, Public))

  /** `typeof(EnvelopeRead<>).MakeGenericType(t)`. */
  function EnvelopeReadOf(t: ClrType): ClrType {
    Constructed(EnvelopeReadDefinition, t, [])
  }

  /** A value handed to the formatter. `contents` stands for the object's state,
      which the transform never inspects. */
  datatype Value =
    | Null
    | Instance(runtimeType: ClrType, contents: nat)
    | EnvelopeWrite(inner: Value)   // `new EnvelopeWrite(inner)`
  {
    /** `value.GetType()`, defined for non-null values only. */
    function GetType(): ClrType
      requires !Null?
    {
      match this
      case Instance(t, _) => t
      case EnvelopeWrite(_) => EnvelopeWriteType
    }
  }

  /** The formatter's mutable state: the two memo tables. */
  datatype Formatter = Formatter(
    verdicts: map<ClrType, bool>,             // _shouldEnvelopeCache
    envelopeTypes: map<ClrType, ClrType>)     // _envelopeTypeCache

  /** A freshly constructed formatter: both tables empty. */
  const NewFormatter: Formatter := Formatter(map[], map[])

  /** The tables hold only what the pure functions compute, and a read-envelope
      type is only ever built for a type whose verdict is "envelope". */
  ghost predicate Coherent(f: Formatter) {
    && Memo.Agrees(f.verdicts, ShouldEnvelope)
    && Memo.Agrees(f.envelopeTypes, EnvelopeReadOf)
    && forall t :: t in f.envelopeTypes ==> t in f.verdicts && f.verdicts[t]
  }

  /** `g` is a later state of `f`: no entry of either table was changed or dropped. */
  ghost predicate Evolves(f: Formatter, g: Formatter) {
    Memo.Grows(f.verdicts, g.verdicts) && Memo.Grows(f.envelopeTypes, g.envelopeTypes)
  }

  /** The arguments of the base `WriteToStreamAsync` call: the declared type and
      the payload. */
  datatype WriteCall = WriteCall(declaredType: ClrType, payload: Value)

  /** The type the write path classifies: the runtime type of a non-null value,
      and the declared type only for null. */
  function SerializedType(declared: ClrType, value: Value): (t: ClrType)
    ensures !value.Null? ==> t == value.GetType()
    ensures value.Null? ==> t == declared
  {
    if value.Null? then declared else value.GetType()
  }

  /** What the write path hands on, decided by the classifier alone. */
  function WriteCallFor(declared: ClrType, value: Value): (call: WriteCall)
    ensures call.declaredType == declared
    ensures call.payload == value || call.payload == EnvelopeWrite(value)
    ensures !value.Null? ==> (call.payload == EnvelopeWrite(value) <==> ShouldEnvelope(value.GetType()))
    ensures value.Null? ==> (call.payload == EnvelopeWrite(Null) <==> ShouldEnvelope(declared))
  {
    var payload := if ShouldEnvelope(SerializedType(declared, value)) then EnvelopeWrite(value) else value;
    WriteCall(declared, payload)
  }

  /** The type the read path parses into, decided by the classifier alone. */
  function ReadTargetFor(declared: ClrType): (target: ClrType)
    ensures target == EnvelopeReadOf(declared) <==> ShouldEnvelope(declared)
    ensures target == declared <==> !ShouldEnvelope(declared)
  {
    if ShouldEnvelope(declared) then EnvelopeReadOf(declared) else declared
  }

  /** `WriteToStreamAsync`: classifies through the verdict cache and wraps or
      passes the value through; the declared type is forwarded untouched. */
  function WriteToStream(f: Formatter, declared: ClrType, value: Value): (r: (WriteCall, Formatter))
    ensures r.0.declaredType == declared
    ensures r.0.payload == value || r.0.payload == EnvelopeWrite(value)
    ensures r.1.verdicts.Keys == f.verdicts.Keys + {SerializedType(declared, value)}
    ensures r.0.payload == EnvelopeWrite(value) <==> r.1.verdicts[SerializedType(declared, value)]
    ensures r.1.envelopeTypes == f.envelopeTypes
    ensures SerializedType(declared, value) in f.verdicts ==> r.1 == f
    ensures Evolves(f, r.1)
    ensures Coherent(f) ==> Coherent(r.1) && r.0 == WriteCallFor(declared, value)
  {
    var (envelope, verdicts) := Memo.GetOrAdd(f.verdicts, SerializedType(declared, value), ShouldEnvelope);
    var payload := if envelope then EnvelopeWrite(value) else value;
    assert value < EnvelopeWrite(value);
    (WriteCall(declared, payload), f.(verdicts := verdicts))
  }

  /** `ReadFromStreamAsync`: classifies the declared type through the verdict
      cache and, when it is to be enveloped, parses into the memoised
      `EnvelopeRead<declared>` instead. */
  function ReadFromStream(f: Formatter, declared: ClrType): (r: (ClrType, Formatter))
    ensures r.1.verdicts.Keys == f.verdicts.Keys + {declared}
    ensures r.1.verdicts[declared] ==>
      && r.1.envelopeTypes.Keys == f.envelopeTypes.Keys + {declared}
      && r.0 == r.1.envelopeTypes[declared]
    ensures !r.1.verdicts[declared] ==> r.0 == declared && r.1.envelopeTypes == f.envelopeTypes
    ensures declared in f.verdicts && (f.verdicts[declared] ==> declared in f.envelopeTypes) ==> r.1 == f
    ensures Evolves(f, r.1)
    ensures Coherent(f) ==> Coherent(r.1) && r.0 == ReadTargetFor(declared)
  {
    var (envelope, verdicts) := Memo.GetOrAdd(f.verdicts, declared, ShouldEnvelope);
    if envelope then
      var (target, envelopeTypes) := Memo.GetOrAdd(f.envelopeTypes, declared, EnvelopeReadOf);
      (target, Formatter(verdicts, envelopeTypes))
    else
      (declared, f.(verdicts := verdicts))
  }
}
