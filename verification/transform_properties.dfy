/**
 What the write and read paths do with particular kinds of value and type.
 */
module TransformProperties {
  import opened ClrTypes
  import opened Classifier
  import opened Formatter

  /** For a non-null value the declared type plays no part in the decision: a
      domain object returned through a slot declared as `object` is treated as
      if it had been declared with its own type. */
  lemma RuntimeTypeWins(declared: ClrType, other: ClrType, value: Value)
    requires !value.Null?
    ensures WriteCallFor(declared, value).payload == WriteCallFor(other, value).payload
  {
  }

  /** A domain object written through a slot declared as `object` is enveloped,
      and the declared type handed on stays `object`. */
  lemma DomainObjectThroughObjectSlot(info: TypeInfo, contents: nat)
    ensures var v := Instance(Declared(info), contents);
      WriteCallFor(ObjectType, v) == WriteCall(ObjectType, EnvelopeWrite(v))
  {
  }

  /** A null value is classified by its declared type: declared as a domain type
      it is wrapped, the null kept inside the wrapper; declared as `object` or
      `string` it is passed on as null. Declared as `IEnumerable<int>` or `int?`,
      its type is still unwrapped, so it is passed on as null too. */
  lemma NullFallsBackToDeclared(info: TypeInfo)
    ensures WriteCallFor(Declared(info), Null) == WriteCall(Declared(info), EnvelopeWrite(Null))
    ensures WriteCallFor(ObjectType, Null) == WriteCall(ObjectType, Null)
    ensures WriteCallFor(StringType, Null) == WriteCall(StringType, Null)
    ensures WriteCallFor(EnumerableOf(Primitive(Int32)), Null) == WriteCall(EnumerableOf(Primitive(Int32)), Null)
    ensures WriteCallFor(NullableOf(Primitive(Int32)), Null) == WriteCall(NullableOf(Primitive(Int32)), Null)
  {
  }

  /** A boxed primitive is passed on unchanged whatever it was declared as. */
  lemma PrimitiveValuePassesThrough(declared: ClrType, kind: PrimitiveKind, contents: nat)
    ensures WriteCallFor(declared, Instance(Primitive(kind), contents)).payload == Instance(Primitive(kind), contents)
  {
  }

  /** A value that is already wrapped is wrapped again: the `EnvelopeWrite` class
      is an ordinary declared type. Likewise reading into `EnvelopeRead<T>` would
      substitute `EnvelopeRead<EnvelopeRead<T>>`. */
  lemma WrappersAreEnveloped(value: Value, t: ClrType)
    ensures WriteCallFor(ObjectType, EnvelopeWrite(value)).payload == EnvelopeWrite(EnvelopeWrite(value))
    ensures ReadTargetFor(EnvelopeReadOf(t)) == EnvelopeReadOf(EnvelopeReadOf(t))
  {
  }

  /** Reading a domain type, or a sequence of one, parses into the read envelope;
      reading `object`, a scalar or a scalar array parses directly. */
  lemma ReadTargets(info: TypeInfo, kind: PrimitiveKind)
    ensures ReadTargetFor(Declared(info)) == EnvelopeReadOf(Declared(info))
    ensures ReadTargetFor(EnumerableOf(Declared(info))) == EnvelopeReadOf(EnumerableOf(Declared(info)))
    ensures ReadTargetFor(ObjectType) == ObjectType
    ensures ReadTargetFor(ArrayOf(Primitive(kind))) == ArrayOf(Primitive(kind))
  {
  }

  /** A non-null value is classified by a type `GetType()` can return, and that
      is never an interface nor a `Nullable<T>`: of the three container shapes
      `GetInnerType` knows, only the array is ever unwrapped on the write path. */
  lemma WriteUnwrapsOnlyArrays(declared: ClrType, value: Value)
    requires !value.Null? && value.GetType().CanBeRuntimeType()
    ensures var t := SerializedType(declared, value);
      GetInnerType(t) != t ==> t.ArrayOf?
  {
  }

  /** A handler declared to return `IEnumerable<int>` that hands over a
      `List<int>` is enveloped, because the list's own type is classified; reading
      a body declared as `IEnumerable<int>` parses it directly. */
  lemma SequenceBehindEnumerableSlot(list: TypeInfo, kind: PrimitiveKind, contents: nat)
    requires !list.compilerGenerated
    ensures var v := Instance(Constructed(Definition(list), Primitive(kind), []), contents);
      WriteCallFor(EnumerableOf(Primitive(kind)), v).payload == EnvelopeWrite(v)
    ensures ReadTargetFor(EnumerableOf(Primitive(kind))) == EnumerableOf(Primitive(kind))
  {
  }
}
