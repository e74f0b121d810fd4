/**
 The type-shape classifier: decides from a type alone whether a payload of that
 type is wrapped in a root envelope (`ShouldEnvelope`), using a one-level
 container unwrapping (`GetInnerType`) and a test for compiler-synthesised
 anonymous record types (`IsAnonymousType`).
 */
module Classifier {
  import opened ClrTypes
  import Text

  /** The shape that governs classification: the element of an array, the
      underlying type of a `Nullable<T>`, the argument of an `IEnumerable<T>`,
      and otherwise the type itself. Exactly one layer is removed.

      The generic branch asks `typeof(IEnumerable<>).IsAssignableFrom(definition)`;
      an open definition such as `List<>` is not assignable to the open
      `IEnumerable<>`, so only `IEnumerable<>` itself qualifies. */
  function GetInnerType(t: ClrType): (inner: ClrType)
    ensures inner == t || inner < t
    ensures inner != t <==> t.ArrayOf? || t.NullableOf? || (t.Constructed? && t.definition == EnumerableOfT)
    ensures t.ArrayOf? ==> inner == t.element
    ensures t.NullableOf? ==> inner == t.underlying
    ensures t.Constructed? && t.definition == EnumerableOfT ==> inner == t.Arguments()[0]
  {
    if t.ArrayOf? then t.element
    else if t.NullableOf? then t.underlying
    else if t.IsGenericType() && IsEnumerableDefinition(t.definition) then t.Arguments()[0]
    else t
  }

  /** `typeof(IEnumerable<>).IsAssignableFrom(definition)` for an open definition. */
  predicate IsEnumerableDefinition(d: GenericDefinition) {
    d.EnumerableOfT?
  }

  /** The naming convention of anonymous types: the C# compiler emits
      `<>f__AnonymousType0`1`, the VB compiler `VB$AnonymousType_0`1`. */
  predicate AnonymousTypeName(name: string) {
    && Text.Contains(name, "AnonymousType")
    && (Text.StartsWith(name, "<>") || Text.StartsWith(name, "VB$"))
  }

  /** Whether `t` is a compiler-synthesised anonymous record type. The last
      conjunct masks with `NotPublic`, which is zero, so it holds of every type:
      the anonymous types are exactly the constructed generic types whose
      definition is compiler-generated and named by the convention, whatever
      their visibility. */
  function IsAnonymousType(t: ClrType): (anonymous: bool)
    ensures anonymous <==>
      && t.Constructed? && t.definition.Definition?
      && t.definition.info.compilerGenerated
      && AnonymousTypeName(t.definition.info.name)
  {
    && t.IsCompilerGenerated()
    && t.IsGenericType()
    && AnonymousTypeName(t.Name())
    && (t.Attributes() & NotPublic) == NotPublic
  }

  /** The rules of the classifier, in the order they are tried. Every rule but
      the last answers "no envelope". */
  datatype Rule =
    | OpaqueObject          // the type is `object`
    | UntypedEnumerable     // the type is the non-generic `IEnumerable`
    | TextScalar            // the inner type is `string`
    | TimestampScalar       // the inner type is `DateTime`
    | DecimalScalar         // the inner type is `decimal`
    | PrimitiveScalar       // the inner type is primitive
    | AnonymousRecord       // the inner type is anonymous
    | Envelope              // nothing above applied
  {
    /** Position of the rule in the order of evaluation. */
    function Rank(): nat {
      match this
      case OpaqueObject => 0
      case UntypedEnumerable => 1
      case TextScalar => 2
      case TimestampScalar => 3
      case DecimalScalar => 4
      case PrimitiveScalar => 5
      case AnonymousRecord => 6
      case Envelope => 7
    }
  }

  /** Whether rule `r`, taken on its own, matches type `t`. */
  predicate Applies(r: Rule, t: ClrType) {
    match r
    case OpaqueObject => t == ObjectType
    case UntypedEnumerable => t == NonGenericEnumerable
    case TextScalar => GetInnerType(t) == StringType
    case TimestampScalar => GetInnerType(t) == DateTimeType
    case DecimalScalar => GetInnerType(t) == DecimalType
    case PrimitiveScalar => GetInnerType(t).IsPrimitive()
    case AnonymousRecord => IsAnonymousType(GetInnerType(t))
    case Envelope => true
  }

  /** The rule that decides `t`: the first one, in evaluation order, that matches. */
  function Classify(t: ClrType): (r: Rule)
    ensures Applies(r, t)
    ensures forall e: Rule :: e.Rank() < r.Rank() ==> !Applies(e, t)
  {
    if t == ObjectType then OpaqueObject
    else if t == NonGenericEnumerable then UntypedEnumerable
    else
      var inner := GetInnerType(t);
      if inner == StringType then TextScalar
      else if inner == DateTimeType then TimestampScalar
      else if inner == DecimalType then DecimalScalar
      else if inner.IsPrimitive() then PrimitiveScalar
      else if IsAnonymousType(inner) then AnonymousRecord
      else Envelope
  }

  /** Whether a payload of type `t` is wrapped in a root envelope. It is not
      exactly when the type is `object` or the non-generic `IEnumerable`, or its
      inner type is a raw payload unit; equivalently, when the outer-shape table
      says it passes through. */
  function ShouldEnvelope(t: ClrType): (envelope: bool)
    ensures !envelope <==> t == ObjectType || t == NonGenericEnumerable || RawUnit(GetInnerType(t))
    ensures envelope <==> !PassesThroughByShape(t)
  {
    Classify(t) == Envelope
  }

  /** A payload unit that is emitted raw: a scalar or an anonymous record. */
  predicate RawUnit(t: ClrType) {
    t == StringType || t == DateTimeType || t == DecimalType || t.IsPrimitive() || IsAnonymousType(t)
  }

  /** The classifier's verdict tabulated by the outer shape of the type, with no
      reference to `GetInnerType` or to the order of the rules. */
  predicate PassesThroughByShape(t: ClrType) {
    match t
    case ObjectType => true
    case NonGenericEnumerable => true
    case ArrayOf(e) => RawUnit(e)
    case NullableOf(u) => RawUnit(u)
    case Constructed(EnumerableOfT, a, _) => RawUnit(a)
    case _ => RawUnit(t)
  }
}
