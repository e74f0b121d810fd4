/**
 Runtime type descriptors: the part of a .NET `System.Type` that the envelope
 classifier looks at. A descriptor is an immutable value; two descriptors are the
 same type exactly when they are equal, which is what lets them key the caches.

 The metadata that the anonymous-type test reads (name, compiler-generated marker,
 `IsGenericType`, `TypeAttributes`) is derived from the descriptor rather than
 stored beside it, so a descriptor can never claim, say, to be generic while being
 an array.
 */
module ClrTypes {

  /** `System.Reflection.TypeAttributes`, a 32-bit flag word. */
  type TypeAttributes = bv32

  /** Visibility values share the low three bits; `NotPublic` is the all-zero
      value, so masking with it selects nothing. */
  const NotPublic: TypeAttributes := 0x0
  const Public: TypeAttributes := 0x1
  const Interface: TypeAttributes := 0x20
  const Abstract: TypeAttributes := 0x80
  const Sealed: TypeAttributes := 0x100

  /** The types for which `Type.IsPrimitive` is true. `decimal`, `string` and
      `DateTime` are not among them. */
  datatype PrimitiveKind =
    | Boolean | Byte | SByte | Int16 | UInt16 | Int32 | UInt32
    | Int64 | UInt64 | IntPtr | UIntPtr | Char | Double | Single

  /** Declaration metadata of a hand-written or compiler-emitted type. */
  datatype TypeInfo = TypeInfo(
    fullName: string,
    name: string,
    compilerGenerated: bool,   // carries [CompilerGenerated]
    attributes: TypeAttributes)

  /** An open generic type definition. `EnumerableOfT` is `IEnumerable<>` itself;
      every other definition (`List<>`, an anonymous type's definition, ...) is
      described by its declaration metadata. A `Definition` never describes
      `IEnumerable<>` or `Nullable<>`, which have their own constructors. */
  datatype GenericDefinition = EnumerableOfT | Definition(info: TypeInfo)

  datatype ClrType =
    | ObjectType                       // System.Object
    | NonGenericEnumerable             // System.Collections.IEnumerable
    | StringType                       // System.String
    | DateTimeType                     // System.DateTime
    | DecimalType                      // System.Decimal
    | Primitive(kind: PrimitiveKind)
    | ArrayOf(element: ClrType)        // T[]
    | NullableOf(underlying: ClrType)  // the closed Nullable<T>
      /** A closed generic type; its argument list is `[first] + rest`, never empty. */
    | Constructed(definition: GenericDefinition, first: ClrType, rest: seq<ClrType>)
      /** Any other non-generic class, struct, interface or enum. It never
          describes a framework type listed above (`System.String` is
          `StringType`, never a `Declared`), so each type has one descriptor. */
    | Declared(info: TypeInfo)
  {
    /** `Type.GetGenericArguments()` of a constructed generic type. */
    function Arguments(): (args: seq<ClrType>)
      requires Constructed?
      ensures |args| == 1 + |rest| && args[0] == first
    {
      [first] + rest
    }

    /** `Type.IsPrimitive`. */
    predicate IsPrimitive() {
      Primitive?
    }

    /** `Type.IsGenericType`: true of closed `Nullable<T>` and every other closed
        generic type, false of arrays (even arrays of generic types). */
    predicate IsGenericType() {
      NullableOf? || Constructed?
    }

    /** `Type.Name`: the simple name, with the generic arity suffix for generic types. */
    function Name(): string {
      match this
      case ObjectType => "Object"
      case NonGenericEnumerable => "IEnumerable"
      case StringType => "String"
      case DateTimeType => "DateTime"
      case DecimalType => "Decimal"
      case Primitive(k) => PrimitiveName(k)
      case ArrayOf(e) => e.Name() + "[]"
      case NullableOf(_) => "Nullable`1"
      case Constructed(EnumerableOfT, _, _) => "IEnumerable`1"
      case Constructed(Definition(info), _, _) => info.name
      case Declared(info) => info.name
    }

    /** Whether `[CompilerGenerated]` is declared on the type (not inherited). A
        constructed generic type reports the attributes of its definition. */
    predicate IsCompilerGenerated() {
      match this
      case Constructed(Definition(info), _, _) => info.compilerGenerated
      case Declared(info) => info.compilerGenerated
      case _ => false
    }

    /** `Type.Attributes`. The two `IEnumerable` interfaces are public abstract
        interfaces, the other framework types are public; declared types and
        definitions carry their own flags. */
    function Attributes(): TypeAttributes {
      match this
      case NonGenericEnumerable => Public | Interface | Abstract
      case Constructed(EnumerableOfT, _, _) => Public | Interface | Abstract
      case Constructed(Definition(info), _, _) => info.attributes
      case Declared(info) => info.attributes
      case _ => Public
    }

    /** `Type.IsInterface`. */
    predicate IsInterface() {
      (Attributes() & Interface) == Interface
    }

    /** Whether `object.GetType()` can return this type: an object's runtime type
        is never an interface, and boxing a `Nullable<T>` yields a `T` or null. */
    predicate CanBeRuntimeType() {
      !IsInterface() && !NullableOf?
    }
  }

  function PrimitiveName(k: PrimitiveKind): string {
    match k
    case Boolean => "Boolean"
    case Byte => "Byte"
    case SByte => "SByte"
    case Int16 => "Int16"
    case UInt16 => "UInt16"
    case Int32 => "Int32"
    case UInt32 => "UInt32"
    case Int64 => "Int64"
    case UInt64 => "UInt64"
    case IntPtr => "IntPtr"
    case UIntPtr => "UIntPtr"
    case Char => "Char"
    case Double => "Double"
    case Single => "Single"
  }

  /** `IEnumerable<T>` closed over `t`. */
  function EnumerableOf(t: ClrType): ClrType {
    Constructed(EnumerableOfT, t, [])
  }
}
