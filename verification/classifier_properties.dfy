/**
 What the classifier decides, stated shape by shape: which types pass through
 raw, which are enveloped, and where the one-level unwrapping and the
 outer-only exemptions make the verdict differ from a naive reading.
 */
module ClassifierProperties {
  import opened ClrTypes
  import opened Classifier
  import Text

  /** Strings, dates, decimals and primitives pass through raw, and so do arrays,
      nullables and `IEnumerable<T>` sequences of them. */
  lemma ScalarShapesPassThrough(s: ClrType)
    requires s == StringType || s == DateTimeType || s == DecimalType || s.IsPrimitive()
    ensures !ShouldEnvelope(s)
    ensures !ShouldEnvelope(ArrayOf(s))
    ensures !ShouldEnvelope(NullableOf(s))
    ensures !ShouldEnvelope(EnumerableOf(s))
  {
  }

  /** Anonymous records pass through raw, also inside an array, a nullable or an
      `IEnumerable<T>`. */
  lemma AnonymousShapesPassThrough(a: ClrType)
    requires IsAnonymousType(a)
    ensures !ShouldEnvelope(a)
    ensures !ShouldEnvelope(ArrayOf(a))
    ensures !ShouldEnvelope(NullableOf(a))
    ensures !ShouldEnvelope(EnumerableOf(a))
  {
  }

  /** Every non-generic declared type (a domain class, a struct, an enum) is
      enveloped, and so is every array or `IEnumerable<T>` of it. */
  lemma DeclaredTypesEnveloped(info: TypeInfo)
    ensures ShouldEnvelope(Declared(info))
    ensures ShouldEnvelope(ArrayOf(Declared(info)))
    ensures ShouldEnvelope(EnumerableOf(Declared(info)))
  {
  }

  /** A collection of domain objects is treated as a domain object: for any type
      that is not itself a container nor exempt as a whole, wrapping it in an
      array, a nullable or an `IEnumerable<T>` leaves the verdict unchanged. */
  lemma ContainersInheritElementVerdict(e: ClrType)
    requires GetInnerType(e) == e
    requires e != ObjectType && e != NonGenericEnumerable
    ensures ShouldEnvelope(ArrayOf(e)) == ShouldEnvelope(e)
    ensures ShouldEnvelope(NullableOf(e)) == ShouldEnvelope(e)
    ensures ShouldEnvelope(EnumerableOf(e)) == ShouldEnvelope(e)
  {
  }

  /** The `object` and `IEnumerable` exemptions look at the outer type only,
      before unwrapping: `object[]`, `IEnumerable<object>` and `IEnumerable[]` are
      classified by an inner type that is neither scalar nor anonymous, and are
      enveloped. */
  lemma OuterOnlyExemption()
    ensures !ShouldEnvelope(ObjectType) && !ShouldEnvelope(NonGenericEnumerable)
    ensures ShouldEnvelope(ArrayOf(ObjectType))
    ensures ShouldEnvelope(EnumerableOf(ObjectType))
    ensures ShouldEnvelope(NullableOf(ObjectType))
    ensures ShouldEnvelope(ArrayOf(NonGenericEnumerable))
    ensures ShouldEnvelope(EnumerableOf(NonGenericEnumerable))
  {
  }

  /** Only one container layer is stripped, so any two nested containers are
      enveloped whatever they finally hold; `int?[]` is the usual example. */
  lemma NestedContainersEnveloped(t: ClrType)
    ensures ShouldEnvelope(ArrayOf(ArrayOf(t)))
    ensures ShouldEnvelope(ArrayOf(NullableOf(t)))
    ensures ShouldEnvelope(ArrayOf(EnumerableOf(t)))
    ensures ShouldEnvelope(NullableOf(ArrayOf(t)))
    ensures ShouldEnvelope(EnumerableOf(ArrayOf(t)))
    ensures ShouldEnvelope(EnumerableOf(NullableOf(t)))
    ensures ShouldEnvelope(EnumerableOf(EnumerableOf(t)))
    ensures ShouldEnvelope(ArrayOf(NullableOf(Primitive(Int32))))
  {
    var containers := [ArrayOf(t), NullableOf(t), EnumerableOf(t)];
    forall c | c in containers
      ensures ShouldEnvelope(ArrayOf(c)) && ShouldEnvelope(EnumerableOf(c))
    {
      ContainerAroundContainer(ArrayOf(c));
      ContainerAroundContainer(EnumerableOf(c));
    }
    ContainerAroundContainer(NullableOf(ArrayOf(t)));
    ContainerAroundContainer(ArrayOf(NullableOf(Primitive(Int32))));
  }

  /** A container whose inner type is itself a container is enveloped. */
  lemma ContainerAroundContainer(t: ClrType)
    requires GetInnerType(t) != t
    requires GetInnerType(GetInnerType(t)) != GetInnerType(t)
    ensures ShouldEnvelope(t)
  {
  }

  /** A generic type whose definition is not `IEnumerable<>` is classified as a
      whole: `List<int>`, `HashSet<string>` or `Dictionary<K, V>` is enveloped
      although it only holds scalars, unless it is compiler-generated. */
  lemma OtherGenericsClassifiedWhole(info: TypeInfo, a: ClrType, rest: seq<ClrType>)
    requires !info.compilerGenerated
    ensures GetInnerType(Constructed(Definition(info), a, rest)) == Constructed(Definition(info), a, rest)
    ensures ShouldEnvelope(Constructed(Definition(info), a, rest))
  {
  }

  /** A C# anonymous type `new { Id = 1, Title = "x" }` passes through raw, and so
      does an array of them; changing its visibility to public changes nothing. */
  lemma CSharpAnonymousTypeExample(attributes: TypeAttributes)
    ensures var def := Definition(TypeInfo("<>f__AnonymousType0`2", "<>f__AnonymousType0`2", true, attributes));
      && IsAnonymousType(Constructed(def, Primitive(Int32), [StringType]))
      && !ShouldEnvelope(Constructed(def, Primitive(Int32), [StringType]))
      && !ShouldEnvelope(ArrayOf(Constructed(def, Primitive(Int32), [StringType])))
  {
    var name := "<>f__AnonymousType0`2";
    assert Text.OccursAt(name, "AnonymousType", 5);
    assert Text.StartsWith(name, "<>");
    var anon := Constructed(Definition(TypeInfo(name, name, true, attributes)), Primitive(Int32), [StringType]);
    AnonymousShapesPassThrough(anon);
  }

  /** The Visual Basic naming convention is recognised too. */
  lemma VisualBasicAnonymousTypeExample()
    ensures var def := Definition(TypeInfo("VB$AnonymousType_0`1", "VB$AnonymousType_0`1", true, Sealed));
      !ShouldEnvelope(EnumerableOf(Constructed(def, DecimalType, [])))
  {
    var name := "VB$AnonymousType_0`1";
    assert Text.OccursAt(name, "AnonymousType", 3);
    assert Text.StartsWith(name, "VB$");
    var anon := Constructed(Definition(TypeInfo(name, name, true, Sealed)), DecimalType, []);
    AnonymousShapesPassThrough(anon);
  }

  /** `new { }` has no properties, so the compiler emits a non-generic type; it
      fails the `IsGenericType` conjunct and is enveloped. */
  lemma EmptyAnonymousTypeEnveloped()
    ensures ShouldEnvelope(Declared(TypeInfo("<>f__AnonymousType0", "<>f__AnonymousType0", true, Sealed)))
  {
  }
}
