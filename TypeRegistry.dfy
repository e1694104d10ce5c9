/**
  PostgresTypeHandling/PostgresTypeInformation.cs: a type descriptor (an OID and an
  optional fixed size) and the two read-only tables of descriptors, one keyed by OID
  and one keyed by the CLR type of a value.
 */
module TypeRegistry {
  import opened Binary
  import opened Errors
  import opened TypeOids

  /** The CLR types a result column can declare; `ClrOther` stands for any type Mapping lacks. */
  datatype ClrType =
    | ClrShort | ClrInt | ClrLong | ClrFloat | ClrDouble
    | ClrBool | ClrChar | ClrString | ClrDateTime
    | ClrOther(name: string)

  datatype PostgresTypeInformation = PostgresTypeInformation(typeOid: PostgresTypeOID, size: Option<int32>)
  {
    /** `Oid => (uint) TypeOid` */
    function Oid(): uint32 {
      WrapUInt32(typeOid.Value())
    }

    /** `HasSizeInformation => Size != null` */
    predicate HasSizeInformation() {
      size != None
    }
  }

  /** The size the PredefinedTypes dictionary records for an OID; null for all but eight. */
  function DeclaredSize(t: PostgresTypeOID): Option<int32> {
    match t
    case Int2 => Some(32)
    case Int4 => Some(4)
    case Int8 => Some(8)
    case Float4 => Some(4)
    case Float8 => Some(8)
    case Char => Some(1)
    case BPChar => Some(1)
    case Oid => Some(4)
    case _ => None
  }

  /** The descriptor of every known OID (the `PredefinedTypes` dictionary): one entry per member. */
  const PredefinedTypes: map<PostgresTypeOID, PostgresTypeInformation> :=
    map t | t in AllTypeOids :: PostgresTypeInformation(t, DeclaredSize(t))

  /** The descriptor used for a column of a CLR type without explicit type information. */
  const Mapping: map<ClrType, PostgresTypeInformation> :=
    map[
      ClrShort := PostgresTypeInformation(Int2, Some(32)),
      ClrInt := PostgresTypeInformation(Int4, Some(4)),
      ClrLong := PostgresTypeInformation(Int8, Some(8)),
      ClrFloat := PostgresTypeInformation(Float4, Some(4)),
      ClrDouble := PostgresTypeInformation(Float8, Some(8)),
      ClrBool := PostgresTypeInformation(Bool, None),
      ClrChar := PostgresTypeInformation(Char, Some(1)),
      ClrString := PostgresTypeInformation(Varchar, None),
      ClrDateTime := PostgresTypeInformation(Timestamp, None)
    ]

  /** The CLR types for which Mapping has a descriptor (enumeration order is not modelled). */
  function PredefinedTypeNames(): (names: set<ClrType>)
    ensures names == {ClrShort, ClrInt, ClrLong, ClrFloat, ClrDouble, ClrBool, ClrChar, ClrString, ClrDateTime}
    ensures forall name :: ClrOther(name) !in names
  {
    MappingKeys();
    set k | k in Mapping
  }

  /** The types whose PredefinedTypes entry carries a fixed size. */
  const FixedSizeTypes: set<PostgresTypeOID> := {Int2, Int4, Int8, Float4, Float8, Char, BPChar, Oid}

  /** The OID of a descriptor is its enumeration value: the unsigned cast loses nothing. */
  lemma OidIsTheEnumValue(info: PostgresTypeInformation)
    ensures info.Oid() == info.typeOid.Value()
  {
    ValuesDistinctAndPositive();
  }

  /** Lookup by OID is total, and every entry describes its own key. */
  lemma PredefinedTypesTotal()
    ensures forall t: PostgresTypeOID :: t in PredefinedTypes && PredefinedTypes[t].typeOid == t
  {
    AllTypeOidsComplete();
  }

  /**
    Exactly eight entries carry a size: Int2 (32), Int4 (4), Int8 (8), Float4 (4),
    Float8 (8), Char (1), BPChar (1) and Oid (4); every other size is null.
   */
  lemma PredefinedSizes()
    ensures forall t :: t in PredefinedTypes ==> (PredefinedTypes[t].HasSizeInformation() <==> t in FixedSizeTypes)
    ensures PredefinedTypes[Int2].size == Some(32) && PredefinedTypes[Int4].size == Some(4)
    ensures PredefinedTypes[Int8].size == Some(8) && PredefinedTypes[Float4].size == Some(4)
    ensures PredefinedTypes[Float8].size == Some(8) && PredefinedTypes[Char].size == Some(1)
    ensures PredefinedTypes[BPChar].size == Some(1) && PredefinedTypes[Oid].size == Some(4)
  {
    AllTypeOidsComplete();
    forall t | t in PredefinedTypes
      ensures PredefinedTypes[t].HasSizeInformation() <==> t in FixedSizeTypes
    {
      DeclaredSizeFixed(t);
    }
  }

  /** The entry `PredefinedTypes[PostgresTypeOID.Oid]`, written out. */
  const OidDescriptor: PostgresTypeInformation := PostgresTypeInformation(Oid, Some(4))

  /** OidDescriptor is what looking up Oid in PredefinedTypes gives. */
  lemma OidDescriptorIsPredefined()
    ensures Oid in PredefinedTypes && PredefinedTypes[Oid] == OidDescriptor
  {
    AllTypeOidsComplete();
  }

  lemma DeclaredSizeFixed(t: PostgresTypeOID)
    ensures DeclaredSize(t).Some? <==> t in FixedSizeTypes
  {
  }

  /** Mapping covers exactly the nine CLR types short, int, long, float, double, bool, char, string and DateTime. */
  lemma MappingKeys()
    ensures Mapping.Keys == {ClrShort, ClrInt, ClrLong, ClrFloat, ClrDouble, ClrBool, ClrChar, ClrString, ClrDateTime}
    ensures forall name :: ClrOther(name) !in Mapping
  {
    assert Mapping.Keys == {ClrShort, ClrInt, ClrLong, ClrFloat, ClrDouble, ClrBool, ClrChar, ClrString, ClrDateTime};
  }

  /** Each Mapping descriptor is the PredefinedTypes descriptor of its OID: same OID, same size. */
  lemma MappingAgreesWithPredefinedTypes()
    ensures forall k :: k in Mapping ==> Mapping[k].typeOid in PredefinedTypes && PredefinedTypes[Mapping[k].typeOid] == Mapping[k]
  {
    AllTypeOidsComplete();
  }
}
