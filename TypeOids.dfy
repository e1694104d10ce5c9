/**
  PostgresTypeHandling/PostgresTypeOID.cs: the type identifiers ("OIDs") of the
  PostgreSQL catalogue that the server knows, as an enumeration with its values.
 */
module TypeOids {
  import opened Errors

  datatype PostgresTypeOID =
      // Numeric
      Int8
    | Float8
    | Int4
    | Numeric
    | Float4
    | Int2
    | Money
      // Boolean
    | Bool
      // Geometric
    | Box
    | Circle
    | Line
    | LSeg
    | Path
    | Point
    | Polygon
      // Character
    | BPChar
    | Text
    | Varchar
    | Name
    | Char
      // Binary data
    | Bytea
      // Date/Time
    | Date
    | Time
    | Timestamp
    | TimestampTz
    | Interval
    | TimeTz
    | Abstime
      // Network address
    | Inet
    | Cidr
    | Macaddr
    | Macaddr8
      // Bit string
    | Bit
    | Varbit
      // Text search
    | TsVector
    | TsQuery
    | Regconfig
      // UUID
    | Uuid
      // XML
    | Xml
      // JSON
    | Json
    | Jsonb
    | JsonPath
      // Internal
    | Refcursor
    | Oidvector
    | Int2vector
    | Oid
    | Xid
    | Cid
    | Regtype
    | Tid
      // Special
    | Unknown
  {
    /** The enumeration's underlying integer value: the OID PostgreSQL uses on the wire. */
    function Value(): int {
      match this
      case Int8 => 20
      case Float8 => 701
      case Int4 => 23
      case Numeric => 1700
      case Float4 => 700
      case Int2 => 21
      case Money => 790
      case Bool => 16
      case Box => 603
      case Circle => 718
      case Line => 628
      case LSeg => 601
      case Path => 602
      case Point => 600
      case Polygon => 604
      case BPChar => 1042
      case Text => 25
      case Varchar => 1043
      case Name => 19
      case Char => 18
      case Bytea => 17
      case Date => 1082
      case Time => 1083
      case Timestamp => 1114
      case TimestampTz => 1184
      case Interval => 1186
      case TimeTz => 1266
      case Abstime => 702
      case Inet => 869
      case Cidr => 650
      case Macaddr => 829
      case Macaddr8 => 774
      case Bit => 1560
      case Varbit => 1562
      case TsVector => 3614
      case TsQuery => 3615
      case Regconfig => 3734
      case Uuid => 2950
      case Xml => 142
      case Json => 114
      case Jsonb => 3802
      case JsonPath => 4072
      case Refcursor => 1790
      case Oidvector => 30
      case Int2vector => 22
      case Oid => 26
      case Xid => 28
      case Cid => 29
      case Regtype => 2206
      case Tid => 27
      case Unknown => 705
    }
  }

  /** The member with a given value, if any: an independent inverse of Value. */
  function FromValue(v: int): Option<PostgresTypeOID> {
    match v
    case 20 => Some(Int8)
    case 701 => Some(Float8)
    case 23 => Some(Int4)
    case 1700 => Some(Numeric)
    case 700 => Some(Float4)
    case 21 => Some(Int2)
    case 790 => Some(Money)
    case 16 => Some(Bool)
    case 603 => Some(Box)
    case 718 => Some(Circle)
    case 628 => Some(Line)
    case 601 => Some(LSeg)
    case 602 => Some(Path)
    case 600 => Some(Point)
    case 604 => Some(Polygon)
    case 1042 => Some(BPChar)
    case 25 => Some(Text)
    case 1043 => Some(Varchar)
    case 19 => Some(Name)
    case 18 => Some(Char)
    case 17 => Some(Bytea)
    case 1082 => Some(Date)
    case 1083 => Some(Time)
    case 1114 => Some(Timestamp)
    case 1184 => Some(TimestampTz)
    case 1186 => Some(Interval)
    case 1266 => Some(TimeTz)
    case 702 => Some(Abstime)
    case 869 => Some(Inet)
    case 650 => Some(Cidr)
    case 829 => Some(Macaddr)
    case 774 => Some(Macaddr8)
    case 1560 => Some(Bit)
    case 1562 => Some(Varbit)
    case 3614 => Some(TsVector)
    case 3615 => Some(TsQuery)
    case 3734 => Some(Regconfig)
    case 2950 => Some(Uuid)
    case 142 => Some(Xml)
    case 114 => Some(Json)
    case 3802 => Some(Jsonb)
    case 4072 => Some(JsonPath)
    case 1790 => Some(Refcursor)
    case 30 => Some(Oidvector)
    case 22 => Some(Int2vector)
    case 26 => Some(Oid)
    case 28 => Some(Xid)
    case 29 => Some(Cid)
    case 2206 => Some(Regtype)
    case 27 => Some(Tid)
    case 705 => Some(Unknown)
    case _ => None
  }

  /** Value and FromValue are inverse: every member is found again from its value. */
  lemma FromValueOfValue(t: PostgresTypeOID)
    ensures FromValue(t.Value()) == Some(t)
  {
    if InFirstThird(t) {
      FromValueOfFirstThird(t);
    } else if InSecondThird(t) {
      FromValueOfSecondThird(t);
    } else {
      FromValueOfLastThird(t);
    }
  }

  /** The members Int8 to Text in declaration order. */
  predicate InFirstThird(t: PostgresTypeOID) {
    t.Int8? || t.Float8? || t.Int4? || t.Numeric? || t.Float4? || t.Int2? || t.Money? || t.Bool? ||
    t.Box? || t.Circle? || t.Line? || t.LSeg? || t.Path? || t.Point? || t.Polygon? || t.BPChar? ||
    t.Text?
  }

  /** The members Varchar to Varbit in declaration order. */
  predicate InSecondThird(t: PostgresTypeOID) {
    t.Varchar? || t.Name? || t.Char? || t.Bytea? || t.Date? || t.Time? || t.Timestamp? || t.TimestampTz? ||
    t.Interval? || t.TimeTz? || t.Abstime? || t.Inet? || t.Cidr? || t.Macaddr? || t.Macaddr8? || t.Bit? ||
    t.Varbit?
  }

  lemma FromValueOfFirstThird(t: PostgresTypeOID)
    requires InFirstThird(t)
    ensures FromValue(t.Value()) == Some(t)
  {
  }

  lemma FromValueOfSecondThird(t: PostgresTypeOID)
    requires InSecondThird(t)
    ensures FromValue(t.Value()) == Some(t)
  {
  }

  lemma FromValueOfLastThird(t: PostgresTypeOID)
    requires !InFirstThird(t) && !InSecondThird(t)
    ensures FromValue(t.Value()) == Some(t)
  {
  }

  /**
    The values are pairwise distinct, so the members can key the PredefinedTypes
    dictionary; and each lies in 1 .. 2^31 - 1, so the `(uint)` cast keeps it.
   */
  lemma {:induction false} ValuesDistinctAndPositive()
    ensures forall a: PostgresTypeOID, b: PostgresTypeOID :: a.Value() == b.Value() ==> a == b
    ensures forall t: PostgresTypeOID :: 0 < t.Value() < 0x8000_0000
  {
    forall a: PostgresTypeOID, b: PostgresTypeOID | a.Value() == b.Value()
      ensures a == b
    {
      FromValueOfValue(a);
      FromValueOfValue(b);
    }
  }

  /** The identifiers of the numeric, character and internal types, as PostgreSQL assigns them. */
  lemma WellKnownValues()
    ensures FromValue(21) == Some(Int2) && FromValue(23) == Some(Int4) && FromValue(20) == Some(Int8)
    ensures FromValue(700) == Some(Float4) && FromValue(701) == Some(Float8)
    ensures FromValue(1700) == Some(Numeric) && FromValue(790) == Some(Money)
    ensures FromValue(18) == Some(Char) && FromValue(19) == Some(Name) && FromValue(25) == Some(Text)
    ensures FromValue(1042) == Some(BPChar) && FromValue(1043) == Some(Varchar)
    ensures FromValue(26) == Some(Oid) && FromValue(705) == Some(Unknown)
  {
    WellKnownNumericValues();
    WellKnownTextValues();
  }

  /** The identifiers of the numeric types. */
  lemma WellKnownNumericValues()
    ensures FromValue(21) == Some(Int2) && FromValue(23) == Some(Int4) && FromValue(20) == Some(Int8)
    ensures FromValue(700) == Some(Float4) && FromValue(701) == Some(Float8)
    ensures FromValue(1700) == Some(Numeric) && FromValue(790) == Some(Money)
  {
  }

  /** The identifiers of the character types, Oid and Unknown. */
  lemma WellKnownTextValues()
    ensures FromValue(18) == Some(Char) && FromValue(19) == Some(Name) && FromValue(25) == Some(Text)
    ensures FromValue(1042) == Some(BPChar) && FromValue(1043) == Some(Varchar)
    ensures FromValue(26) == Some(Oid) && FromValue(705) == Some(Unknown)
  {
  }

  /** Every member of the enumeration. */
  const AllTypeOids: set<PostgresTypeOID> :=
    { Int8, Float8, Int4, Numeric, Float4, Int2, Money, Bool,
      Box, Circle, Line, LSeg, Path, Point, Polygon, BPChar,
      Text, Varchar, Name, Char, Bytea, Date, Time, Timestamp,
      TimestampTz, Interval, TimeTz, Abstime, Inet, Cidr, Macaddr, Macaddr8,
      Bit, Varbit, TsVector, TsQuery, Regconfig, Uuid, Xml, Json,
      Jsonb, JsonPath, Refcursor, Oidvector, Int2vector, Oid, Xid, Cid,
      Regtype, Tid, Unknown }

  /** AllTypeOids leaves no member out. */
  lemma AllTypeOidsComplete()
    ensures forall t: PostgresTypeOID :: t in AllTypeOids
  {
    forall t: PostgresTypeOID
      ensures t in AllTypeOids
    {
      match t
      case Int8 =>
      case Float8 =>
      case Int4 =>
      case Numeric =>
      case Float4 =>
      case Int2 =>
      case Money =>
      case Bool =>
      case Box =>
      case Circle =>
      case Line =>
      case LSeg =>
      case Path =>
      case Point =>
      case Polygon =>
      case BPChar =>
      case Text =>
      case Varchar =>
      case Name =>
      case Char =>
      case Bytea =>
      case Date =>
      case Time =>
      case Timestamp =>
      case TimestampTz =>
      case Interval =>
      case TimeTz =>
      case Abstime =>
      case Inet =>
      case Cidr =>
      case Macaddr =>
      case Macaddr8 =>
      case Bit =>
      case Varbit =>
      case TsVector =>
      case TsQuery =>
      case Regconfig =>
      case Uuid =>
      case Xml =>
      case Json =>
      case Jsonb =>
      case JsonPath =>
      case Refcursor =>
      case Oidvector =>
      case Int2vector =>
      case Oid =>
      case Xid =>
      case Cid =>
      case Regtype =>
      case Tid =>
      case Unknown =>
    }
  }
}
