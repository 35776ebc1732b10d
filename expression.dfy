/** The value and expression records of the query-filter model used by the
    HTTP storage client: a `Value` is a field reference or a typed literal,
    an `Expression` is an operation over value and expression children.
    The MsgPack codec is abstracted as an encode/decode pair of functions. */
module ExpressionDto {
  import opened Wrappers
  import FormattingUtils

  /** A serialized literal (`Binary`). */
  type Binary = seq<bv8>

  /** The schema field types. The type tags are those of the SKV field-type
      enum; `TToFieldType<T>()` of a C++ type becomes an explicit tag. */
  datatype FieldType =
    | NULL_T | STRING | INT16T | INT32T | INT64T | FLOAT | DOUBLE | BOOL
    | DECIMAL64 | DECIMAL128 | FIELD_TYPE | NOT_KNOWN | NULL_LAST

  /** K2_DEF_ENUM(Operation, ...). */
  datatype Operation =
    | EQ | GT | GTE | LT | LTE | IS_NULL | IS_EXACT_TYPE | STARTS_WITH | CONTAINS | ENDS_WITH
    | AND | OR | XOR | NOT | UNKNOWN

  const OperationNames: seq<string> :=
    ["EQ", "GT", "GTE", "LT", "LTE", "IS_NULL", "IS_EXACT_TYPE", "STARTS_WITH", "CONTAINS",
     "ENDS_WITH", "AND", "OR", "XOR", "NOT", "UNKNOWN"]

  /** `to_integral(op)`. */
  function OperationOrdinal(op: Operation): (r: nat)
    ensures r < |OperationNames|
  {
    match op
    case EQ => 0
    case GT => 1
    case GTE => 2
    case LT => 3
    case LTE => 4
    case IS_NULL => 5
    case IS_EXACT_TYPE => 6
    case STARTS_WITH => 7
    case CONTAINS => 8
    case ENDS_WITH => 9
    case AND => 10
    case OR => 11
    case XOR => 12
    case NOT => 13
    case UNKNOWN => 14
  }

  /** `OperationFromStr`: the operation whose name is `s`, or the error. */
  function OperationFromStr(s: string): (r: Result<Operation, string>)
    ensures r.Ok? ==> OperationNames[OperationOrdinal(r.value)] == s
    ensures r.Err? <==> s !in OperationNames
  {
    match FormattingUtils.EnumFromStr(OperationNames, "Operation", s)
    case Ok(i) => Ok(FromOperationOrdinal(i))
    case Err(e) => Err(e)
  }

  function FromOperationOrdinal(i: nat): (op: Operation)
    requires i < |OperationNames|
    ensures OperationOrdinal(op) == i
  {
    [EQ, GT, GTE, LT, LTE, IS_NULL, IS_EXACT_TYPE, STARTS_WITH, CONTAINS, ENDS_WITH,
     AND, OR, XOR, NOT, UNKNOWN][i]
  }

  /** Every operation's printed name parses back to it. */
  lemma OperationRoundTrip(op: Operation)
    ensures var p := FormattingUtils.EnumToString(OperationNames, OperationOrdinal(op));
      OperationFromStr(p[1..|p| - 1]) == Ok(op)
  {
    OperationNamesDistinct();
    OrdinalRoundTrip(op);
    FormattingUtils.EnumToStringInjective(OperationNames, "Operation", OperationOrdinal(op), OperationOrdinal(op));
  }

  /** No two operations share a name. */
  lemma OperationNamesDistinct()
    ensures FormattingUtils.DistinctNames(OperationNames)
  {
  }

  /** The ordinal determines the operation. */
  lemma OrdinalRoundTrip(op: Operation)
    ensures FromOperationOrdinal(OperationOrdinal(op)) == op
  {
  }

  /** A `Value`: a reference when `fieldName` is non-empty, else a literal of
      type `type` serialized in `literal`. */
  datatype Value = Value(fieldName: string, fieldType: FieldType, literal: Binary) {
    /** `isReference()`. */
    predicate IsReference() {
      fieldName != ""
    }
  }

  /** `Value{}`: no name, type NOT_KNOWN, empty literal. */
  const DefaultValue: Value := Value("", NOT_KNOWN, [])

  /** The exceptions `get<T>` throws. */
  datatype GetError =
    | TypeMismatchException(have: FieldType, requested: FieldType)
    | DeserializationError(requested: FieldType, ofReference: bool)

  /** `get<T>()`, with `T` given by its field type tag `t` and its MsgPack
      reader `decode`: the type is checked first, then that the value is not
      a reference, then the literal is decoded. */
  function Get<T>(v: Value, t: FieldType, decode: Binary -> Option<T>): (r: Result<T, GetError>)
    ensures t != v.fieldType ==> r == Err(TypeMismatchException(v.fieldType, t))
    ensures t == v.fieldType && v.IsReference() ==> r == Err(DeserializationError(t, true))
    ensures r.Ok? <==> t == v.fieldType && !v.IsReference() && decode(v.literal).Some?
    ensures r.Ok? ==> Some(r.value) == decode(v.literal)
  {
    if t != v.fieldType then
      Err(TypeMismatchException(v.fieldType, t))
    else if v.IsReference() then
      Err(DeserializationError(t, true))
    else match decode(v.literal)
      case Some(x) => Ok(x)
      case None => Err(DeserializationError(t, false))
  }

  /** The error `makeValueLiteral` throws for a NaN. */
  datatype NaNError = NaNError(message: string)

  /** `makeValueLiteral(x)` for a `T` with tag `t`, NaN test `isNan` and
      MsgPack writer `encode`: a NaN is refused; anything else becomes an
      unnamed value of type `t` holding its encoding. */
  function MakeValueLiteral<T>(x: T, t: FieldType, isNan: T -> bool, encode: T -> Binary): (r: Result<Value, NaNError>)
    ensures r.Err? <==> isNan(x)
    ensures r.Err? ==> r.error == NaNError("NaN type in serialization")
    ensures r.Ok? ==> !r.value.IsReference() && r.value.fieldType == t && r.value.literal == encode(x)
  {
    if isNan(x) then Err(NaNError("NaN type in serialization"))
    else Ok(DefaultValue.(fieldType := t, literal := encode(x)))
  }

  /** `makeValueReference(name)`: the default value with the name set. */
  function MakeValueReference(name: string): (v: Value)
    ensures v.fieldName == name && v.fieldType == NOT_KNOWN && v.literal == []
    ensures v.IsReference() <==> name != ""
  {
    DefaultValue.(fieldName := name)
  }

  /** A codec pair for which reading back what was written gives the value. */
  ghost predicate RoundTrips<T(!new)>(encode: T -> Binary, decode: Binary -> Option<T>) {
    forall x :: decode(encode(x)) == Some(x)
  }

  /** With a round-tripping codec, a literal that is not a NaN gives back
      its value when read at its own type, and a type mismatch at any
      other. */
  lemma GetOfLiteral<T(!new)>(x: T, t: FieldType, u: FieldType, isNan: T -> bool, encode: T -> Binary, decode: Binary -> Option<T>)
    requires RoundTrips(encode, decode)
    requires !isNan(x)
    ensures Get(MakeValueLiteral(x, t, isNan, encode).value, t, decode) == Ok(x)
    ensures u != t ==> Get(MakeValueLiteral(x, t, isNan, encode).value, u, decode) == Err(TypeMismatchException(t, u))
  {
    assert decode(encode(x)) == Some(x);
  }

  /** A reference never reads as a value: at NOT_KNOWN it is a
      deserialization error, at any other type a type mismatch. */
  lemma GetOfReference<T>(name: string, t: FieldType, decode: Binary -> Option<T>)
    requires name != ""
    ensures t == NOT_KNOWN ==> Get(MakeValueReference(name), t, decode) == Err(DeserializationError(t, true))
    ensures t != NOT_KNOWN ==> Get(MakeValueReference(name), t, decode) == Err(TypeMismatchException(NOT_KNOWN, t))
  {
  }

  /** An `Expression`: an operation applied to its children in order. */
  datatype Expression = Expression(op: Operation, valueChildren: seq<Value>, expressionChildren: seq<Expression>)

  /** `Expression{}`: operation UNKNOWN and no children. */
  const DefaultExpression: Expression := Expression(UNKNOWN, [], [])

  /** `makeExpression(op, values, expressions)`: exactly the given parts. */
  function MakeExpression(op: Operation, valueChildren: seq<Value>, expressionChildren: seq<Expression>): (e: Expression)
    ensures e.op == op && e.valueChildren == valueChildren && e.expressionChildren == expressionChildren
    ensures op == UNKNOWN && valueChildren == [] && expressionChildren == [] <==> e == DefaultExpression
  {
    DefaultExpression.(op := op, valueChildren := valueChildren, expressionChildren := expressionChildren)
  }
}
