/**
  The textual notation of Go types: the printers and the recursive-descent
  parser (pwndbg/aglib/godbg.py:517-520, 877-903, 928-929, 963-964, 1005-1006,
  1245-1246, 1265-1302, 1319-1353, 1356-1516).
 */
module GoTypeText {
  import opened Options
  import opened PyInt

  datatype Meta = Meta(name: string, kind: nat, addr: nat, size: nat, align: nat, directIface: bool)

  datatype Field = Field(name: string, ty: FieldType, off: nat)

  /** A field that failed to decode keeps only the name of its type. */
  datatype FieldType = Typed(t: GoType) | Named(typename: string)

  datatype GoType =
    | BasicT(meta: Option<Meta>, name: string, extra: seq<string>)
    | SliceT(meta: Option<Meta>, inner: GoType)
    | PointerT(meta: Option<Meta>, inner: GoType)
    | ArrayT(meta: Option<Meta>, inner: GoType, count: nat)
    | MapT(meta: Option<Meta>, key: GoType, val: GoType)
    | StructT(meta: Option<Meta>, fields: seq<Field>, size: nat, algn: Option<nat>, tag: Option<string>)
    | RuntimeT(meta: Option<Meta>, sz: nat, addr: nat)
    | BackrefT(meta: Option<Meta>)

  // ----- Printing -----

  function TypeName(t: GoType): string
    decreases t, 0
  {
    match t
    case BasicT(_, name, _) => name
    case SliceT(_, inner) => "[]" + TypeName(inner)
    case PointerT(_, inner) => "*" + TypeName(inner)
    case ArrayT(_, inner, count) => "[" + Dec(count) + "]" + TypeName(inner)
    case MapT(_, key, val) => "map[" + TypeName(key) + "]" + TypeName(val)
    case StructT(_, fields, size, _, _) => "struct(" + Dec(size) + "){" + Join(FieldTexts(fields)) + "}"
    case RuntimeT(_, size, addr) => RuntimeText(size, addr)
    case BackrefT(meta) => if meta.Some? then RuntimeText(meta.value.size, meta.value.addr) else "..."
  }

  function RuntimeText(size: nat, addr: nat): string {
    "runtime(" + Dec(size) + ")0x" + Hex(addr)
  }

  /** The texts of the fields whose type is known; the others are not printed. */
  function FieldTexts(fields: seq<Field>): seq<string>
    decreases fields, 1
  {
    if fields == [] then []
    else
      (match fields[0].ty
       case Typed(t) => [Dec(fields[0].off) + ":" + fields[0].name + ":" + TypeName(t)]
       case Named(_) => []) + FieldTexts(fields[1..])
  }

  function Join(texts: seq<string>): string {
    if texts == [] then ""
    else if |texts| == 1 then texts[0]
    else texts[0] + ";" + Join(texts[1..])
  }

  // ----- Parsing -----

  /** Raises is the ValueError for an unknown basic type at the very end of the text. */
  datatype Parse<+T> = Parsed(value: T, rest: string) | NoMatch | Raises

  predicate StartsWith(s: string, p: string) {
    |p| <= |s| && s[..|p|] == p
  }

  predicate IsHexDigit(c: char) {
    '0' <= c <= '9' || 'a' <= c <= 'f' || 'A' <= c <= 'F' || c == 'x' || c == 'X'
  }

  predicate IsIdentFirst(c: char) {
    'a' <= c <= 'z' || 'A' <= c <= 'Z' || c == '_'
  }

  predicate IsIdentRest(c: char) {
    IsIdentFirst(c) || '0' <= c <= '9'
  }

  /** The length of the longest prefix whose characters satisfy `p`. */
  function Span(s: string, p: char -> bool): (n: nat)
    ensures n <= |s| && forall i | 0 <= i < n :: p(s[i])
    ensures n < |s| ==> !p(s[n])
  {
    if s == [] || !p(s[0]) then 0 else 1 + Span(s[1..], p)
  }

  lemma UnsignedIsNat(s: string)
    requires s != [] && forall i | 0 <= i < |s| :: IsHexDigit(s[i])
    ensures Int(s, 0).Some? ==> Int(s, 0).value >= 0
  {
    NotStripped(s);
  }

  function ParsePosint(s: string): (r: Parse<nat>)
    ensures r.Parsed? ==> |r.rest| < |s|
    ensures !r.Raises?
  {
    if s == [] || !IsHexDigit(s[0]) then NoMatch
    else
      var n := Span(s, IsHexDigit);
      UnsignedIsNat(s[..n]);
      var v := Int(s[..n], 0);
      if v.None? then NoMatch else Parsed(v.value, s[n..])
  }

  function ParseIdent(s: string): (r: Parse<string>)
    ensures r.Parsed? ==> |r.rest| < |s| && IsIdent(r.value)
    ensures !r.Raises?
  {
    if s == [] || !IsIdentFirst(s[0]) then NoMatch
    else
      var n := Span(s, IsIdentRest);
      Parsed(s[..n], s[n..])
  }

  predicate IsIdent(s: string) {
    s != [] && IsIdentFirst(s[0]) && forall i | 0 <= i < |s| :: IsIdentRest(s[i])
  }

  /** The names BasicType accepts. */
  predicate IsKnown(name: string) {
    name in {
      "int8", "uint8", "bool", "byte", "int16", "uint16", "int32", "uint32", "float32", "rune",
      "int64", "uint64", "float64", "complex64", "complex128", "int", "uint", "uintptr", "funcptr",
      "string", "any", "interface"}
  }

  function ParseBasic(s: string): (r: Parse<GoType>)
    ensures r.Parsed? ==> |r.rest| < |s|
  {
    var ident := ParseIdent(s);
    if !ident.Parsed? then NoMatch
    else if IsKnown(ident.value) then Parsed(BasicT(None, ident.value, []), ident.rest)
    else if ident.rest != "" then NoMatch
    else Raises
  }

  function ParseSlice(s: string): (r: Parse<GoType>)
    ensures r.Parsed? ==> |r.rest| < |s|
    decreases |s|, 1
  {
    if !StartsWith(s, "[]") then NoMatch
    else
      match ParseType(s[2..])
      case Parsed(inner, rest) => Parsed(SliceT(None, inner), rest)
      case NoMatch => NoMatch
      case Raises => Raises
  }

  function ParsePointer(s: string): (r: Parse<GoType>)
    ensures r.Parsed? ==> |r.rest| < |s|
    decreases |s|, 1
  {
    if !StartsWith(s, "*") then NoMatch
    else
      match ParseType(s[1..])
      case Parsed(inner, rest) => Parsed(PointerT(None, inner), rest)
      case NoMatch => NoMatch
      case Raises => Raises
  }

  function ParseArray(s: string): (r: Parse<GoType>)
    ensures r.Parsed? ==> |r.rest| < |s|
    decreases |s|, 1
  {
    if !StartsWith(s, "[") then NoMatch
    else
      var count := ParsePosint(s[1..]);
      if !count.Parsed? || !StartsWith(count.rest, "]") then NoMatch
      else
        match ParseType(count.rest[1..])
        case Parsed(inner, rest) => Parsed(ArrayT(None, inner, count.value), rest)
        case NoMatch => NoMatch
        case Raises => Raises
  }

  function ParseMap(s: string): (r: Parse<GoType>)
    ensures r.Parsed? ==> |r.rest| < |s|
    decreases |s|, 1
  {
    if !StartsWith(s, "map[") then NoMatch
    else
      match ParseType(s[4..])
      case NoMatch => NoMatch
      case Raises => Raises
      case Parsed(key, afterKey) =>
        if !StartsWith(afterKey, "]") then NoMatch
        else
          match ParseType(afterKey[1..])
          case Parsed(val, rest) => Parsed(MapT(None, key, val), rest)
          case NoMatch => NoMatch
          case Raises => Raises
  }

  function ParseStruct(s: string): (r: Parse<GoType>)
    ensures r.Parsed? ==> |r.rest| < |s|
    decreases |s|, 1
  {
    if !StartsWith(s, "struct(") then NoMatch
    else
      var size := ParsePosint(s[7..]);
      if !size.Parsed? || !StartsWith(size.rest, "){") then NoMatch
      else StructFields(size.rest[2..], true, [], size.value)
  }

  function SkipSemicolons(s: string): (r: string)
    ensures |r| <= |s|
  {
    if StartsWith(s, ";") then SkipSemicolons(s[1..]) else s
  }

  /** One field, as parsed by a round of the loop: offset, name and type. */
  function ParseField(s: string): (r: Parse<Field>)
    ensures r.Parsed? ==> |r.rest| < |s|
    decreases |s|, 1
  {
    var off := ParsePosint(SkipSemicolons(s));
    if !off.Parsed? || !StartsWith(off.rest, ":") then NoMatch
    else
      var name := ParseIdent(off.rest[1..]);
      if !name.Parsed? || !StartsWith(name.rest, ":") then NoMatch
      else
        match ParseType(name.rest[1..])
        case Parsed(t, rest) => Parsed(Field(name.value, Typed(t), off.value), rest)
        case NoMatch => NoMatch
        case Raises => Raises
  }

  /** The rest of a struct after `fields` were read. */
  function StructFields(cur: string, isFirst: bool, fields: seq<Field>, size: nat): (r: Parse<GoType>)
    ensures r.Parsed? ==> |r.rest| < |cur|
    decreases |cur|, 2
  {
    if cur == "" then NoMatch
    else if StartsWith(cur, "}") then Parsed(StructT(None, fields, size, None, None), cur[1..])
    else if !isFirst && !StartsWith(cur, ";") then NoMatch
    else
      match ParseField(cur)
      case NoMatch => NoMatch
      case Raises => Raises
      case Parsed(f, rest) => StructFields(rest, false, fields + [f], size)
  }

  function ParseRuntime(s: string): (r: Parse<GoType>)
    ensures r.Parsed? ==> |r.rest| < |s|
  {
    if !StartsWith(s, "runtime(") then NoMatch
    else
      var size := ParsePosint(s[8..]);
      if !size.Parsed? || !StartsWith(size.rest, ")") then NoMatch
      else
        var addr := ParsePosint(size.rest[1..]);
        if !addr.Parsed? then NoMatch else Parsed(RuntimeT(None, size.value, addr.value), addr.rest)
  }

  /** The parsers in the order they are tried; the first that does not give None decides. */
  function ParseType(s: string): (r: Parse<GoType>)
    ensures r.Parsed? ==> |r.rest| < |s|
    decreases |s|, 2
  {
    var p := ParseRuntime(s);
    if !p.NoMatch? then p else
    var p := ParseStruct(s);
    if !p.NoMatch? then p else
    var p := ParseMap(s);
    if !p.NoMatch? then p else
    var p := ParseArray(s);
    if !p.NoMatch? then p else
    var p := ParsePointer(s);
    if !p.NoMatch? then p else
    var p := ParseSlice(s);
    if !p.NoMatch? then p else ParseBasic(s)
  }

  /** parse_type: None is ValueError, whatever its message. */
  function ParseWhole(s: string): Option<GoType> {
    var p := ParseType(s);
    if p.Parsed? && p.rest == "" then Some(p.value) else None
  }

  /** _parse_struct_ty with its loop. */
  method ParseStructLoop(s: string) returns (r: Parse<GoType>)
    ensures r == ParseStruct(s)
  {
    if !StartsWith(s, "struct(") {
      return NoMatch;
    }
    var sizeParse := ParsePosint(s[7..]);
    if !sizeParse.Parsed? {
      return NoMatch;
    }
    var size, cur := sizeParse.value, sizeParse.rest;
    if !StartsWith(cur, "){") {
      return NoMatch;
    }
    cur := cur[2..];
    var fields: seq<Field> := [];
    var isFirst := true;
    while cur != ""
      invariant ParseStruct(s) == StructFields(cur, isFirst, fields, size)
      decreases |cur|
    {
      if StartsWith(cur, "}") {
        return Parsed(StructT(None, fields, size, None, None), cur[1..]);
      }
      if isFirst {
        isFirst := false;
      } else if !StartsWith(cur, ";") {
        return NoMatch;
      }
      ghost var field := ParseField(cur);
      cur := SkipSemicolons(cur);
      var offset := ParsePosint(cur);
      if !offset.Parsed? || !StartsWith(offset.rest, ":") {
        return NoMatch;
      }
      var name := ParseIdent(offset.rest[1..]);
      if !name.Parsed? || !StartsWith(name.rest, ":") {
        return NoMatch;
      }
      var ty := ParseType(name.rest[1..]);
      if ty.Raises? {
        return Raises;
      }
      if ty.NoMatch? {
        return NoMatch;
      }
      cur := ty.rest;
      fields := fields + [Field(name.value, Typed(ty.value), offset.value)];
    }
    return NoMatch;
  }
}
