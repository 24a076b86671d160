/**
  Printing and parsing Go types are inverse to each other
  (pwndbg/aglib/godbg.py:1363-1516 against the printers).
 */
module GoTypeRoundTrip {
  import opened Options
  import opened PyInt
  import opened GoTypeText
  import opened GoTypeNotation

  // ----- Which types print to something readable -----

  /** What reading back a printed type gives: what the notation shows, placeholders by address, only fields of known type. */
  function Normal(t: GoType): GoType
    decreases t, 0
  {
    match t
    case BasicT(_, name, _) => BasicT(None, name, [])
    case SliceT(_, inner) => SliceT(None, Normal(inner))
    case PointerT(_, inner) => PointerT(None, Normal(inner))
    case ArrayT(_, inner, count) => ArrayT(None, Normal(inner), count)
    case MapT(_, key, val) => MapT(None, Normal(key), Normal(val))
    case StructT(_, fields, size, _, _) => StructT(None, NormalFields(fields), size, None, None)
    case RuntimeT(_, size, addr) => RuntimeT(None, size, addr)
    case BackrefT(meta) => if meta.Some? then RuntimeT(None, meta.value.size, meta.value.addr) else t
  }

  function NormalFields(fields: seq<Field>): seq<Field>
    decreases fields, 1
  {
    if fields == [] then []
    else
      (match fields[0].ty
       case Typed(t) => [fields[0].(ty := Typed(Normal(t)))]
       case Named(_) => []) + NormalFields(fields[1..])
  }

  /** Basic names are known, printed field names are identifiers, placeholders have metadata. */
  predicate Printable(t: GoType)
    decreases t, 0
  {
    match t
    case BasicT(_, name, _) => IsKnown(name)
    case SliceT(_, inner) => Printable(inner)
    case PointerT(_, inner) => Printable(inner)
    case ArrayT(_, inner, _) => Printable(inner)
    case MapT(_, key, val) => Printable(key) && Printable(val)
    case StructT(_, fields, _, _, _) => PrintableFields(fields)
    case RuntimeT(_, _, _) => true
    case BackrefT(meta) => meta.Some?
  }

  predicate PrintableFields(fields: seq<Field>)
    decreases fields, 1
  {
    fields == [] || (PrintableField(fields[0]) && PrintableFields(fields[1..]))
  }

  predicate PrintableField(f: Field)
    decreases f
  {
    match f.ty
    case Typed(t) => IsIdent(f.name) && Printable(t)
    case Named(_) => true
  }

  /** The types the parser produces: printable and already normal. */
  predicate WellFormed(t: GoType) {
    Printable(t) && Normal(t) == t
  }

  // ----- What is printed denotes -----

  lemma DecNumeral(n: nat)
    ensures Numeral(Dec(n), n)
  {
    DigitsRead(n, 10);
    DecRead(n);
    hide Int;
    forall i | 0 <= i < |Dec(n)| ensures IsHexDigit(Dec(n)[i]) {
      assert IsDigit(Dec(n)[i], 10);
    }
    ReadNumeral(Dec(n));
  }

  lemma HexNumeral(n: nat)
    ensures Numeral("0x" + Hex(n), n)
  {
    HexRead(n);
    hide Int;
    var s := "0x" + Hex(n);
    forall i | 0 <= i < |s| ensures IsHexDigit(s[i]) {
      if i >= 2 {
        assert s[i] == Hex(n)[i - 2] && IsDigit(Hex(n)[i - 2], 16);
      }
    }
    ReadNumeral(s);
  }

  lemma {:induction false} PrintedDenotes(t: GoType)
    requires Printable(t)
    ensures Denotes(TypeName(t), Normal(t))
    decreases t, 0
  {
    hide Numeral;
    match t
    case BasicT(_, name, _) =>
      BasicNameIs(name);
      hide BasicName;
      hide IsKnown;
    case SliceT(_, inner) => PrintedDenotes(inner);
    case PointerT(_, inner) => PrintedDenotes(inner);
    case ArrayT(_, inner, count) =>
      PrintedDenotes(inner);
      ArrayDenoted(TypeName(inner), Normal(inner), count);
    case MapT(_, key, val) =>
      PrintedDenotes(key);
      PrintedDenotes(val);
      MapDenoted(TypeName(key), Normal(key), TypeName(val), Normal(val));
    case StructT(_, fields, size, _, _) =>
      FieldsDenoted(fields, true);
      StructDenoted(Join(FieldTexts(fields)), NormalFields(fields), size);
    case RuntimeT(_, size, addr) => RuntimeDenoted(size, addr);
    case BackrefT(meta) => RuntimeDenoted(meta.value.size, meta.value.addr);
  }

  lemma ArrayDenoted(u: string, inner: GoType, count: nat)
    requires Denotes(u, inner)
    ensures Denotes("[" + Dec(count) + "]" + u, ArrayT(None, inner, count))
  {
    DecNumeral(count);
    hide Numeral;
    hide Dec;
    assert "[" + Dec(count) + "]" + u == "[" + (Dec(count) + ("]" + u));
  }

  lemma MapDenoted(u: string, key: GoType, w: string, val: GoType)
    requires Denotes(u, key) && Denotes(w, val)
    ensures Denotes("map[" + u + "]" + w, MapT(None, key, val))
  {
    assert "map[" + u + "]" + w == "map[" + (u + ("]" + w));
    hide Denotes;
    MapDenotation(u, key, w, val);
  }

  lemma StructDenoted(body: string, fields: seq<Field>, size: nat)
    requires DenoteFields("" + body, fields, true)
    ensures Denotes("struct(" + Dec(size) + "){" + body + "}", StructT(None, fields, size, None, None))
  {
    DecNumeral(size);
    hide Numeral;
    hide Dec;
    hide DenoteFields;
    assert "" + body == body;
    assert "struct(" + Dec(size) + "){" + body + "}" == "struct(" + (Dec(size) + ("){" + (body + "}")));
  }

  lemma RuntimeDenoted(size: nat, addr: nat)
    ensures Denotes(RuntimeText(size, addr), RuntimeT(None, size, addr))
  {
    DecNumeral(size);
    HexNumeral(addr);
    hide Numeral;
    hide Dec;
    hide Hex;
    assert RuntimeText(size, addr) == "runtime(" + (Dec(size) + (")" + ("0x" + Hex(addr))));
  }

  /** The fields still to be printed, behind a separator if one was printed before. */
  function FieldsBody(fields: seq<Field>, isFirst: bool): string {
    var texts := FieldTexts(fields);
    (if isFirst || texts == [] then "" else ";") + Join(texts)
  }

  lemma {:induction false} FieldsDenoted(fields: seq<Field>, isFirst: bool)
    requires PrintableFields(fields)
    ensures DenoteFields(FieldsBody(fields, isFirst), NormalFields(fields), isFirst)
    decreases fields, 1
  {
    if fields == [] {
    } else if fields[0].ty.Named? {
      FieldsDenoted(fields[1..], isFirst);
      assert FieldTexts(fields) == FieldTexts(fields[1..]);
      assert NormalFields(fields) == NormalFields(fields[1..]);
    } else {
      FieldsDenoted(fields[1..], false);
      FieldDenoted(fields[0]);
      BodyStep(fields, isFirst);
      NormalStep(fields);
      hide *;
      FieldInFront(fields[0], NormalField(fields[0]), fields, isFirst, NormalFields(fields[1..]));
    }
  }

  function NormalField(f: Field): Field
    requires f.ty.Typed?
  {
    f.(ty := Typed(Normal(f.ty.t)))
  }

  lemma NormalStep(fields: seq<Field>)
    requires fields != [] && fields[0].ty.Typed?
    ensures NormalFields(fields) == [NormalField(fields[0])] + NormalFields(fields[1..])
  {
  }

  lemma FieldInFront(f: Field, g: Field, fields: seq<Field>, isFirst: bool, others: seq<Field>)
    requires f.ty.Typed? && fields != []
    requires FieldsBody(fields, isFirst) == (if isFirst then "" else ";") + (FieldText(f) + FieldsBody(fields[1..], false))
    requires DenoteField(FieldText(f), g) && DenoteFields(FieldsBody(fields[1..], false), others, false)
    ensures DenoteFields(FieldsBody(fields, isFirst), [g] + others, isFirst)
  {
    hide DenoteField;
    hide FieldsBody;
    hide FieldText;
    var semis := if isFirst then "" else ";";
    assert FieldThen(FieldsBody(fields, isFirst), semis, FieldText(f), FieldsBody(fields[1..], false), isFirst);
    assert ([g] + others)[1..] == others && ([g] + others)[0] == g;
  }

  function FieldText(f: Field): string
    requires f.ty.Typed?
  {
    Dec(f.off) + ":" + f.name + ":" + TypeName(f.ty.t)
  }

  lemma {:induction false} FieldDenoted(f: Field)
    requires f.ty.Typed? && PrintableField(f)
    ensures DenoteField(FieldText(f), NormalField(f))
    decreases f
  {
    PrintedDenotes(f.ty.t);
    DecNumeral(f.off);
    hide Numeral;
    hide Dec;
    hide Denotes;
    hide TypeName;
    hide Normal;
    IdentifierIs(f.name);
    hide Identifier;
    hide IsIdent;
    hide Printable;
    FieldTextIs(Dec(f.off), f.name, TypeName(f.ty.t));
  }

  lemma FieldTextIs(d: string, name: string, u: string)
    ensures d + ":" + name + ":" + u == d + (":" + (name + (":" + u)))
  {
  }

  lemma BodyStep(fields: seq<Field>, isFirst: bool)
    requires fields != [] && fields[0].ty.Typed?
    ensures FieldsBody(fields, isFirst)
         == (if isFirst then "" else ";") + (FieldText(fields[0]) + FieldsBody(fields[1..], false))
  {
    var texts := FieldTexts(fields);
    var others := FieldTexts(fields[1..]);
    var text := FieldText(fields[0]);
    assert texts == [text] + others;
    hide FieldTexts;
    hide FieldText;
    if others == [] {
      assert text + "" == text && "" + "" == "";
    } else {
      assert texts[1..] == others;
      assert Join(texts) == text + (";" + Join(others));
    }
  }

  /** A printed type is read back as its normal form, whatever may follow it inside another one. */
  lemma ReadBack(t: GoType, rest: string)
    requires Printable(t) && Stops(rest)
    ensures ParseType(TypeName(t) + rest) == Parsed(Normal(t), rest)
  {
    hide *;
    PrintedDenotes(t);
    DenotesParsed(TypeName(t), Normal(t), rest);
  }

  // ----- Everything denoted is well-formed -----

  lemma {:induction false} DenotedIsWellFormed(s: string, t: GoType)
    requires Denotes(s, t)
    ensures WellFormed(t)
    decreases t, 0
  {
    hide Numeral;
    DenotedHead(s, t);
    hide DenoteFields;
    hide IsKnown;
    hide IsIdent;
    match t
    case BasicT(_, name, _) => BasicNameIs(name);
    case SliceT(_, inner) =>
      var u := SliceParts(s, inner);
      DenotedIsWellFormed(u, inner);
    case PointerT(_, inner) =>
      var u := PointerParts(s, inner);
      DenotedIsWellFormed(u, inner);
    case ArrayT(_, inner, count) =>
      var d, u := ArrayParts(s, inner, count);
      DenotedIsWellFormed(u, inner);
    case MapT(_, key, val) =>
      var u, w := MapParts(s, key, val);
      DenotedIsWellFormed(u, key);
      DenotedIsWellFormed(w, val);
    case StructT(_, fields, size, _, _) =>
      var d, body := StructParts(s, fields, size);
      FieldsAreWellFormed(body, fields, true);
    case RuntimeT(_, _, _) =>
  }

  lemma DenotedHead(s: string, t: GoType)
    requires Denotes(s, t)
    ensures t.meta == None && !t.BackrefT?
    ensures t.StructT? ==> t.algn == None && t.tag == None
  {
  }

  lemma {:induction false} FieldsAreWellFormed(body: string, fields: seq<Field>, isFirst: bool)
    requires DenoteFields(body, fields, isFirst)
    ensures PrintableFields(fields) && NormalFields(fields) == fields
    decreases fields, 1
  {
    if fields != [] {
      var semis, text, more := FieldsParts(body, fields, isFirst);
      FieldIsWellFormed(text, fields[0]);
      FieldsAreWellFormed(more, fields[1..], false);
      NormalStep(fields);
      assert fields == [fields[0]] + fields[1..];
      hide DenoteFields;
      hide DenoteField;
      hide NormalFields;
    }
  }

  lemma {:induction false} FieldIsWellFormed(text: string, f: Field)
    requires DenoteField(text, f)
    ensures f.ty.Typed? && PrintableField(f) && NormalField(f) == f
    decreases f
  {
    var d, u := FieldParts(text, f);
    IdentifierIs(f.name);
    DenotedIsWellFormed(u, f.ty.t);
  }

  lemma ParsedIsWellFormed(s: string)
    requires ParseType(s).Parsed?
    ensures WellFormed(ParseType(s).value)
  {
    hide *;
    var u := ParsedDenotes(s);
    DenotedIsWellFormed(u, ParseType(s).value);
  }

  // ----- Main results -----

  /** Printing a type and parsing the text gives the type back exactly for the well-formed ones. */
  lemma PrintThenParse(t: GoType)
    ensures ParseWhole(TypeName(t)) == Some(t) <==> WellFormed(t)
  {
    assert TypeName(t) + "" == TypeName(t);
    if WellFormed(t) {
      ReadBack(t, "");
    }
    if ParseWhole(TypeName(t)) == Some(t) {
      ParsedIsWellFormed(TypeName(t));
    }
  }

  /** A printable type with placeholders or unknown fields comes back in normal form, placeholders as runtime types. */
  lemma PrintableReadsBack(t: GoType)
    requires Printable(t)
    ensures ParseWhole(TypeName(t)) == Some(Normal(t))
    ensures WellFormed(Normal(t))
  {
    assert TypeName(t) + "" == TypeName(t);
    ReadBack(t, "");
    ParsedIsWellFormed(TypeName(t));
  }

  /** On every accepted text, printing what was parsed and parsing again changes nothing. */
  lemma ParseThenPrint(s: string)
    requires ParseWhole(s).Some?
    ensures ParseWhole(TypeName(ParseWhole(s).value)) == ParseWhole(s)
  {
    ParsedIsWellFormed(s);
    PrintThenParse(ParseWhole(s).value);
  }

  // ----- The text itself -----

  lemma SmallNumbers()
    ensures Dec(24) == "24" && Dec(0) == "0" && Dec(16) == "16" && Dec(12) == "12" && Dec(10) == "10" && Hex(0x4C0) == "4c0"
  {
    assert Dec(2) == "2" && Dec(1) == "1" && Dec(0) == "0" && Hex(4) == "4";
    assert Dec(24) == Dec(2) + "4" && Dec(16) == Dec(1) + "6" && Dec(12) == Dec(1) + "2" && Dec(10) == Dec(1) + "0";
    assert Hex(0x4C) == Hex(4) + "c" && Hex(0x4C0) == Hex(0x4C) + "0";
  }

  lemma PrintedFields(a: GoType, b: GoType, c: GoType)
    ensures FieldTexts([Field("a", Typed(a), 0), Field("b", Named("bad"), 8), Field("c", Typed(c), 16)])
         == ["0:a:" + TypeName(a), "16:c:" + TypeName(c)]
  {
    SmallNumbers();
    hide TypeName;
    hide Digits;
    var fields := [Field("a", Typed(a), 0), Field("b", Named("bad"), 8), Field("c", Typed(c), 16)];
    assert fields[1..] == [fields[1], fields[2]] && fields[1..][1..] == [fields[2]] && fields[1..][1..][1..] == [];
    assert "0" + ":" + "a" + ":" == "0:a:" && "16" + ":" + "c" + ":" == "16:c:";
    assert FieldTexts([fields[2]]) == ["16:c:" + TypeName(c)] by {
      assert [fields[2]][1..] == [];
    }
  }

  /** Sizes, counts and offsets are printed in decimal, addresses in hexadecimal; a field of unknown type is left out. */
  lemma PrintedText(a: GoType, b: GoType, c: GoType)
    ensures TypeName(SliceT(None, a)) == "[]" + TypeName(a)
    ensures TypeName(PointerT(None, a)) == "*" + TypeName(a)
    ensures TypeName(ArrayT(None, a, 12)) == "[12]" + TypeName(a)
    ensures TypeName(MapT(None, a, b)) == "map[" + TypeName(a) + "]" + TypeName(b)
    ensures TypeName(StructT(None, [Field("a", Typed(a), 0), Field("b", Named("bad"), 8), Field("c", Typed(c), 16)], 24, None, None))
         == "struct(24){0:a:" + TypeName(a) + ";16:c:" + TypeName(c) + "}"
    ensures TypeName(RuntimeT(None, 10, 0x4C0)) == "runtime(10)0x4c0"
    ensures TypeName(BackrefT(Some(Meta("", 0, 0x4C0, 10, 8, false)))) == "runtime(10)0x4c0"
    ensures TypeName(BackrefT(None)) == "..."
  {
    SmallNumbers();
    PrintedFields(a, b, c);
    hide Digits;
    hide FieldTexts;
    var x, y := "0:a:" + TypeName(a), "16:c:" + TypeName(c);
    assert [x, y][1..] == [y];
    assert Join([x, y]) == x + ";" + Join([y]) && Join([y]) == y;
    assert "struct(" + "24" + "){" == "struct(24){";
    assert "[" + "12" + "]" == "[12]";
    hide Join;
  }
}
